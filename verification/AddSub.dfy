/** Addition and subtraction: the digit loops on magnitudes, and the signed operations on top of
    them. The destination may be either operand. */
module AddSub {
  import opened Arith
  import opened Digits
  import opened MpInts

  /** The loop over the digits both operands have. */
  method AddColumns(a: MpInt, b: MpInt, c: MpInt, min: nat) returns (u: Digit)
    requires min <= |a.dp| && min <= |b.dp| && min <= |c.dp|
    requires Digital(a.dp, min) && Digital(b.dp, min)
    modifies c`dp
    ensures |c.dp| == old(|c.dp|) && forall k :: min <= k < |c.dp| ==> c.dp[k] == old(c.dp[k])
    ensures u <= 1 && Digital(c.dp, min)
    ensures Ev(c.dp, min) + u * B(min) == old(Ev(a.dp, min) + Ev(b.dp, min))
  {
    u := 0;
    var i := 0;
    while i < min
      invariant i <= min && u <= 1 && |c.dp| == old(|c.dp|)
      invariant |a.dp| == old(|a.dp|) && forall k :: i <= k < |a.dp| ==> a.dp[k] == old(a.dp[k])
      invariant |b.dp| == old(|b.dp|) && forall k :: i <= k < |b.dp| ==> b.dp[k] == old(b.dp[k])
      invariant forall k :: i <= k < |c.dp| ==> c.dp[k] == old(c.dp[k])
      invariant Digital(c.dp, i)
      invariant Ev(c.dp, i) + u * B(i) == old(Ev(a.dp, i) + Ev(b.dp, i))
    {
      ghost var s0, u0 := c.dp, u;
      var t: Digit := a.dp[i] + b.dp[i] + u;
      c.dp := c.dp[i := t % BETA];
      u := t / BETA;
      AddColumn(s0, c.dp, old(a.dp), old(b.dp), i, u0, u);
      i := i + 1;
    }
  }

  lemma AddColumn(s0: seq<int>, s1: seq<int>, a: seq<int>, b: seq<int>, i: nat, u0: int, u: int)
    requires i < |s0| == |s1| && i < |a| && i < |b|
    requires forall k :: 0 <= k < i ==> s1[k] == s0[k]
    requires Ev(s0, i) + u0 * B(i) == Ev(a, i) + Ev(b, i)
    requires a[i] + b[i] + u0 == s1[i] + u * BETA
    ensures Ev(s1, i + 1) + u * B(i + 1) == Ev(a, i + 1) + Ev(b, i + 1)
  {
    Column(s0, s1, i, u0, a[i] + b[i], u);
    assert (a[i] + b[i]) * B(i) == a[i] * B(i) + b[i] * B(i);
  }

  /** The loop over the digits only the longer operand has: the carry runs on. */
  method AddCarryColumns(x: MpInt, c: MpInt, min: nat, max: nat, u0: Digit) returns (u: Digit)
    requires min <= max <= |x.dp| && max <= |c.dp| && u0 <= 1
    requires Digital(x.dp, max) && Digital(c.dp, min)
    modifies c`dp
    ensures |c.dp| == old(|c.dp|) && forall k :: max <= k < |c.dp| ==> c.dp[k] == old(c.dp[k])
    ensures u <= 1 && Digital(c.dp, max)
    ensures Ev(c.dp, max) + u * B(max)
         == old(Ev(c.dp, min)) + u0 * B(min) + old(Ev(x.dp, max) - Ev(x.dp, min))
  {
    u := u0;
    var i := min;
    while i < max
      invariant min <= i <= max && u <= 1 && |c.dp| == old(|c.dp|)
      invariant |x.dp| == old(|x.dp|) && forall k :: i <= k < |x.dp| ==> x.dp[k] == old(x.dp[k])
      invariant forall k :: i <= k < |c.dp| ==> c.dp[k] == old(c.dp[k])
      invariant Digital(c.dp, i)
      invariant Ev(c.dp, i) + u * B(i)
             == old(Ev(c.dp, min)) + u0 * B(min) + old(Ev(x.dp, i) - Ev(x.dp, min))
    {
      ghost var s0, u1 := c.dp, u;
      var t: Digit := x.dp[i] + u;
      c.dp := c.dp[i := t % BETA];
      u := t / BETA;
      Column(s0, c.dp, i, u1, old(x.dp)[i], u);
      i := i + 1;
    }
  }

  /** Both loops and the final carry: max + 1 digits of c become the sum. */
  method AddDigits(x: MpInt, y: MpInt, c: MpInt, max: nat, min: nat)
    requires min <= max <= |x.dp| && min <= |y.dp| && max < |c.dp|
    requires Digital(x.dp, max) && Digital(y.dp, min)
    modifies c`dp
    ensures |c.dp| == old(|c.dp|) && forall k :: max < k < |c.dp| ==> c.dp[k] == old(c.dp[k])
    ensures Digital(c.dp, max + 1)
    ensures Ev(c.dp, max + 1) == old(Ev(x.dp, max) + Ev(y.dp, min))
  {
    ghost var dx := x.dp;
    var u := AddColumns(x, y, c, min);
    if min != max {
      EvAgreeAbove(dx, x.dp, min, max);
      u := AddCarryColumns(x, c, min, max, u);
    }
    ghost var s := c.dp;
    c.dp := c.dp[max := u];
    EvSame(s, c.dp, max);
  }

  method AddOrdered(x: MpInt, y: MpInt, c: MpInt)
    requires x.Wf() && y.Wf() && c.Wf() && y.used <= x.used
    modifies c
    ensures c.Valid() && c.Mag() == old(x.Mag()) + old(y.Mag())
    ensures c.used > 0 ==> c.neg == old(c.neg)
    ensures old(|c.dp|) <= |c.dp|
  {
    hide Ev;
    var max, min := x.used, y.used;
    ghost var dx, dy := x.dp, y.dp;
    c.Grow(max + 1);
    var olduse := c.used;
    c.used := max + 1;
    EvSame(dx, x.dp, max);
    EvSame(dy, y.dp, min);
    AddDigits(x, y, c, max, min);
    ghost var s := c.dp;
    ClearDigits(c, max + 1, olduse);
    EvSame(s, c.dp, max + 1);
    c.Clamp();
  }

  /** s_mp_add: |c| = |a| + |b|. */
  method LowAdd(a: MpInt, b: MpInt, c: MpInt)
    requires a.Wf() && b.Wf() && c.Wf()
    modifies c
    ensures c.Valid() && c.Mag() == old(a.Mag()) + old(b.Mag())
    ensures c.used > 0 ==> c.neg == old(c.neg)
    ensures old(|c.dp|) <= |c.dp|
  {
    hide MpInt.Wf;
    if a.used > b.used {
      AddOrdered(a, b, c);
    } else {
      AddOrdered(b, a, c);
    }
  }

  /** One column of a subtraction in 32-bit arithmetic: the sign bit of the wrapped difference is the
      borrow, and masking the wrapped difference gives the digit. */
  lemma Borrow(v: int, t: int)
    requires -BETA <= v < BETA && t == Wrap32(v)
    ensures t / 0x8000_0000 == (if v < 0 then 1 else 0)
    ensures v == t % BETA - (t / 0x8000_0000) * BETA
  {
    if v < 0 {
      DivModUnique(v, 0x1_0000_0000, -1, v + 0x1_0000_0000);
      DivModUnique(t, BETA, 15, v + BETA);
    } else {
      ModSmall(v, 0x1_0000_0000);
      ModSmall(v, BETA);
    }
  }

  method SubColumns(a: MpInt, b: MpInt, c: MpInt, min: nat) returns (u: Digit)
    requires min <= |a.dp| && min <= |b.dp| && min <= |c.dp|
    requires Digital(a.dp, min) && Digital(b.dp, min)
    modifies c`dp
    ensures |c.dp| == old(|c.dp|) && forall k :: min <= k < |c.dp| ==> c.dp[k] == old(c.dp[k])
    ensures u <= 1 && Digital(c.dp, min)
    ensures Ev(c.dp, min) - u * B(min) == old(Ev(a.dp, min) - Ev(b.dp, min))
  {
    u := 0;
    var i := 0;
    while i < min
      invariant i <= min && u <= 1 && |c.dp| == old(|c.dp|)
      invariant |a.dp| == old(|a.dp|) && forall k :: i <= k < |a.dp| ==> a.dp[k] == old(a.dp[k])
      invariant |b.dp| == old(|b.dp|) && forall k :: i <= k < |b.dp| ==> b.dp[k] == old(b.dp[k])
      invariant forall k :: i <= k < |c.dp| ==> c.dp[k] == old(c.dp[k])
      invariant Digital(c.dp, i)
      invariant Ev(c.dp, i) - u * B(i) == old(Ev(a.dp, i) - Ev(b.dp, i))
    {
      ghost var s0, u0 := c.dp, u;
      var t := Wrap32(a.dp[i] - b.dp[i] - u);
      Borrow(a.dp[i] - b.dp[i] - u, t);
      c.dp := c.dp[i := t % BETA];
      u := t / 0x8000_0000;
      SubColumn(s0, c.dp, old(a.dp), old(b.dp), i, u0, u);
      i := i + 1;
    }
  }

  lemma SubColumn(s0: seq<int>, s1: seq<int>, a: seq<int>, b: seq<int>, i: nat, u0: int, u: int)
    requires i < |s0| == |s1| && i < |a| && i < |b|
    requires forall k :: 0 <= k < i ==> s1[k] == s0[k]
    requires Ev(s0, i) - u0 * B(i) == Ev(a, i) - Ev(b, i)
    requires a[i] - b[i] - u0 == s1[i] - u * BETA
    ensures Ev(s1, i + 1) - u * B(i + 1) == Ev(a, i + 1) - Ev(b, i + 1)
  {
    BorrowColumn(s0, s1, i, u0, a[i] - b[i], u);
    assert (a[i] - b[i]) * B(i) == a[i] * B(i) - b[i] * B(i);
  }

  lemma BorrowColumn(s0: seq<int>, s1: seq<int>, i: nat, u0: int, col: int, u: int)
    requires i < |s0| == |s1|
    requires forall k :: 0 <= k < i ==> s1[k] == s0[k]
    requires col - u0 == s1[i] - u * BETA
    ensures Ev(s1, i + 1) - u * B(i + 1) == Ev(s0, i) - u0 * B(i) + col * B(i)
  {
    Column(s0, s1, i, -u0, col, -u);
    assert -u0 * B(i) == -(u0 * B(i)) && -u * B(i + 1) == -(u * B(i + 1));
  }

  method SubBorrowColumns(a: MpInt, c: MpInt, min: nat, max: nat, u0: Digit) returns (u: Digit)
    requires min <= max <= |a.dp| && max <= |c.dp| && u0 <= 1
    requires Digital(a.dp, max) && Digital(c.dp, min)
    modifies c`dp
    ensures |c.dp| == old(|c.dp|) && forall k :: max <= k < |c.dp| ==> c.dp[k] == old(c.dp[k])
    ensures u <= 1 && Digital(c.dp, max)
    ensures Ev(c.dp, max) - u * B(max)
         == old(Ev(c.dp, min)) - u0 * B(min) + old(Ev(a.dp, max) - Ev(a.dp, min))
  {
    u := u0;
    var i := min;
    while i < max
      invariant min <= i <= max && u <= 1 && |c.dp| == old(|c.dp|)
      invariant |a.dp| == old(|a.dp|) && forall k :: i <= k < |a.dp| ==> a.dp[k] == old(a.dp[k])
      invariant forall k :: i <= k < |c.dp| ==> c.dp[k] == old(c.dp[k])
      invariant Digital(c.dp, i)
      invariant Ev(c.dp, i) - u * B(i)
             == old(Ev(c.dp, min)) - u0 * B(min) + old(Ev(a.dp, i) - Ev(a.dp, min))
    {
      ghost var s0, u1 := c.dp, u;
      var t := Wrap32(a.dp[i] - u);
      Borrow(a.dp[i] - u, t);
      c.dp := c.dp[i := t % BETA];
      u := t / 0x8000_0000;
      BorrowColumn(s0, c.dp, i, u1, old(a.dp)[i], u);
      i := i + 1;
    }
  }

  method SubDigits(a: MpInt, b: MpInt, c: MpInt, max: nat, min: nat)
    requires min <= max <= |a.dp| && min <= |b.dp| && max <= |c.dp|
    requires Digital(a.dp, max) && Digital(b.dp, min)
    requires Ev(b.dp, min) <= Ev(a.dp, max)
    modifies c`dp
    ensures |c.dp| == old(|c.dp|) && forall k :: max <= k < |c.dp| ==> c.dp[k] == old(c.dp[k])
    ensures Digital(c.dp, max)
    ensures Ev(c.dp, max) == old(Ev(a.dp, max) - Ev(b.dp, min))
  {
    ghost var da := a.dp;
    var u := SubColumns(a, b, c, min);
    EvAgreeAbove(da, a.dp, min, max);
    u := SubBorrowColumns(a, c, min, max, u);
    EvBound(c.dp, max);
    NoBorrow(u, B(max), Ev(c.dp, max));
  }

  lemma NoBorrow(u: int, p: int, x: int)
    requires 0 <= u && 0 <= x < p && 0 <= x - u * p
    ensures u == 0
  {
    if u > 0 {
      MulLe(1, u, p);
    }
  }

  /** s_mp_sub: |c| = |a| - |b|, for |a| at least |b|. */
  method LowSub(a: MpInt, b: MpInt, c: MpInt)
    requires a.Wf() && b.Wf() && c.Wf()
    requires b.used <= a.used && b.Mag() <= a.Mag()
    modifies c
    ensures c.Valid() && c.Mag() == old(a.Mag()) - old(b.Mag())
    ensures c.used > 0 ==> c.neg == old(c.neg)
    ensures old(|c.dp|) <= |c.dp|
  {
    var min, max := b.used, a.used;
    ghost var da, db := a.dp, b.dp;
    c.Grow(max);
    var olduse := c.used;
    c.used := max;
    EvSame(da, a.dp, max);
    EvSame(db, b.dp, min);
    SubDigits(a, b, c, max, min);
    ghost var s := c.dp;
    ClearDigits(c, max, olduse);
    EvSame(s, c.dp, max);
    c.Clamp();
  }

  lemma MagOrder(a: MpInt, b: MpInt)
    requires a.Valid() && b.Valid() && b.Mag() <= a.Mag()
    ensures b.used <= a.used
  {
    if a.used < b.used {
      LongerIsLarger(a, b);
    }
  }

  /** mp_add: c = a + b. */
  method Add(a: MpInt, b: MpInt, c: MpInt)
    requires a.Valid() && b.Valid() && c.Valid()
    modifies c
    ensures c.Valid() && c.Val() == old(a.Val()) + old(b.Val())
    ensures old(|c.dp|) <= |c.dp|
  {
    hide MpInt.Wf;
    var sa, sb := a.neg, b.neg;
    if sa == sb {
      c.neg := sa;
      LowAdd(a, b, c);
    } else {
      var cmp := CmpMag(a, b);
      if cmp == Lt {
        MagOrder(b, a);
        c.neg := sb;
        LowSub(b, a, c);
      } else {
        MagOrder(a, b);
        c.neg := sa;
        LowSub(a, b, c);
      }
    }
  }

  /** Clamped numbers, or a minuend with more digits: then the digit counts do not mislead. */
  ghost predicate Ordered(a: MpInt, b: MpInt)
    reads a, b
    requires a.Wf() && b.Wf()
  {
    (a.Valid() && b.Valid()) || (b.used < a.used && b.Mag() <= a.Mag())
  }

  /** mp_sub: c = a - b. */
  method Sub(a: MpInt, b: MpInt, c: MpInt)
    requires a.Wf() && b.Wf() && c.Wf() && Ordered(a, b)
    modifies c
    ensures c.Valid() && c.Val() == old(a.Val()) - old(b.Val())
    ensures old(|c.dp|) <= |c.dp|
  {
    hide MpInt.Wf;
    var sa, sb := a.neg, b.neg;
    if sa != sb {
      c.neg := sa;
      LowAdd(a, b, c);
    } else {
      var cmp := CmpMag(a, b);
      OrderedUsed(a, b);
      if cmp != Lt {
        c.neg := sa;
        LowSub(a, b, c);
      } else {
        c.neg := !sa;
        LowSub(b, a, c);
      }
    }
  }

  lemma OrderedUsed(a: MpInt, b: MpInt)
    requires a.Wf() && b.Wf() && Ordered(a, b)
    ensures b.Mag() <= a.Mag() ==> b.used <= a.used
    ensures a.Mag() < b.Mag() ==> a.used <= b.used && a.Valid() && b.Valid()
    ensures b.used < a.used ==> b.Mag() <= a.Mag()
    ensures a.used < b.used ==> a.Mag() < b.Mag()
  {
    if a.Valid() && b.Valid() {
      if a.used < b.used {
        LongerIsLarger(a, b);
      } else if b.used < a.used {
        LongerIsLarger(b, a);
      }
    }
  }
}
