/** Shifts by digits and by bits, reduction modulo a power of two, and bit counting. */
module Shift {
  import opened Arith
  import opened Digits
  import opened MpInts

  method MoveDown(a: MpInt, b: nat, n: nat)
    requires b <= n <= |a.dp|
    modifies a`dp
    ensures |a.dp| == old(|a.dp|)
    ensures forall k :: 0 <= k < n - b ==> a.dp[k] == old(a.dp[k + b])
    ensures forall k :: n - b <= k < |a.dp| ==> a.dp[k] == old(a.dp[k])
  {
    ghost var s := a.dp;
    var x := 0;
    while x < n - b
      invariant x <= n - b && |a.dp| == |s|
      invariant forall k :: 0 <= k < x ==> a.dp[k] == s[k + b]
      invariant forall k :: x <= k < |s| ==> a.dp[k] == s[k]
    {
      a.dp := a.dp[x := a.dp[x + b]];
      x := x + 1;
    }
  }

  method MoveUp(a: MpInt, b: nat, n: nat)
    requires n + b <= |a.dp|
    modifies a`dp
    ensures |a.dp| == old(|a.dp|)
    ensures forall k :: b <= k < n + b ==> a.dp[k] == old(a.dp[k - b])
    ensures forall k :: 0 <= k < |a.dp| && !(b <= k < n + b) ==> a.dp[k] == old(a.dp[k])
  {
    ghost var s := a.dp;
    var x := n + b;
    while x > b
      invariant b <= x <= n + b && |a.dp| == |s|
      invariant forall k :: x <= k < n + b ==> a.dp[k] == s[k - b]
      invariant forall k :: 0 <= k < |s| && !(x <= k < n + b) ==> a.dp[k] == s[k]
    {
      x := x - 1;
      a.dp := a.dp[x := a.dp[x - b]];
    }
  }

  /** mp_rshd: drop the b low digits. */
  method Rshd(a: MpInt, b: nat)
    requires a.Valid()
    modifies a
    ensures a.Valid() && a.Mag() == DropLow(old(a.Mag()), b) && |a.dp| == old(|a.dp|)
    ensures a.used > 0 ==> a.neg == old(a.neg)
    ensures a.used == if old(a.used) <= b then 0 else old(a.used) - b
  {
    if b == 0 {
      assert B(0) == 1;
    } else if a.used <= b {
      UsedBound(a, b);
      ModSmall(a.Mag(), B(b));
      a.Zero();
    } else {
      ghost var s := a.dp;
      MoveDown(a, b, a.used);
      ClearDigits(a, a.used - b, a.used);
      a.used := a.used - b;
      DroppedLow(s, a.dp, b, a.used);
    }
  }

  lemma DroppedLow(s: seq<int>, t: seq<int>, b: nat, n: nat)
    requires b + n <= |s| && n <= |t| && Digital(s, b)
    requires forall k :: 0 <= k < n ==> t[k] == s[k + b]
    ensures Ev(t, n) == Ev(s, b + n) / B(b)
  {
    EvShift(t, s, b, n);
    EvBound(s, b);
    DivModUnique(Ev(s, b + n), B(b), Ev(t, n), Ev(s, b));
  }

  lemma UsedBound(a: MpInt, n: nat)
    requires a.Wf() && a.used <= n
    ensures a.Mag() < B(n)
  {
    EvBound(a.dp, a.used);
    BMono(a.used, n);
  }

  /** mp_lshd: b zero digits come in at the bottom. The result of shifting zero is not clamped. */
  method Lshd(a: MpInt, b: nat)
    requires a.Wf()
    modifies a
    ensures a.Wf() && a.Mag() == old(a.Mag()) * B(b) && a.neg == old(a.neg)
    ensures a.used == old(a.used) + b && old(|a.dp|) <= |a.dp|
    ensures old(a.Valid() && (a.used > 0 || b == 0)) ==> a.Valid()
  {
    hide Ev, B;
    if b == 0 {
      NoPlaces();
    } else {
      var n := a.used;
      ghost var s0 := a.dp;
      a.Grow(n + b);
      ghost var s := a.dp;
      a.used := n + b;
      MoveUp(a, b, n);
      ClearDigits(a, 0, b);
      EvSame(s0, s, n);
      Raised(s, a.dp, b, n);
    }
  }

  lemma NoPlaces()
    ensures B(0) == 1
  {
  }

  lemma Raised(s: seq<int>, t: seq<int>, b: nat, n: nat)
    requires n <= |s| && b + n <= |t|
    requires forall k :: 0 <= k < n ==> t[b + k] == s[k]
    requires forall k :: 0 <= k < b ==> t[k] == 0
    ensures Ev(t, n + b) == Ev(s, n) * B(b)
  {
    EvShift(s, t, b, n);
    EvZeros(t, 0, b);
  }

  /** The bits of digit x that a right shift by p moves down into digit x - 1. */
  ghost function Spill(s: seq<int>, x: nat, n: nat, p: int): int
    requires x <= n <= |s| && p > 0
  {
    if x < n then s[x] % p else 0
  }

  /** The right shift of a digit string by fewer bits than a digit has: p is the power of two
      shifted out, q its cofactor in the base. */
  lemma {:induction false} ShiftedRight(s: seq<int>, t: seq<int>, m: nat, n: nat, p: int, q: int)
    requires m <= n <= |s| && n <= |t| && p > 0 && p * q == BETA
    requires forall x :: 0 <= x < n ==> t[x] == s[x] / p + Spill(s, x + 1, n, p) * q
    ensures Ev(t, m) * p + Spill(s, 0, n, p) == Ev(s, m) + Spill(s, m, n, p) * B(m)
  {
    if m > 0 {
      ShiftedRight(s, t, m - 1, n, p, q);
      StepRight(Ev(t, m - 1), s[m - 1], Spill(s, m, n, p), p, q, B(m - 1));
    }
  }

  lemma StepRight(e: int, v: int, r: int, p: int, q: int, b: int)
    requires p > 0 && p * q == BETA
    ensures (e + (v / p + r * q) * b) * p == e * p + v * b - (v % p) * b + r * (BETA * b)
  {
    var h, l := v / p, v % p;
    DivModEq(v, p);
    calc {
      (e + (h + r * q) * b) * p;
      e * p + ((h + r * q) * b) * p;
      { assert (h + r * q) * b == h * b + (r * q) * b; }
      e * p + (h * b) * p + ((r * q) * b) * p;
      { assert (h * b) * p == (h * p) * b; assert (h * p + l) * b == (h * p) * b + l * b; }
      e * p + v * b - l * b + ((r * q) * b) * p;
      { MulAssoc(r, q, b); MulAssoc(r, q * b, p); MulAssoc(p, q, b); }
      e * p + v * b - l * b + r * (BETA * b);
    }
  }

  lemma ShiftedRightAll(s: seq<int>, t: seq<int>, n: nat, p: int, q: int)
    requires n <= |s| && n <= |t| && p > 0 && p * q == BETA
    requires forall x :: 0 <= x < n ==> t[x] == s[x] / p + Spill(s, x + 1, n, p) * q
    ensures Ev(t, n) == Ev(s, n) / p
  {
    ShiftedRight(s, t, n, n, p, q);
    assert Spill(s, n, n, p) * B(n) == 0;
    DivModUnique(Ev(s, n), p, Ev(t, n), Spill(s, 0, n, p));
  }

  lemma PowTwoDigit(d: nat)
    requires d <= DIGIT_BIT
    ensures Pow(2, d) * Pow(2, DIGIT_BIT - d) == BETA
  {
    PowAdd(2, d, DIGIT_BIT - d);
    PowTwo28();
  }

  /** Digit powers are bit powers. */
  lemma {:induction false} BitsOfDigits(n: nat)
    ensures Pow(2, DIGIT_BIT * n) == B(n)
  {
    if n > 0 {
      BitsOfDigits(n - 1);
      PowAdd(2, DIGIT_BIT, DIGIT_BIT * (n - 1));
      PowTwo28();
    }
  }

  lemma SplitBits(b: nat)
    ensures Pow(2, b) == B(b / DIGIT_BIT) * Pow(2, b % DIGIT_BIT)
  {
    BitsOfDigits(b / DIGIT_BIT);
    PowAdd(2, DIGIT_BIT * (b / DIGIT_BIT), b % DIGIT_BIT);
  }

  /** The bit loop of mp_div_2d, from the top digit down. */
  method ShiftRightBits(c: MpInt, d: nat)
    requires c.Wf() && 0 < d < DIGIT_BIT
    modifies c`dp
    ensures c.Wf() && c.Mag() == old(c.Mag()) / Pow(2, d)
  {
    PowTwoDigit(d);
    var p, q := Pow(2, d), Pow(2, DIGIT_BIT - d);
    ghost var s := c.dp;
    var n, r, x := c.used, 0, c.used;
    while x > 0
      invariant 0 <= x <= n && |c.dp| == |s|
      invariant r == Spill(s, x, n, p)
      invariant forall k :: 0 <= k < x || n <= k < |s| ==> c.dp[k] == s[k]
      invariant forall k :: x <= k < n ==> c.dp[k] == s[k] / p + Spill(s, k + 1, n, p) * q
      invariant Digital(c.dp, |s|)
    {
      x := x - 1;
      var rr := c.dp[x] % p;
      ShiftedDigit(c.dp[x], r, p, q);
      c.dp := c.dp[x := c.dp[x] / p + r * q];
      r := rr;
    }
    ShiftedRightAll(s, c.dp, n, p, q);
  }

  lemma ShiftedDigit(v: int, r: int, p: int, q: int)
    requires 0 <= v < BETA && 0 <= r < p && p * q == BETA && q > 0
    ensures 0 <= v / p < q && 0 <= v / p + r * q < BETA
  {
    DivModEq(v, p);
    if v / p >= q {
      MulLe(q, v / p, p);
    }
    if v / p < 0 {
      MulLe(v / p, -1, p);
    }
    MulLe(r, p - 1, q);
    MulLe(0, r, q);
    assert (p - 1) * q == p * q - q;
  }

  /** The bit loop of mp_mul_2d, from the bottom digit up; r is the carry left over. */
  method ShiftLeftBits(c: MpInt, d: nat) returns (r: Digit)
    requires c.Wf() && 0 < d < DIGIT_BIT
    modifies c`dp
    ensures c.Wf() && |c.dp| == old(|c.dp|) && r < BETA
    ensures c.Mag() + r * B(c.used) == old(c.Mag()) * Pow(2, d)
  {
    PowTwoDigit(d);
    var p, q := Pow(2, d), Pow(2, DIGIT_BIT - d);
    ghost var s := c.dp;
    r := 0;
    var x := 0;
    while x < c.used
      invariant x <= c.used && |c.dp| == |s| && 0 <= r < p
      invariant forall k :: x <= k < |s| ==> c.dp[k] == s[k]
      invariant Digital(c.dp, |s|)
      invariant Ev(c.dp, x) + r * B(x) == Ev(s, x) * p
    {
      ghost var s0, r0 := c.dp, r;
      var rr := (c.dp[x] / q) % p;
      RaisedDigit(c.dp[x], r, p, q);
      c.dp := c.dp[x := (Wrap32(c.dp[x] * p) + r) % BETA];
      r := rr;
      LeftColumn(s, s0, c.dp, x, r0, r, p);
      x := x + 1;
    }
    RaisedCarry(p, q);
  }

  lemma LeftColumn(s: seq<int>, s0: seq<int>, s1: seq<int>, x: nat, r0: int, r: int, p: int)
    requires x < |s| == |s0| == |s1|
    requires forall k :: 0 <= k < x ==> s1[k] == s0[k]
    requires Ev(s0, x) + r0 * B(x) == Ev(s, x) * p
    requires s[x] * p + r0 == s1[x] + r * BETA
    ensures Ev(s1, x + 1) + r * B(x + 1) == Ev(s, x + 1) * p
  {
    Column(s0, s1, x, r0, s[x] * p, r);
    assert (Ev(s, x) + s[x] * B(x)) * p == Ev(s, x) * p + (s[x] * p) * B(x);
  }

  lemma RaisedCarry(p: int, q: int)
    requires p * q == BETA && p > 0 && q > 0
    ensures p <= BETA
  {
    MulLe(1, q, p);
  }

  /** Shifting a digit left in a 32-bit word and masking it keeps its low bits; the high bits read off
      beforehand are exactly what was lost. */
  lemma RaisedDigit(v: int, r: int, p: int, q: int)
    requires 0 <= v < BETA && 0 <= r < p && p * q == BETA && q > 0
    ensures 0 <= v * p && 0 <= (v / q) % p < p
    ensures v * p + r == (Wrap32(v * p) + r) % BETA + ((v / q) % p) * BETA
  {
    var h, l := v / q, v % q;
    ShiftedDigit(v, 0, q, p);
    DivModEq(v, q);
    ModSmall(h, p);
    RaisedParts(v, h, l, r, p, q);
    MaskedWord(v * p, h, l * p, r);
  }

  lemma RaisedParts(v: int, h: int, l: int, r: int, p: int, q: int)
    requires v == h * q + l && 0 <= l < q && 0 <= r < p && p * q == BETA && 0 <= h
    ensures v * p == h * BETA + l * p && 0 <= l * p && l * p + r < BETA && 0 <= v * p
  {
    MulAssoc(h, q, p);
    MulLe(l, q - 1, p);
    MulLe(0, l, p);
    MulLe(0, h, q);
    MulLe(0, v, p);
  }

  lemma MaskedWord(w: int, h: int, l: int, r: int)
    requires w == h * BETA + l && 0 <= w && 0 <= l && 0 <= r && l + r < BETA
    ensures w + r == (Wrap32(w) + r) % BETA + h * BETA
  {
    DivModEq(w, 0x1_0000_0000);
    DivModUnique(Wrap32(w) + r, BETA, h - 16 * (w / 0x1_0000_0000), l + r);
  }

  /** mp_mul_2d: c = a * 2^b. In place the operand need not be clamped. */
  method Mul2d(a: MpInt, b: nat, c: MpInt)
    requires c.Wf() && (a == c || a.Valid())
    modifies c
    ensures c.Valid() && c.Val() == old(a.Val()) * Pow(2, b)
    ensures old(a.used) + b / DIGIT_BIT < |c.dp|
  {
    if a != c {
      Copy(a, c);
    }
    ghost var v, m := c.Val(), c.Mag();
    c.Grow(c.used + b / DIGIT_BIT + 1);
    if b >= DIGIT_BIT {
      Lshd(c, b / DIGIT_BIT);
    } else {
      assert B(0) == 1;
    }
    var d := b % DIGIT_BIT;
    SplitBits(b);
    MulAssoc(m, B(b / DIGIT_BIT), Pow(2, d));
    if d != 0 {
      ShiftLeftInto(c, d);
    }
    c.Clamp();
    SignedScale(m, Pow(2, b), v);
  }

  lemma SignedScale(m: int, p: int, v: int)
    requires v == m || v == -m
    ensures v == -m ==> -(m * p) == v * p
    ensures v == m ==> m * p == v * p
  {
  }

  /** The bit shift together with the possible new top digit. */
  method ShiftLeftInto(c: MpInt, d: nat)
    requires c.Wf() && 0 < d < DIGIT_BIT && c.used < |c.dp|
    modifies c`dp, c`used
    ensures c.Wf() && |c.dp| == old(|c.dp|) && c.Mag() == old(c.Mag()) * Pow(2, d)
  {
    var r := ShiftLeftBits(c, d);
    if r != 0 {
      ghost var s := c.dp;
      c.dp := c.dp[c.used := r];
      c.used := c.used + 1;
      EvSame(s, c.dp, c.used - 1);
    }
  }

  /** mp_2expt: a = 2^b. */
  method TwoExpt(a: MpInt, b: nat)
    requires a.Wf()
    modifies a
    ensures a.Valid() && a.Val() == Pow(2, b)
  {
    hide Pow;
    a.Zero();
    a.Grow(b / DIGIT_BIT + 1);
    var k, d := b / DIGIT_BIT, b % DIGIT_BIT;
    a.used := k + 1;
    PowTwoDigit(d);
    PowTwoBelow(d);
    a.dp := a.dp[k := Pow(2, d)];
    EvZeros(a.dp, 0, k);
    SplitBits(b);
  }

  lemma PowTwoBelow(d: nat)
    requires d < DIGIT_BIT
    ensures Pow(2, d) < BETA
  {
    PowTwoDigit(d);
    assert Pow(2, DIGIT_BIT - d) == 2 * Pow(2, DIGIT_BIT - d - 1);
    MulLt(1, Pow(2, DIGIT_BIT - d), Pow(2, d));
  }

  /** The low bits of a digit string: everything below bit p of digit k. */
  lemma LowBits(s: seq<int>, k: nat, n: nat, p: int, q: int)
    requires k < n <= |s| && Digital(s, n) && p > 0 && q > 0 && p * q == BETA
    ensures Ev(s, n) % (B(k) * p) == Ev(s, k) + (s[k] % p) * B(k)
  {
    hide *;
    EvBoundPrefix(s, k, n);
    var z := EvSplit(s, k + 1, n);
    EvTwo(s, k);
    LowBitsMod(Ev(s, k), s[k], B(k), p, q, z);
  }

  lemma EvTwo(s: seq<int>, k: nat)
    requires k < |s|
    ensures Ev(s, k + 1) == Ev(s, k) + s[k] * B(k) && B(k + 1) == BETA * B(k)
  {
  }

  lemma LowBitsMod(e: int, v: int, b: int, p: int, q: int, z: int)
    requires 0 <= e < b && p > 0 && p * q == BETA
    ensures b * p > 0 && (e + v * b + (BETA * b) * z) % (b * p) == e + (v % p) * b
  {
    DivModEq(v, p);
    LowBitsSum(e, v, b, p, q, z);
    MulLe(v % p, p - 1, b);
    MulLe(0, v % p, b);
    MulLt(0, p, b);
    assert (p - 1) * b == b * p - b;
    DivModUnique(e + v * b + (BETA * b) * z, b * p, v / p + q * z, e + (v % p) * b);
  }

  lemma LowBitsSum(e: int, v: int, b: int, p: int, q: int, z: int)
    requires p > 0 && p * q == BETA
    ensures e + v * b + (BETA * b) * z == (v / p + q * z) * (b * p) + (e + (v % p) * b)
  {
    var h, l := v / p, v % p;
    DivModEq(v, p);
    assert v * b == (h * p) * b + l * b;
    assert (h + q * z) * (b * p) == h * (b * p) + (q * z) * (b * p);
    assert h * (b * p) == (h * p) * b by { MulAssoc(h, b, p); MulAssoc(h, p, b); }
    assert (q * z) * (b * p) == (BETA * b) * z by {
      calc {
        (q * z) * (b * p);
        { MulAssoc(q * z, p, b); }
        ((q * z) * p) * b;
        { MulAssoc(p, q, z); }
        (BETA * z) * b;
        { MulAssoc(BETA, z, b); MulAssoc(BETA, b, z); }
        (BETA * b) * z;
      }
    }
  }

  /** mp_mod_2d: c = a with |c| = |a| mod 2^b and the sign of a. */
  method Mod2d(a: MpInt, b: int, c: MpInt)
    requires a.Valid() && c.Valid()
    modifies c
    ensures c.Valid() && c.Mag() == if b <= 0 then 0 else old(a.Mag()) % Pow(2, b)
    ensures c.used > 0 ==> c.neg == old(a.neg)
  {
    if b <= 0 {
      c.Zero();
      return;
    }
    if b >= a.used * DIGIT_BIT {
      AllBits(a, b);
      Copy(a, c);
      return;
    }
    Copy(a, c);
    KeepLowBits(c, b);
    c.Clamp();
  }

  lemma AllBits(a: MpInt, b: nat)
    requires a.Wf() && a.used * DIGIT_BIT <= b
    ensures a.Mag() % Pow(2, b) == a.Mag()
  {
    UsedBound(a, b / DIGIT_BIT);
    SplitBits(b);
    MulLe(1, Pow(2, b % DIGIT_BIT), B(b / DIGIT_BIT));
    ModSmall(a.Mag(), Pow(2, b));
  }

  method KeepLowBits(c: MpInt, b: nat)
    requires c.Wf() && b < c.used * DIGIT_BIT
    modifies c`dp
    ensures c.Wf() && c.Mag() == old(c.Mag()) % Pow(2, b)
  {
    var k, d := b / DIGIT_BIT, b % DIGIT_BIT;
    ghost var s := c.dp;
    PowTwoDigit(d);
    ClearDigits(c, k + if d == 0 then 0 else 1, c.used);
    var p := Pow(2, d);
    ghost var l := c.dp[k] % p;
    KeptDigit(s[k], d);
    c.dp := c.dp[k := c.dp[k] % p];
    LowBits(s, k, c.used, p, Pow(2, DIGIT_BIT - d));
    SplitBits(b);
    EvSame(s, c.dp, k);
    EvZeros(c.dp, k + 1, c.used);
  }

  lemma KeptDigit(v: int, d: nat)
    requires 0 <= v < BETA && d <= DIGIT_BIT
    ensures 0 <= v % Pow(2, d) <= v && 0 % Pow(2, d) == 0
    ensures d == 0 ==> v % Pow(2, d) == 0
  {
    DivModEq(v, Pow(2, d));
    if v / Pow(2, d) < 0 {
      MulLe(v / Pow(2, d), -1, Pow(2, d));
    }
    MulLe(0, v / Pow(2, d), Pow(2, d));
    ModSmall(0, Pow(2, d));
  }

  /** mp_div_2d: c is the quotient by 2^b rounded toward zero, d (if wanted) the remainder. */
  method Div2d(a: MpInt, b: int, c: MpInt, d: MpInt?)
    requires a.Valid() && c.Valid() && (d != null ==> d.Valid() && d != c)
    modifies c, d
    ensures c.Valid() && c.Mag() == if b <= 0 then old(a.Mag()) else old(a.Mag()) / Pow(2, b)
    ensures c.used > 0 ==> c.neg == old(a.neg)
    ensures d != null ==> d.Valid() && d.Mag() == if b <= 0 then 0 else old(a.Mag()) % Pow(2, b)
    ensures d != null && d.used > 0 ==> d.neg == old(a.neg)
  {
    if b <= 0 {
      Copy(a, c);
      if d != null {
        d.Zero();
      }
      return;
    }
    var t := new MpInt();
    if d != null {
      Mod2d(a, b, t);
    }
    Copy(a, c);
    ShiftRight(c, b);
    if d != null {
      Exch(t, d);
    }
  }

  method ShiftRight(c: MpInt, b: nat)
    requires c.Valid() && b > 0
    modifies c
    ensures c.Valid() && c.Mag() == old(c.Mag()) / Pow(2, b)
    ensures c.used > 0 ==> c.neg == old(c.neg)
  {
    SplitBits(b);
    var k, d := b / DIGIT_BIT, b % DIGIT_BIT;
    DivDiv(c.Mag(), B(k), Pow(2, d));
    if b >= DIGIT_BIT {
      Rshd(c, k);
    } else {
      assert B(0) == 1;
    }
    if d != 0 {
      ShiftRightBits(c, d);
    }
    c.Clamp();
  }

  /** mp_count_bits: the position above the highest set bit. */
  method CountBits(a: MpInt) returns (r: nat)
    requires a.Valid()
    ensures r == 0 <==> a.Mag() == 0
    ensures r > 0 ==> Pow(2, r - 1) <= a.Mag() < Pow(2, r)
  {
    if a.used == 0 {
      return 0;
    }
    var k := a.used - 1;
    r := k * DIGIT_BIT;
    var q := a.dp[k];
    ghost var j: nat := 0;
    while q > 0
      invariant r == k * DIGIT_BIT + j
      invariant q * Pow(2, j) <= a.dp[k] < (q + 1) * Pow(2, j)
      invariant j == 0 ==> q == a.dp[k]
      invariant j > 0 ==> Pow(2, j - 1) <= a.dp[k]
      decreases q
    {
      HalveTop(a.dp[k], q, Pow(2, j));
      j := j + 1;
      r := r + 1;
      q := q / 2;
    }
    BitSize(a, k, j);
  }

  lemma BitSize(a: MpInt, k: nat, j: nat)
    requires a.Valid() && a.used == k + 1 && j > 0
    requires Pow(2, j - 1) <= a.dp[k] < Pow(2, j)
    ensures Pow(2, k * DIGIT_BIT + j - 1) <= a.Mag() < Pow(2, k * DIGIT_BIT + j)
  {
    BitsOfDigits(k);
    PowAdd(2, k * DIGIT_BIT, j);
    PowAdd(2, k * DIGIT_BIT, j - 1);
    EvBound(a.dp, k);
    TopBits(Ev(a.dp, k), a.dp[k], B(k), Pow(2, j - 1), Pow(2, j));
  }

  lemma TopBits(e: int, v: int, b: int, lo: int, hi: int)
    requires 0 <= e < b && lo <= v < hi
    ensures b * lo <= e + v * b < b * hi
  {
    MulLe(lo, v, b);
    MulLe(v + 1, hi, b);
  }

  lemma HalveTop(v: int, q: int, p: int)
    requires q > 0 && p > 0 && q * p <= v < (q + 1) * p
    ensures p <= v
    ensures (q / 2) * (2 * p) <= v < (q / 2 + 1) * (2 * p)
  {
    var h := q / 2;
    MulLe(1, q, p);
    MulLe(2 * h, q, p);
    MulLe(q + 1, 2 * h + 2, p);
    assert (2 * h) * p == h * (2 * p) && (2 * h + 2) * p == (h + 1) * (2 * p);
  }
}
