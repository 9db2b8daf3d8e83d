/** The multi-precision integer object and the operations that only touch its representation:
    growing, clamping, copying, swapping, setting and comparing. */
module MpInts {
  import opened Arith
  import opened Digits

  const MP_PREC: nat := 8

  /** Signed magnitude with its digit buffer. `dp` is the whole allocated buffer (its length is the
      allocation size), `used` the number of digits in use. */
  class MpInt {
    var dp: seq<Digit>
    var used: nat
    var neg: bool

    /** What every routine may rely on, even before the leading zeros are clamped away. */
    ghost predicate Wf()
      reads this`dp, this`used
    {
      && MP_PREC <= |dp|
      && used <= |dp|
      && Digital(dp, |dp|)
      && (forall k :: used <= k < |dp| ==> dp[k] == 0)
    }

    /** The canonical form: no leading zero digit, and zero is positive. */
    ghost predicate Valid()
      reads this
      ensures Valid() ==> Wf() && Clamped()
    {
      && Wf()
      && Clamped()
      && (used == 0 ==> !neg)
    }

    ghost predicate Clamped()
      reads this`dp, this`used
    {
      0 < used <= |dp| ==> dp[used - 1] > 0
    }

    ghost function Mag(): (r: int)
      reads this`dp, this`used
      requires Wf()
      ensures 0 <= r
      ensures used == 0 ==> r == 0
      ensures Clamped() && used > 0 ==> r > 0
    {
      EvBound(dp, used);
      if Clamped() && used > 0 then EvTop(dp, used); Ev(dp, used) else Ev(dp, used)
    }

    ghost function Val(): int
      reads this
      requires Wf()
    {
      if neg then -Mag() else Mag()
    }

    constructor ()
      ensures Valid() && Val() == 0 && |dp| == MP_PREC
    {
      dp := seq(MP_PREC, i => 0);
      used := 0;
      neg := false;
    }

    /** mp_init_size: room for `size` digits and more. */
    constructor Sized(size: nat)
      ensures Valid() && Val() == 0 && size < |dp| && MP_PREC <= |dp|
      ensures forall k :: 0 <= k < |dp| ==> dp[k] == 0
    {
      dp := seq(size + (MP_PREC * 2 - size % MP_PREC), i => 0);
      used := 0;
      neg := false;
    }

    method Grow(size: nat)
      requires Wf()
      modifies this`dp
      ensures Wf() && size <= |dp| && old(dp) <= dp && (old(|dp|) < size ==> size < |dp|)
      ensures forall k :: |old(dp)| <= k < |dp| ==> dp[k] == 0
      ensures Mag() == old(Mag())
    {
      if |dp| < size {
        var n := size + (MP_PREC * 2 - size % MP_PREC);
        ghost var dp0 := dp;
        dp := dp + seq(n - |dp|, i => 0);
        EvSame(dp0, dp, used);
      }
    }

    method Clamp()
      requires Wf()
      modifies this`used, this`neg
      ensures Valid() && used <= old(used)
      ensures Mag() == old(Mag())
      ensures used > 0 ==> neg == old(neg)
    {
      while used > 0 && dp[used - 1] == 0
        invariant used <= old(used) && Wf() && neg == old(neg)
        invariant Ev(dp, used) == old(Ev(dp, used))
      {
        used := used - 1;
      }
      if used == 0 {
        neg := false;
      }
    }

    method Zero()
      requires Wf()
      modifies this
      ensures Valid() && Val() == 0 && |dp| == old(|dp|)
    {
      neg := false;
      used := 0;
      var n := 0;
      while n < |dp|
        invariant n <= |dp| == old(|dp|) && used == 0 && !neg
        invariant forall k :: 0 <= k < n ==> dp[k] == 0
      {
        dp := dp[n := 0];
        n := n + 1;
      }
    }

    method Set(b: Digit)
      requires Wf()
      modifies this
      ensures Valid() && Val() == b % BETA && |dp| == old(|dp|)
    {
      Zero();
      dp := dp[0 := b % BETA];
      used := if dp[0] != 0 then 1 else 0;
      assert Ev(dp, 1) == Ev(dp, 0) + dp[0] * B(0);
    }
  }

  /** Zero the digits lo..hi: what an older, longer value may have left behind. */
  method ClearDigits(c: MpInt, lo: nat, hi: nat)
    requires hi <= |c.dp|
    modifies c`dp
    ensures |c.dp| == old(|c.dp|)
    ensures forall k :: 0 <= k < |c.dp| ==> c.dp[k] == if lo <= k < hi then 0 else old(c.dp[k])
  {
    var i := lo;
    while i < hi
      invariant lo <= i && |c.dp| == old(|c.dp|)
      invariant forall k :: 0 <= k < |c.dp| ==>
                  c.dp[k] == if lo <= k < i && k < hi then 0 else old(c.dp[k])
    {
      c.dp := c.dp[i := 0];
      i := i + 1;
    }
  }

  /** mp_copy: c = a. */
  method Copy(a: MpInt, c: MpInt)
    requires a.Valid() && c.Wf()
    modifies c
    ensures c.Valid() && c.Val() == old(a.Val()) && c.used == old(a.used)
  {
    hide Ev;
    if a == c {
      return;
    }
    c.Grow(a.used);
    ghost var s := c.dp;
    var n := 0;
    while n < a.used
      invariant n <= a.used && |c.dp| == |s| && unchanged(c`used)
      invariant forall k :: 0 <= k < |s| ==> c.dp[k] == if k < n then a.dp[k] else s[k]
    {
      c.dp := c.dp[n := a.dp[n]];
      n := n + 1;
    }
    ClearDigits(c, n, c.used);
    c.used := a.used;
    c.neg := a.neg;
    EvSame(a.dp, c.dp, a.used);
  }

  /** mp_exch: the two objects trade all their contents. */
  method Exch(a: MpInt, b: MpInt)
    modifies a, b
    ensures a.dp == old(b.dp) && a.used == old(b.used) && a.neg == old(b.neg)
    ensures b.dp == old(a.dp) && b.used == old(a.used) && b.neg == old(a.neg)
    ensures old(b.Valid()) ==> a.Valid() && a.Val() == old(b.Val())
    ensures old(a.Valid()) ==> b.Valid() && b.Val() == old(a.Val())
  {
    var dp, used, neg := a.dp, a.used, a.neg;
    a.dp, a.used, a.neg := b.dp, b.used, b.neg;
    b.dp, b.used, b.neg := dp, used, neg;
  }

  /** Three-way comparison results: MP_LT, MP_EQ, MP_GT. */
  datatype Order = Lt | Eq | Gt

  ghost function Compare(x: int, y: int): Order
  {
    if x < y then Lt else if x == y then Eq else Gt
  }

  /** mp_cmp_mag: digit counts first, then digits from the top. On clamped numbers this compares the
      magnitudes. */
  method CmpMag(a: MpInt, b: MpInt) returns (r: Order)
    requires a.Wf() && b.Wf()
    ensures a.Valid() && b.Valid() ==> r == Compare(a.Mag(), b.Mag())
    ensures a.used == b.used ==> r == Compare(a.Mag(), b.Mag())
    ensures a.used > b.used ==> r == Gt
    ensures a.used < b.used ==> r == Lt
  {
    if a.used > b.used {
      if a.Valid() && b.Valid() {
        LongerIsLarger(b, a);
      }
      return Gt;
    }
    if a.used < b.used {
      if a.Valid() && b.Valid() {
        LongerIsLarger(a, b);
      }
      return Lt;
    }
    var n := 0;
    while n < a.used
      invariant n <= a.used
      invariant forall k :: a.used - n <= k < a.used ==> a.dp[k] == b.dp[k]
    {
      var i := a.used - 1 - n;
      if a.dp[i] > b.dp[i] {
        EvLess(b.dp, a.dp, i, a.used);
        return Gt;
      }
      if a.dp[i] < b.dp[i] {
        EvLess(a.dp, b.dp, i, a.used);
        return Lt;
      }
      n := n + 1;
    }
    EvSame(a.dp, b.dp, a.used);
    return Eq;
  }

  lemma LongerIsLarger(a: MpInt, b: MpInt)
    requires a.Valid() && b.Valid() && a.used < b.used
    ensures a.Mag() < b.Mag()
  {
    EvBound(a.dp, a.used);
    BMono(a.used, b.used - 1);
    EvTop(b.dp, b.used);
  }

  /** mp_cmp: signed comparison. */
  method Cmp(a: MpInt, b: MpInt) returns (r: Order)
    requires a.Valid() && b.Valid()
    ensures r == Compare(a.Val(), b.Val())
  {
    if a.neg != b.neg {
      return if a.neg then Lt else Gt;
    }
    if a.neg {
      r := CmpMag(b, a);
    } else {
      r := CmpMag(a, b);
    }
  }

  /** mp_cmp_d: comparison with one digit. */
  method CmpD(a: MpInt, b: Digit) returns (r: Order)
    requires a.Valid() && b < BETA
    ensures r == Compare(a.Val(), b)
  {
    if a.neg {
      return Lt;
    }
    if a.used > 1 {
      EvTop(a.dp, a.used);
      BMono(1, a.used - 1);
      assert B(1) == BETA * B(0);
      return Gt;
    }
    assert a.used == 1 ==> a.Mag() == Ev(a.dp, 0) + a.dp[0] * B(0);
    return if a.dp[0] > b then Gt else if a.dp[0] < b then Lt else Eq;
  }

  /** The size of a number fixes its digit count, and conversely. */
  lemma MagRange(a: MpInt)
    requires a.Valid() && a.used > 0
    ensures B(a.used - 1) <= a.Mag() < B(a.used)
  {
    EvTop(a.dp, a.used);
  }

  lemma UsedAtMost(a: MpInt, n: nat)
    requires a.Valid() && a.Mag() < B(n)
    ensures a.used <= n
  {
    if a.used > n {
      MagRange(a);
      BMono(n, a.used - 1);
    }
  }

  lemma UsedAtLeast(a: MpInt, n: nat)
    requires a.Valid() && B(n) <= a.Mag()
    ensures n < a.used
  {
    if a.used <= n {
      EvBound(a.dp, a.used);
      BMono(a.used, n);
    }
  }
}
