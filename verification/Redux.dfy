/** The reduction a modular exponentiation is set up with, Barrett or Montgomery, behind one contract. */
module Redux {
  import opened Arith
  import opened Digits
  import opened MpInts
  import opened Mul
  import opened Div
  import opened Barrett
  import opened Montgomery
  import Shift

  datatype Reducer = ByBarrett(mu: MpInt, fast: bool) | ByMontgomery(rho: Digit)
  {
    ghost function Footprint(): set<object>
    {
      if ByBarrett? then {mu} else {}
    }

    /** Whether the surrounding products are those of the LTM_FAST build; only that build has Montgomery. */
    predicate Fast()
    {
      ByMontgomery? || fast
    }

    /** The precomputed value fits the modulus. */
    ghost predicate Ready(p: MpInt)
      reads p, Footprint()
    {
      && p.Valid() && !p.neg && p.used > 0 && p !in Footprint()
      && match this
         case ByBarrett(mu, _) => mu.Valid() && !mu.neg && Precomputed(mu.Val(), p.Val(), p.used)
         case ByMontgomery(rho) =>
           p.Mag() % 2 == 1 && NegInverse(rho, p.Mag()) && 2 * p.used + 1 < MP_WARRAY && p.used < 256
    }

    /** What one reduction divides by, modulo the modulus. */
    ghost function Radix(k: nat): int
    {
      if ByBarrett? then 1 else B(k)
    }
  }

  lemma ReadyModulus(p: MpInt, rd: Reducer)
    requires rd.Ready(p)
    ensures p.Valid() && p.used > 0 && 0 < p.Val() == p.Mag() < B(p.used)
  {
    MagRange(p);
  }

  /** A square of the modulus is small enough for either reduction. */
  lemma SquareFits(p: int, k: nat)
    requires 0 < p < B(k)
    ensures p * p < B(2 * k) && p * p < p * B(k)
  {
    ProductBound(p, p, k, k);
    MulLt(p, B(k), p);
  }

  lemma ReducedByOne(v: int, x: int, p: int)
    requires 0 < p && v == x % p
    ensures 0 <= v < p && (v * 1) % p == x % p
  {
    ModMod(x, p);
  }

  /** One call of the selected reduction. */
  method Apply(rd: Reducer, x: MpInt, p: MpInt)
    requires rd.Ready(p) && x.Valid() && !x.neg && x != p && x !in rd.Footprint() && x.Val() <= p.Val() * p.Val()
    modifies x
    ensures x.Valid() && 0 <= x.Val() < p.Val()
    ensures (x.Val() * rd.Radix(p.used)) % p.Val() == old(x.Val()) % p.Val()
  {
    hide Ev, B, MpInt.Wf, Precomputed, NegInverse;
    ReadyModulus(p, rd);
    SquareFits(p.Val(), p.used);
    ghost var v := x.Val();
    match rd {
      case ByBarrett(mu, fast) =>
        ghost var k := Reduce(x, p, mu, fast);
        ReducedByOne(x.Val(), v, p.Val());
      case ByMontgomery(rho) =>
        MontgomeryReduce(x, p, rho);
        ReducedParts(x.Val(), v, p.Val(), p.used);
    }
  }

  lemma ReducedParts(r: int, x: int, n: int, k: nat)
    requires Reduced(r, x, n, k)
    ensures 0 <= r < n && (r * B(k)) % n == x % n
  {
  }

  // ---------------------------------------------------------------- cancelling the radix

  lemma HalfOfOdd(p: int)
    requires p > 0 && p % 2 == 1
    ensures (((p + 1) / 2) * 2) % p == 1 % p
  {
    ModAddMultiple(1, 1, p);
  }

  /** Powers of two are invertible modulo an odd number. */
  lemma {:induction false} TwoInvertible(n: nat, p: int) returns (i: int)
    requires p > 0 && p % 2 == 1
    ensures (i * Pow(2, n)) % p == 1 % p
  {
    if n == 0 {
      i := 1;
    } else {
      var j := TwoInvertible(n - 1, p);
      var h := (p + 1) / 2;
      HalfOfOdd(p);
      i := j * h;
      CongMul(j * Pow(2, n - 1), 1, h * 2, 1, p);
      PowStep(2, n);
      Regroup(j, h, Pow(2, n - 1));
    }
  }

  lemma Regroup(j: int, h: int, q: int)
    ensures (j * h) * (2 * q) == (j * q) * (h * 2)
  {
    MulAssoc(j, h, 2 * q);
    MulAssoc(h, 2, q);
    MulAssoc(j, q, h * 2);
    assert h * (2 * q) == q * (h * 2);
  }

  lemma CancelFactor(x: int, y: int, r: int, i: int, p: int)
    requires p > 0 && (i * r) % p == 1 % p && (x * r) % p == (y * r) % p
    ensures x % p == y % p
  {
    CongScale(x * r, y * r, i, p);
    CongScale(i * r, 1, x, p);
    CongScale(i * r, 1, y, p);
    assert (x * r) * i == (i * r) * x && (y * r) * i == (i * r) * y by {
      MulAssoc(x, r, i);
      MulAssoc(y, r, i);
    }
  }

  /** The radix can be cancelled modulo the modulus it was set up for. */
  lemma CancelRadix(x: int, y: int, rd: Reducer, p: MpInt)
    requires rd.Ready(p) && (x * rd.Radix(p.used)) % p.Val() == (y * rd.Radix(p.used)) % p.Val()
    ensures x % p.Val() == y % p.Val()
  {
    if rd.ByMontgomery? {
      Shift.BitsOfDigits(p.used);
      var i := TwoInvertible(DIGIT_BIT * p.used, p.Val());
      CancelFactor(x, y, B(p.used), i, p.Val());
    }
  }
}
