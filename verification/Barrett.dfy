/** Barrett reduction: x mod m from a precomputed quotient of a power of the base by m, with the
    multiplication that leaves out the low columns. */
module Barrett {
  import opened Arith
  import opened Digits
  import opened MpInts
  import opened AddSub
  import opened Shift
  import opened Mul
  import opened Comba
  import opened Div
  import HacDiv

  /** What the precomputed value is for a modulus of k digits. */
  ghost predicate Precomputed(mu: int, m: int, k: nat)
  {
    m > 0 && mu == B(2 * k) / m
  }

  /** mp_reduce_setup, over the division of either build. */
  method ReduceSetup(a: MpInt, b: MpInt, fast: bool) returns (st: Status)
    requires a.Valid() && b.Valid() && a != b && !b.neg
    modifies a
    ensures a.Valid() && (st == Invalid <==> b.Val() == 0)
    ensures st == Okay ==> !a.neg && Precomputed(a.Val(), b.Val(), b.used)
  {
    hide MpInt.Wf, B;
    TwoExpt(a, b.used * 2 * DIGIT_BIT);
    BitsOfDigits(2 * b.used);
    assert DIGIT_BIT * (2 * b.used) == b.used * 2 * DIGIT_BIT;
    if fast {
      st := HacDiv.DivDigits(a, b, a, null);
    } else {
      st := DivBits(a, b, a, null);
    }
    if st == Okay {
      QuotientNonneg(B(2 * b.used), b.Val());
    }
  }

  lemma QuotientNonneg(x: int, y: int)
    requires 0 <= x && 0 < y
    ensures 0 <= Quotient(x, y) == x / y
  {
    if x / y < 0 {
      MulLe(x / y, -1, y);
    }
  }

  /** An estimate that takes the truncated product h is never too large. */
  lemma EstimateUpper(x: int, m: int, mu: int, q1: int, h: int, e: int, bm: int, bp: int)
    requires 0 < m && 0 < bm && 0 < bp && 0 <= q1 && 0 <= mu
    requires e * bp <= h <= q1 * mu && q1 * bm <= x && mu * m <= bp * bm
    ensures e * m <= x
  {
    var p := bp * bm;
    MulLt(0, bp, bm);
    if x < e * m {
      MulLt(0, m, bm);
      MulLe(e * bp, q1 * mu, m * bm);
      EstimateShuffle(e, bp, m, bm);
      EstimateShuffle(q1, mu, bm, m);
      assert m * bm == bm * m;
      MulLe(0, mu, m);
      MulLe(0, q1, bm);
      MulLe(q1 * bm, x, mu * m);
      MulLe(mu * m, p, x);
      MulLt(x, e * m, p);
    }
  }

  lemma EstimateShuffle(a: int, b: int, c: int, d: int)
    ensures (a * b) * (c * d) == (a * c) * (b * d)
  {
    MulAssoc(a, b, c * d);
    MulAssoc(b, c, d);
    MulAssoc(a, c, b * d);
    MulAssoc(c, b, d);
  }

  /** And it misses at most three quotients plus what the dropped columns were worth. */
  lemma EstimateLower(x: int, m: int, mu: int, q1: int, h: int, e: int, lost: int, bm: int, bp: int)
    requires 0 < m && 0 < bm && 0 < bp && 0 <= q1 < bp && 0 <= mu <= bp
    requires q1 * mu - lost * bp <= h < (e + 1) * bp
    requires 0 <= x < (q1 + 1) * bm && bp * bm < (mu + 1) * m
    ensures x < (e + lost + 3) * m
  {
    var p, f := bp * bm, e + lost + 3;
    MulLt(0, bp, bm);
    if f * m <= x {
      var over, both := (q1 + 1) * bm, (q1 + 1) * (mu + 1);
      MulLt(x, over, p);
      MulLt(0, q1 + 1, bm);
      MulLt(p, (mu + 1) * m, over);
      MulLt(0, bm, m);
      EstimateSum(q1, mu, e, lost, bp);
      MulLe(both, f * bp, bm * m);
      MulLe(f * m, x, p);
      LowerShuffle(q1 + 1, bm, mu + 1, m, f, bp);
    }
  }

  lemma LowerShuffle(q: int, bm: int, u: int, m: int, f: int, bp: int)
    ensures (u * m) * (q * bm) == (q * u) * (bm * m)
    ensures (f * bp) * (bm * m) == (f * m) * (bp * bm)
    ensures (bp * bm) * (q * bm) == (q * bm) * (bp * bm)
  {
    EstimateShuffle(q, bm, u, m);
    EstimateShuffle(f, bp, m, bm);
  }

  lemma EstimateSum(q1: int, mu: int, e: int, lost: int, bp: int)
    requires 0 <= q1 < bp && 0 <= mu <= bp && q1 * mu - lost * bp < (e + 1) * bp
    ensures (q1 + 1) * (mu + 1) <= (e + lost + 3) * bp
  {
    assert (q1 + 1) * (mu + 1) == q1 * mu + q1 + mu + 1;
    assert (e + lost + 3) * bp == (e + 1) * bp + lost * bp + 2 * bp;
  }

  lemma QuotientOfPower(p: int, m: int, mu: int, a: int, b: int, c: int)
    requires 0 < a <= m < b && 0 < c && p == c * a == b * b && mu == p / m
    ensures b <= mu <= c && mu * m <= p < (mu + 1) * m
  {
    DivModEq(p, m);
    OneMore(mu, m);
    if mu < b {
      MulLe(mu + 1, b, m);
      MulLe(m, b, b);
      Swapped(b, m);
    }
    if mu > c {
      MulLe(c + 1, mu, m);
      MulLe(a, m, c + 1);
      OneMore(c, a);
      Swapped(c + 1, m);
      Swapped(c + 1, a);
    }
  }

  lemma OneMore(x: int, y: int)
    ensures (x + 1) * y == x * y + y
  {
  }

  lemma Swapped(x: int, y: int)
    ensures x * y == y * x
  {
  }

  /** The bounds a modulus of k digits puts on its precomputed value. */
  lemma PrecomputedBounds(mu: int, m: int, k: nat)
    requires Precomputed(mu, m, k) && k > 0 && B(k - 1) <= m < B(k)
    ensures B(k) <= mu <= B(k + 1)
    ensures mu * m <= B(k + 1) * B(k - 1) < (mu + 1) * m
  {
    hide B;
    BAdd(k + 1, k - 1);
    BAdd(k, k);
    QuotientOfPower(B(2 * k), m, mu, B(k - 1), B(k), B(k + 1));
  }

  /** How good the estimate e of x / m is: not too large, and less than n quotients short. */
  ghost predicate Estimate(x: int, m: int, e: int, n: int)
  {
    0 <= e && e * m <= x < (e + n) * m
  }

  /** Division by two powers of the base around a product that may have lost some low columns. */
  lemma EstimateFrom(x: int, m: int, mu: int, k: nat, h: int, lost: int)
    requires k > 0 && B(k - 1) <= m < B(k) && Precomputed(mu, m, k) && 0 <= x < B(2 * k)
    requires 0 <= h && DropLow(x, k - 1) * mu - lost * B(k + 1) <= h <= DropLow(x, k - 1) * mu
    ensures Estimate(x, m, DropLow(h, k + 1), lost + 3)
  {
    hide B, Precomputed;
    PrecomputedBounds(mu, m, k);
    BAdd(k + 1, k - 1);
    var q1 := EstimateHead(x, B(k - 1), B(k + 1));
    var e := EstimateTail(h, B(k + 1));
    EstimateUpper(x, m, mu, q1, h, e, B(k - 1), B(k + 1));
    EstimateLower(x, m, mu, q1, h, e, lost, B(k - 1), B(k + 1));
  }

  lemma EstimateHead(x: int, bm: int, bp: int) returns (q1: int)
    requires 0 < bm && 0 < bp && 0 <= x < bp * bm
    ensures q1 == x / bm && 0 <= q1 < bp && q1 * bm <= x < (q1 + 1) * bm
  {
    q1 := x / bm;
    DivModEq(x, bm);
    MulCancelLt(q1, bp, bm);
  }

  lemma EstimateTail(h: int, bp: int) returns (e: int)
    requires 0 < bp && 0 <= h
    ensures e == h / bp && 0 <= e && e * bp <= h < (e + 1) * bp
  {
    e := h / bp;
    DivModEq(h, bp);
  }

  /** How many quotients the estimate may be short for a modulus of k digits: three, and one more for
      each column left out when the truncated product is used. */
  ghost function Shortfall(k: nat): (n: nat)
    ensures 3 <= n <= BETA
  {
    if k > 0x800_0000 then 3 else k + 3
  }

  /** The first half of mp_reduce: the estimated quotient. */
  method EstimateQuotient(x: MpInt, m: MpInt, mu: MpInt, fast: bool) returns (q: MpInt)
    requires x.Valid() && m.Valid() && mu.Valid() && !x.neg && !m.neg && !mu.neg
    requires Precomputed(mu.Val(), m.Val(), m.used) && x.Val() < B(2 * m.used)
    ensures fresh(q) && q.Valid() && !q.neg
    ensures Estimate(x.Val(), m.Val(), q.Val(), Shortfall(m.used))
    ensures m.used + 1 < MP_WARRAY ==> m.used + 1 < |q.dp|
  {
    hide Ev, B, DropLow, MpInt.Wf, Precomputed, Estimate, HighPart;
    var um := m.used;
    ReduceSizes(x, m, mu);
    q := new MpInt();
    Copy(x, q);
    Rshd(q, um - 1);
    ghost var q1 := q.Val();
    if um > 0x800_0000 {
      MulLe(0, q1, mu.Val());
      Multiply(q, mu, q, fast);
      EstimateFrom(x.Val(), m.Val(), mu.Val(), um, q.Mag(), 0);
    } else {
      UsedAtMost(q, um + 1);
      UsedAtLeast(mu, um);
      DroppedColumns(q, mu, um);
      MulHighDigs(q, mu, q, um);
      EstimateFrom(x.Val(), m.Val(), mu.Val(), um, q.Mag(), um);
    }
    Rshd(q, um + 1);
  }

  lemma ReduceSizes(x: MpInt, m: MpInt, mu: MpInt)
    requires x.Valid() && m.Valid() && mu.Valid() && !x.neg && !m.neg && !mu.neg
    requires Precomputed(mu.Val(), m.Val(), m.used) && x.Val() < B(2 * m.used)
    ensures m.used > 0 && B(m.used - 1) <= m.Mag() < B(m.used)
    ensures 0 <= DropLow(x.Mag(), m.used - 1) < B(m.used + 1) && B(m.used) <= mu.Mag()
  {
    hide B, Ev;
    MagRange(m);
    BAdd(m.used + 1, m.used - 1);
    var q1 := EstimateHead(x.Mag(), B(m.used - 1), B(m.used + 1));
    PrecomputedBounds(mu.Val(), m.Val(), m.used);
  }

  lemma DroppedColumns(a: MpInt, b: MpInt, digs: nat)
    requires a.Valid() && b.Valid() && a.used <= digs + 1
    ensures var h := HighPart(a.dp, b.dp, a.used, b.used, digs);
            a.Mag() * b.Mag() - digs * B(digs + 1) <= h <= a.Mag() * b.Mag()
  {
    hide B, HighPart;
    HighPartError(a.dp, b.dp, a.used, b.used, digs);
    MulLe(Min(a.used, digs), digs, B(digs + 1));
  }

  /** An estimate short by n <= BETA quotients leaves a difference below B(k + 1). */
  lemma EstimateGap(x: int, m: int, e: int, n: int, k: nat)
    requires Estimate(x, m, e, n) && 0 < m < B(k) && n <= BETA
    ensures 0 <= x - e * m < B(k + 1) && x - e * m < Times(n, m)
  {
    assert (e + n) * m == e * m + n * m;
    MulLe(n, BETA, m);
  }

  /** Subtracting residues modulo p recovers a difference that lies in [0, p). */
  lemma ModularDifference(x: int, y: int, p: int)
    requires 0 <= x - y < p
    ensures x - y == if x % p - y % p < 0 then x % p - y % p + p else x % p - y % p
  {
    DivModEq(x, p);
    DivModEq(y, p);
    var k := x / p - y / p;
    assert k * p == (x / p) * p - (y / p) * p;
    if k >= 2 {
      MulLe(2, k, p);
    } else if k < 0 {
      MulLe(k, -1, p);
    }
  }

  /** The middle of mp_reduce: x - q * m from the low k + 1 digits only. */
  method SubtractEstimate(x: MpInt, m: MpInt, q: MpInt, fast: bool)
    requires x.Valid() && m.Valid() && q.Valid() && x != m && x != q && m != q && !x.neg && !q.neg && !m.neg
    requires 0 <= x.Val() - q.Val() * m.Val() < B(m.used + 1)
    requires m.used + 1 < MP_WARRAY ==> m.used + 1 < |q.dp|
    modifies x, q
    ensures x.Valid() && x.Val() == old(x.Val() - q.Val() * m.Val())
  {
    hide Ev, B, MpInt.Wf;
    var um := m.used;
    ghost var x0, y0, p := x.Val(), q.Val() * m.Val(), B(um + 1);
    ModularDifference(x0, y0, p);
    BitsOfDigits(um + 1);
    Mod2d(x, DIGIT_BIT * (um + 1), x);
    LowDigits(q, m, q, um + 1, fast);
    Sub(x, q, x);
    var cmp := CmpD(x, 0);
    if cmp == Lt {
      q.Set(1);
      Lshd(q, um + 1);
      Add(x, q, x);
    }
  }

  /** The back-off loop: m is subtracted as often as it fits, k times in all. */
  method BackOff(x: MpInt, m: MpInt, ghost n: nat) returns (ghost k: nat)
    requires x.Valid() && m.Valid() && x != m && !x.neg && 0 < m.Val()
    requires x.Val() < Times(n, m.Val())
    modifies x
    ensures x.Valid() && x.Val() == old(x.Val()) - Times(k, m.Val()) && 0 <= x.Val() < m.Val()
    ensures k < n
  {
    hide MpInt.Wf, Times;
    k := 0;
    TimesStep(0, m.Val());
    var cmp := Cmp(x, m);
    while cmp != Lt
      invariant x.Valid() && !x.neg && x.Val() == old(x.Val()) - Times(k, m.Val())
      invariant cmp == Compare(x.Val(), m.Val())
      decreases x.Val()
    {
      MagOrder(x, m);
      LowSub(x, m, x);
      TimesStep(k, m.Val());
      k := k + 1;
      cmp := Cmp(x, m);
    }
    TimesBelow(k, n, m.Val());
  }

  /** mp_reduce: x = x mod m, for every x of at most twice as many digits as m. The back-off loop runs
      fewer than Shortfall(m.used) times. The LTM_FAST build multiplies column-wise where it can. */
  method Reduce(x: MpInt, m: MpInt, mu: MpInt, fast: bool) returns (ghost k: nat)
    requires x.Valid() && m.Valid() && mu.Valid() && x != m && x != mu && !x.neg && !m.neg && !mu.neg
    requires Precomputed(mu.Val(), m.Val(), m.used) && x.Val() < B(2 * m.used)
    modifies x
    ensures x.Valid() && x.Val() == old(x.Val()) % m.Val()
    ensures k < Shortfall(m.used)
  {
    hide Ev, B, MpInt.Wf, Precomputed, Estimate, Shortfall, Times;
    ghost var x0, n := x.Val(), Shortfall(m.used);
    var q := EstimateQuotient(x, m, mu, fast);
    ghost var e := q.Val();
    ReduceSizes(x, m, mu);
    EstimateGap(x0, m.Val(), e, n, m.used);
    SubtractEstimate(x, m, q, fast);
    k := BackOff(x, m, n);
    ReducedBy(x0, m.Val(), e, k, x.Val());
  }

  lemma ReducedBy(x: int, m: int, e: int, k: int, r: int)
    requires r == x - e * m - Times(k, m) && 0 <= r < m
    ensures r == x % m
  {
    assert (e + k) * m == e * m + k * m;
    DivModUnique(x, m, e + k, r);
  }
}
