/** Products: the schoolbook product cut off at a digit, its complement without the low columns,
    and squaring. */
module Mul {
  import opened Arith
  import opened Digits
  import opened MpInts

  lemma ProductFits(x: int, y: int)
    requires 0 <= x < BETA && 0 <= y < BETA
    ensures 0 <= x * y <= (BETA - 1) * (BETA - 1)
  {
    MulLe(0, x, y);
    MulLe(x, BETA - 1, y);
    MulLe(y, BETA - 1, BETA - 1);
  }

  /** The largest product of two digits. */
  const TERM: int := 0xff_ffff_e000_0001

  lemma TermFits(x: int, y: int)
    requires 0 <= x < BETA && 0 <= y < BETA
    ensures 0 <= x * y <= TERM
  {
    ProductFits(x, y);
  }

  /** What x times the first n digits of b contributes when it is written ix places up. */
  ghost function RowValue(x: int, ix: nat, b: seq<int>, n: nat): int
    requires n <= |b|
  {
    (x * B(ix)) * Ev(b, n)
  }

  /** One row of the product: x times the digits lo..pb of b is added into t, ix places up. */
  method MulRow(t: MpInt, x: Digit, b: MpInt, ix: nat, lo: nat, pb: nat) returns (u: Digit)
    requires t != b && lo <= pb <= |b.dp| && ix + pb <= |t.dp|
    requires x < BETA && Digital(b.dp, |b.dp|) && Digital(t.dp, |t.dp|)
    modifies t`dp
    ensures |t.dp| == old(|t.dp|) && Digital(t.dp, |t.dp|) && u < BETA
    ensures forall k :: 0 <= k < |t.dp| && !(ix + lo <= k < ix + pb) ==> t.dp[k] == old(t.dp[k])
    ensures Ev(t.dp, ix + pb) + u * B(ix + pb)
         == old(Ev(t.dp, ix + pb)) + RowValue(x, ix, b.dp, pb) - RowValue(x, ix, b.dp, lo)
    ensures lo == pb ==> u == 0
  {
    hide Ev, B, RowValue;
    u := 0;
    var iy := lo;
    ghost var t0 := t.dp;
    while iy < pb
      invariant lo <= iy <= pb && |t.dp| == |t0| && Digital(t.dp, |t0|) && u < BETA
      invariant forall k :: 0 <= k < |t0| && !(ix + lo <= k < ix + iy) ==> t.dp[k] == t0[k]
      invariant Ev(t.dp, ix + iy) + u * B(ix + iy)
             == Ev(t0, ix + iy) + RowValue(x, ix, b.dp, iy) - RowValue(x, ix, b.dp, lo)
      invariant lo == iy ==> u == 0
    {
      ghost var s0, u0 := t.dp, u;
      ProductFits(x, b.dp[iy]);
      var r: Word := t.dp[ix + iy] + x * b.dp[iy] + u;
      t.dp := t.dp[ix + iy := r % BETA];
      u := r / BETA;
      RowColumn(t0, s0, t.dp, b.dp, ix, iy, x, u0, u);
      iy := iy + 1;
    }
  }

  lemma RowColumn(t0: seq<int>, s0: seq<int>, s1: seq<int>, b: seq<int>, ix: nat, iy: nat, x: int, u0: int, u: int)
    requires ix + iy < |t0| == |s0| == |s1| && iy < |b|
    requires forall k :: 0 <= k < ix + iy ==> s1[k] == s0[k]
    requires t0[ix + iy] + x * b[iy] + u0 == s1[ix + iy] + u * BETA
    ensures Ev(s1, ix + iy + 1) + u * B(ix + iy + 1) - Ev(t0, ix + iy + 1) - RowValue(x, ix, b, iy + 1)
         == Ev(s0, ix + iy) + u0 * B(ix + iy) - Ev(t0, ix + iy) - RowValue(x, ix, b, iy)
  {
    var j := ix + iy;
    Column(s0, s1, j, u0, t0[j] + x * b[iy], u);
    BAdd(ix, iy);
    RowTerm(t0[j], x, b[iy], B(ix), B(iy), Ev(b, iy));
  }

  lemma RowTerm(t: int, x: int, d: int, p: int, q: int, e: int)
    ensures (t + x * d) * (p * q) == t * (p * q) + (x * p) * (d * q)
    ensures (x * p) * (e + d * q) == (x * p) * e + (x * p) * (d * q)
  {
    assert (t + x * d) * (p * q) == t * (p * q) + (x * d) * (p * q);
    MulAssoc(x, p, d * q);
    MulAssoc(p, d, q);
    MulAssoc(x, d, p * q);
  }

  /** Changing one digit changes the value by that digit's share. */
  lemma EvUpdate(s: seq<int>, j: nat, d: int, n: nat)
    requires j < n <= |s|
    ensures Ev(s[j := d], n) == Ev(s, n) + (d - s[j]) * B(j)
  {
    var t := s[j := d];
    EvSame(s, t, j);
    EvAgreeAbove(s, t, j + 1, n);
    assert (d - s[j]) * B(j) == d * B(j) - s[j] * B(j);
  }

  function Min(x: int, y: int): int
  {
    if x < y then x else y
  }

  /** One more digit of a adds its row. */
  lemma ProductStep(a: seq<int>, i: nat, e: int)
    requires i < |a|
    ensures Ev(a, i + 1) * e == Ev(a, i) * e + (a[i] * B(i)) * e
  {
  }

  lemma EmptyRow(x: int, ix: nat, b: seq<int>)
    ensures RowValue(x, ix, b, 0) == 0
  {
  }

  lemma RowIs(x: int, ix: nat, b: seq<int>, n: nat)
    requires n <= |b|
    ensures RowValue(x, ix, b, n) == (x * B(ix)) * Ev(b, n)
  {
  }

  /** A row that fits: the partial product grows by the row. */
  lemma WholeRow(t0: seq<int>, t1: seq<int>, a: seq<int>, b: seq<int>, ix: nat, n: nat, digs: nat, u: int, w: int)
    requires ix < |a| && n <= |b| && ix + n < digs <= |t0| == |t1|
    requires forall k :: ix + n <= k < |t0| ==> t1[k] == t0[k]
    requires t0[ix + n] == 0
    requires Ev(t1, ix + n) + u * B(ix + n)
          == Ev(t0, ix + n) + RowValue(a[ix], ix, b, n) - RowValue(a[ix], ix, b, 0)
    requires Ev(t0, digs) + w * B(digs) == Ev(a, ix) * Ev(b, n)
    ensures Ev(t1[ix + n := u], digs) + w * B(digs) == Ev(a, ix + 1) * Ev(b, n)
  {
    hide Ev, B, RowValue;
    EvAgreeAbove(t0, t1, ix + n, digs);
    EvUpdate(t1, ix + n, u, digs);
    EmptyRow(a[ix], ix, b);
    RowIs(a[ix], ix, b, n);
    ProductStep(a, ix, Ev(b, n));
  }

  /** A row cut off at digs: what is lost is a multiple of B(digs). */
  lemma CutRow(t0: seq<int>, t1: seq<int>, a: seq<int>, b: seq<int>, ix: nat, pb: nat, n: nat, u: int, w0: int) returns (w: int)
    requires ix < |a| && pb <= n <= |b| && ix + pb <= |t0| == |t1|
    requires Ev(t1, ix + pb) + u * B(ix + pb)
          == Ev(t0, ix + pb) + RowValue(a[ix], ix, b, pb) - RowValue(a[ix], ix, b, 0)
    requires Ev(t0, ix + pb) + w0 * B(ix + pb) == Ev(a, ix) * Ev(b, n)
    ensures Ev(t1, ix + pb) + w * B(ix + pb) == Ev(a, ix + 1) * Ev(b, n)
  {
    var z := EvSplit(b, pb, n);
    w := w0 + u + a[ix] * z;
    BAdd(ix, pb);
    CutRowTerms(Ev(a, ix), a[ix], B(ix), Ev(b, pb), B(pb), z, w0, u);
  }

  lemma CutRowTerms(e: int, x: int, p: int, f: int, q: int, z: int, w0: int, u: int)
    ensures (e + x * p) * (f + q * z) == e * (f + q * z) + (x * p) * f + (x * z) * (p * q)
    ensures (w0 + u + x * z) * (p * q) == w0 * (p * q) + u * (p * q) + (x * z) * (p * q)
  {
    assert (e + x * p) * (f + q * z) == e * (f + q * z) + (x * p) * f + (x * p) * (q * z);
    calc {
      (x * p) * (q * z);
      { MulAssoc(x * p, q, z); }
      ((x * p) * q) * z;
      { MulAssoc(x, p, q); }
      (x * (p * q)) * z;
      { MulAssoc(x, p * q, z); MulAssoc(p * q, x, z); }
      (x * z) * (p * q);
    }
    MulDist3(w0, u, x * z, p * q);
  }

  lemma MulDist3(x: int, y: int, z: int, p: int)
    ensures (x + y + z) * p == x * p + y * p + z * p
  {
  }

  /** A row that starts at or above digs is lost altogether. */
  lemma LostRow(a: seq<int>, ix: nat, digs: nat, e: int, w0: int, t: int) returns (w: int)
    requires digs <= ix < |a|
    requires t + w0 * B(digs) == Ev(a, ix) * e
    ensures t + w * B(digs) == Ev(a, ix + 1) * e
  {
    BAdd(digs, ix - digs);
    var v := (a[ix] * B(ix - digs)) * e;
    w := w0 + v;
    LostRowTerms(Ev(a, ix), a[ix], B(digs), B(ix - digs), e, w0);
  }

  lemma LostRowTerms(f: int, x: int, p: int, q: int, e: int, w0: int)
    ensures (f + x * (p * q)) * e == f * e + ((x * q) * e) * p
    ensures (w0 + (x * q) * e) * p == w0 * p + ((x * q) * e) * p
  {
    assert (f + x * (p * q)) * e == f * e + (x * (p * q)) * e;
    calc {
      (x * (p * q)) * e;
      { MulAssoc(x, p, q); MulAssoc(p, x, q); }
      (p * (x * q)) * e;
      { MulAssoc(p, x * q, e); }
      ((x * q) * e) * p;
    }
  }

  /** One row of s_mp_mul_digs. The ghost result w counts the multiples of B(digs) dropped so far. */
  method MulDigsRow(t: MpInt, a: MpInt, b: MpInt, ix: nat, digs: nat, ghost w0: int) returns (ghost w: int)
    requires t != a && t != b && t.Wf() && a.Valid() && b.Valid() && t.used == digs
    requires ix < a.used && ix <= digs
    requires forall k :: ix + b.used <= k < |t.dp| ==> t.dp[k] == 0
    requires Ev(t.dp, digs) + w0 * B(digs) == Ev(a.dp, ix) * Ev(b.dp, b.used)
    modifies t`dp
    ensures t.Wf() && forall k :: ix + 1 + b.used <= k < |t.dp| ==> t.dp[k] == 0
    ensures Ev(t.dp, digs) + w * B(digs) == Ev(a.dp, ix + 1) * Ev(b.dp, b.used)
  {
    hide Ev, B, RowValue;
    var pb := Min(b.used, digs - ix);
    ghost var t0 := t.dp;
    var u := MulRow(t, a.dp[ix], b, ix, 0, pb);
    if ix + pb < digs {
      WholeRow(t0, t.dp, a.dp, b.dp, ix, pb, digs, u, w0);
      t.dp := t.dp[ix + pb := u];
      w := w0;
    } else {
      w := CutRow(t0, t.dp, a.dp, b.dp, ix, pb, b.used, u, w0);
    }
  }

  /** s_mp_mul_digs: the product of the magnitudes modulo B(digs). */
  method MulDigs(a: MpInt, b: MpInt, c: MpInt, digs: nat)
    requires a.Valid() && b.Valid() && c.Wf()
    modifies c
    ensures c.Valid() && c.Mag() == (old(a.Mag()) * old(b.Mag())) % B(digs) && !c.neg
  {
    hide Ev, B;
    var t := new MpInt.Sized(digs);
    t.used := digs;
    ghost var w := 0;
    var ix := 0;
    EmptyProduct(t.dp, a.dp, digs, Ev(b.dp, b.used));
    while ix < a.used
      modifies t
      invariant 0 <= ix <= a.used && t.Wf() && t.used == digs && !t.neg
      invariant forall k :: ix + b.used <= k < |t.dp| ==> t.dp[k] == 0
      invariant Ev(t.dp, digs) + w * B(digs) == Ev(a.dp, ix) * Ev(b.dp, b.used)
    {
      if ix <= digs {
        w := MulDigsRow(t, a, b, ix, digs, w);
      } else {
        w := LostRow(a.dp, ix, digs, Ev(b.dp, b.used), w, Ev(t.dp, digs));
      }
      ix := ix + 1;
    }
    ResidueModB(t.dp, digs, w, Ev(a.dp, a.used) * Ev(b.dp, b.used));
    t.Clamp();
    Exch(t, c);
  }

  lemma EmptyProduct(t: seq<int>, a: seq<int>, digs: nat, e: int)
    requires digs <= |t| && forall k :: 0 <= k < digs ==> t[k] == 0
    ensures Ev(t, digs) + 0 * B(digs) == Ev(a, 0) * e
  {
    EvZeros(t, 0, digs);
  }

  lemma ResidueModB(t: seq<int>, digs: nat, w: int, x: int)
    requires digs <= |t| && Digital(t, digs)
    requires Ev(t, digs) + w * B(digs) == x
    ensures Ev(t, digs) == x % B(digs)
  {
    EvBound(t, digs);
    DivModUnique(x, B(digs), w, Ev(t, digs));
  }

  lemma ProductBound(x: int, y: int, m: nat, n: nat)
    requires 0 <= x < B(m) && 0 <= y < B(n)
    ensures 0 <= x * y < B(m + n)
  {
    MulLe(0, x, y);
    MulLe(x, B(m), y);
    MulLt(y, B(n), B(m));
    BAdd(m, n);
  }

  /** mp_mul: c = a * b. */
  method Product(a: MpInt, b: MpInt, c: MpInt)
    requires a.Valid() && b.Valid() && c.Wf()
    modifies c
    ensures c.Valid() && c.Val() == old(a.Val()) * old(b.Val())
  {
    hide Ev, B, MpInt.Wf;
    var neg := a.neg != b.neg;
    ghost var x, y := a.Mag(), b.Mag();
    FullProduct(a, b);
    MulDigs(a, b, c, a.used + b.used + 1);
    c.neg := c.used > 0 && neg;
    SignedProduct(x, y);
  }

  lemma FullProduct(a: MpInt, b: MpInt)
    requires a.Wf() && b.Wf()
    ensures (a.Mag() * b.Mag()) % B(a.used + b.used + 1) == a.Mag() * b.Mag()
  {
    EvBound(a.dp, a.used);
    EvBound(b.dp, b.used);
    BMono(b.used, b.used + 1);
    ProductBound(a.Mag(), b.Mag(), a.used, b.used + 1);
    ModSmall(a.Mag() * b.Mag(), B(a.used + b.used + 1));
  }

  lemma SignedProduct(x: int, y: int)
    requires x >= 0 && y >= 0
    ensures (-x) * y == -(x * y) == x * (-y) && (-x) * (-y) == x * y
    ensures x * y == 0 <==> x == 0 || y == 0
  {
    if x > 0 && y > 0 {
      MulLt(0, x, y);
    }
  }

  /** The columns of a product from digs upwards: what is left when every partial product a[i] * b[j]
      with i + j < digs is dropped. */
  ghost function HighPart(a: seq<int>, b: seq<int>, m: nat, n: nat, digs: nat): int
    requires m <= |a| && n <= |b| && m <= digs + 1
  {
    if m == 0 then 0
    else HighPart(a, b, m - 1, n, digs) + RowValue(a[m - 1], m - 1, b, n)
         - RowValue(a[m - 1], m - 1, b, Min(n, digs - (m - 1)))
  }

  /** The dropped columns are worth less than digs times B(digs + 1). */
  lemma {:induction false} HighPartError(a: seq<int>, b: seq<int>, m: nat, n: nat, digs: nat)
    requires m <= |a| && n <= |b| && m <= digs + 1 && Digital(a, m) && Digital(b, n)
    ensures 0 <= Ev(a, m) * Ev(b, n) - HighPart(a, b, m, n, digs) <= Min(m, digs) * B(digs + 1)
  {
    hide Ev, B, RowValue, HighPart;
    if m > 0 {
      var i := m - 1;
      HighPartError(a, b, i, n, digs);
      DroppedRow(a[i], i, b, n, digs);
      HighStep(a, b, i, n, digs);
      ErrorStep(i, digs, B(digs + 1));
    } else {
      EmptyHighPart(a, b, n, digs);
    }
  }

  lemma EmptyHighPart(a: seq<int>, b: seq<int>, n: nat, digs: nat)
    requires n <= |b|
    ensures Ev(a, 0) * Ev(b, n) == 0 == HighPart(a, b, 0, n, digs)
  {
  }

  lemma HighStep(a: seq<int>, b: seq<int>, i: nat, n: nat, digs: nat)
    requires i < |a| && n <= |b| && i <= digs
    ensures Ev(a, i + 1) * Ev(b, n) - HighPart(a, b, i + 1, n, digs)
         == Ev(a, i) * Ev(b, n) - HighPart(a, b, i, n, digs) + RowValue(a[i], i, b, Min(n, digs - i))
  {
    hide Ev, B, RowValue;
    RowIs(a[i], i, b, n);
    ProductStep(a, i, Ev(b, n));
  }

  lemma ErrorStep(i: nat, digs: nat, p: int)
    requires i <= digs
    ensures Min(i + 1, digs) * p == Min(i, digs) * p + if i < digs then p else 0
  {
  }

  lemma DroppedRow(x: int, i: nat, b: seq<int>, n: nat, digs: nat)
    requires 0 <= x < BETA && i <= digs && n <= |b| && Digital(b, n)
    ensures 0 <= RowValue(x, i, b, Min(n, digs - i)) <= B(digs + 1)
    ensures i == digs ==> RowValue(x, i, b, Min(n, digs - i)) == 0
  {
    var k := Min(n, digs - i);
    EvBound(b, k);
    BMono(k, digs - i);
    BAdd(i, digs - i);
    MulLe(0, x, B(i));
    MulLe(x, BETA, B(i));
    MulLe(0, x * B(i), Ev(b, k));
    MulLe(x * B(i), BETA * B(i), Ev(b, k));
    MulLe(Ev(b, k), B(digs - i), BETA * B(i));
    MulAssoc(BETA, B(i), B(digs - i));
  }

  lemma HighRow(t0: seq<int>, t1: seq<int>, a: seq<int>, b: seq<int>, ix: nat, n: nat, digs: nat, u: int)
    requires ix < |a| && n <= |b| && digs - ix <= n && ix <= digs && ix + n < |t0| == |t1|
    requires forall k :: ix + n <= k < |t0| ==> t1[k] == t0[k] == 0
    requires Ev(t1, ix + n) + u * B(ix + n)
          == Ev(t0, ix + n) + RowValue(a[ix], ix, b, n) - RowValue(a[ix], ix, b, digs - ix)
    requires Ev(t0, |t0|) == HighPart(a, b, ix, n, digs)
    ensures Ev(t1[ix + n := u], |t0|) == HighPart(a, b, ix + 1, n, digs)
  {
    EvZeros(t0, ix + n, |t0|);
    EvZeros(t1, ix + n, |t0|);
    EvUpdate(t1, ix + n, u, |t0|);
  }

  lemma EmptyHighRow(a: seq<int>, b: seq<int>, ix: nat, n: nat, digs: nat)
    requires ix < |a| && n <= |b| && ix <= digs && n <= digs - ix
    ensures HighPart(a, b, ix + 1, n, digs) == HighPart(a, b, ix, n, digs)
  {
  }

  /** s_mp_mul_high_digs: the product without its low digs columns. */
  method MulHighDigs(a: MpInt, b: MpInt, c: MpInt, digs: nat)
    requires a.Valid() && b.Valid() && c.Wf()
    requires a.used <= digs + 1 && digs <= a.used + b.used
    modifies c
    ensures c.Valid() && c.Mag() == old(HighPart(a.dp, b.dp, a.used, b.used, digs)) && !c.neg
    ensures old(a.used + b.used) + 1 < |c.dp|
  {
    hide Ev, B, RowValue, HighPart;
    var n := a.used + b.used + 1;
    var t := new MpInt.Sized(n);
    t.used := n;
    var ix := 0;
    EmptyHigh(t.dp, a.dp, b.dp, b.used, digs);
    while ix < a.used
      modifies t
      invariant 0 <= ix <= a.used && t.Wf() && t.used == n && !t.neg && n < |t.dp|
      invariant forall k :: ix + b.used <= k < |t.dp| ==> t.dp[k] == 0
      invariant Ev(t.dp, |t.dp|) == HighPart(a.dp, b.dp, ix, b.used, digs)
    {
      MulHighRow(t, a, b, ix, digs);
      ix := ix + 1;
    }
    EvZeros(t.dp, n, |t.dp|);
    t.Clamp();
    Exch(t, c);
  }

  lemma EmptyHigh(t: seq<int>, a: seq<int>, b: seq<int>, n: nat, digs: nat)
    requires n <= |b| && forall k :: 0 <= k < |t| ==> t[k] == 0
    ensures Ev(t, |t|) == HighPart(a, b, 0, n, digs)
  {
    EvZeros(t, 0, |t|);
  }

  method MulHighRow(t: MpInt, a: MpInt, b: MpInt, ix: nat, digs: nat)
    requires t != a && t != b && t.Wf() && a.Valid() && b.Valid()
    requires ix < a.used && ix <= digs <= a.used + b.used && t.used == a.used + b.used + 1
    requires forall k :: ix + b.used <= k < |t.dp| ==> t.dp[k] == 0
    requires Ev(t.dp, |t.dp|) == HighPart(a.dp, b.dp, ix, b.used, digs)
    modifies t`dp
    ensures t.Wf() && |t.dp| == old(|t.dp|)
    ensures forall k :: ix + 1 + b.used <= k < |t.dp| ==> t.dp[k] == 0
    ensures Ev(t.dp, |t.dp|) == HighPart(a.dp, b.dp, ix + 1, b.used, digs)
  {
    hide Ev, B, RowValue, HighPart;
    ghost var t0 := t.dp;
    var pb := b.used;
    if digs - ix <= pb {
      var u := MulRow(t, a.dp[ix], b, ix, digs - ix, pb);
      HighRow(t0, t.dp, a.dp, b.dp, ix, pb, digs, u);
      t.dp := t.dp[ix + pb := u];
    } else {
      EmptyHighRow(a.dp, b.dp, ix, pb, digs);
      t.dp := t.dp[digs := 0];
      assert t.dp == t0;
    }
  }

  /** Twice the row a[ix] * (digits above ix), plus the square of a[ix]: what row ix of a square adds. */
  ghost function SquareRow(a: seq<int>, ix: nat, n: nat): int
    requires ix < |a| && n <= |a|
  {
    2 * (a[ix] * B(ix)) * Ev(a, n) - 2 * (a[ix] * B(ix)) * Ev(a, ix + 1) + (a[ix] * B(ix)) * (a[ix] * B(ix))
  }

  /** The doubled part of a squaring row: columns ix + lo .. ix + pa get 2 * x * a[iy]. */
  method DoubleRow(t: MpInt, x: Digit, a: MpInt, ix: nat, u0: Digit) returns (u: Digit)
    requires t != a && ix < |a.dp| && a.used <= |a.dp| && ix < a.used && ix + a.used <= |t.dp|
    requires x < BETA && Digital(a.dp, |a.dp|) && Digital(t.dp, |t.dp|) && u0 < BETA
    modifies t`dp
    ensures |t.dp| == old(|t.dp|) && Digital(t.dp, |t.dp|) && u < 2 * BETA
    ensures forall k :: 0 <= k < |t.dp| && !(2 * ix + 1 <= k < ix + a.used) ==> t.dp[k] == old(t.dp[k])
    ensures Ev(t.dp, ix + a.used) + u * B(ix + a.used)
         == old(Ev(t.dp, ix + a.used)) + u0 * B(2 * ix + 1)
            + RowValue(2 * x, ix, a.dp, a.used) - RowValue(2 * x, ix, a.dp, ix + 1)
  {
    hide Ev, B, RowValue;
    u := u0;
    var iy := ix + 1;
    ghost var t0 := t.dp;
    while iy < a.used
      invariant ix < iy <= a.used && |t.dp| == |t0| && Digital(t.dp, |t0|) && u < 2 * BETA
      invariant forall k :: 0 <= k < |t0| && !(2 * ix + 1 <= k < ix + iy) ==> t.dp[k] == t0[k]
      invariant Ev(t.dp, ix + iy) + u * B(ix + iy)
             == Ev(t0, ix + iy) + u0 * B(2 * ix + 1)
                + RowValue(2 * x, ix, a.dp, iy) - RowValue(2 * x, ix, a.dp, ix + 1)
    {
      ghost var s0, u1 := t.dp, u;
      ProductFits(x, a.dp[iy]);
      var r: Word := x * a.dp[iy];
      r := t.dp[ix + iy] + r + r + u;
      t.dp := t.dp[ix + iy := r % BETA];
      u := r / BETA;
      assert 2 * (x * a.dp[iy]) == (2 * x) * a.dp[iy];
      RowColumn(t0, s0, t.dp, a.dp, ix, iy, 2 * x, u1, u);
      iy := iy + 1;
    }
  }

  /** The carry loop that has no bound of its own: it stops because the whole number stays below
      B(top), so a nonzero carry is always below digit top. */
  method PropagateCarry(t: MpInt, j0: nat, u0: Digit, top: nat)
    requires Digital(t.dp, |t.dp|) && top < |t.dp|
    requires Ev(t.dp, |t.dp|) + u0 * B(j0) < B(top)
    modifies t`dp
    ensures |t.dp| == old(|t.dp|) && Digital(t.dp, |t.dp|)
    ensures forall k :: top <= k < |t.dp| ==> t.dp[k] == old(t.dp[k])
    ensures Ev(t.dp, |t.dp|) == old(Ev(t.dp, |t.dp|)) + u0 * B(j0)
  {
    hide Ev, B;
    var j := j0;
    var u: Digit := u0;
    ghost var n := |t.dp|;
    while u != 0
      invariant |t.dp| == n && Digital(t.dp, n)
      invariant forall k :: top <= k < n ==> t.dp[k] == old(t.dp[k])
      invariant Ev(t.dp, n) + u * B(j) == old(Ev(t.dp, |t.dp|)) + u0 * B(j0)
      decreases top - j
    {
      CarryBelowTop(t.dp, u, j, top);
      ghost var s0 := t.dp;
      var r: Word := t.dp[j] + u;
      t.dp := t.dp[j := r % BETA];
      CarryMoves(s0, j, r, u);
      u := r / BETA;
      j := j + 1;
    }
    assert u * B(j) == 0;
  }

  lemma CarryBelowTop(t: seq<int>, u: int, j: nat, top: nat)
    requires Digital(t, |t|) && u > 0 && Ev(t, |t|) + u * B(j) < B(top)
    ensures j < top
  {
    EvBound(t, |t|);
    MulLe(1, u, B(j));
    if j >= top {
      BMono(top, j);
    }
  }

  lemma CarryMoves(s: seq<int>, j: nat, r: int, u: int)
    requires j < |s| && r == s[j] + u
    ensures Ev(s[j := r % BETA], |s|) + (r / BETA) * B(j + 1) == Ev(s, |s|) + u * B(j)
  {
    EvUpdate(s, j, r % BETA, |s|);
    Carry(r, r % BETA, r / BETA, B(j));
    assert (r % BETA - s[j]) * B(j) == (r % BETA) * B(j) - s[j] * B(j);
    assert r * B(j) == s[j] * B(j) + u * B(j);
  }

  /** The column of a squaring row that holds the square itself. */
  method SquareDigit(t: MpInt, x: Digit, ix: nat) returns (u: Digit)
    requires Digital(t.dp, |t.dp|) && 2 * ix < |t.dp| && x < BETA
    modifies t`dp
    ensures |t.dp| == old(|t.dp|) && Digital(t.dp, |t.dp|) && u < BETA
    ensures forall k :: 0 <= k < |t.dp| && k != 2 * ix ==> t.dp[k] == old(t.dp[k])
    ensures Ev(t.dp, |t.dp|) + u * B(2 * ix + 1) == old(Ev(t.dp, |t.dp|)) + (x * x) * B(2 * ix)
  {
    hide Ev, B;
    ProductFits(x, x);
    var r: Word := t.dp[2 * ix] + x * x;
    CarryMoves(t.dp, 2 * ix, r, x * x);
    t.dp := t.dp[2 * ix := r % BETA];
    u := r / BETA;
  }

  /** One row of s_mp_sqr. */
  method SqrRow(t: MpInt, a: MpInt, ix: nat)
    requires t != a && t.Wf() && a.Valid() && ix < a.used && 2 * a.used < |t.dp| && t.used == 2 * a.used + 1
    requires Ev(t.dp, |t.dp|) + SquareRow(a.dp, ix, a.used) < B(2 * a.used)
    modifies t`dp
    ensures t.Wf() && |t.dp| == old(|t.dp|)
    ensures Ev(t.dp, |t.dp|) == old(Ev(t.dp, |t.dp|)) + SquareRow(a.dp, ix, a.used)
  {
    hide Ev, B, RowValue, SquareRow;
    ghost var t0 := t.dp;
    var u := SquareDigit(t, a.dp[ix], ix);
    ghost var t1, u0 := t.dp, u;
    u := DoubleRow(t, a.dp[ix], a, ix, u);
    SqrRowSum(t0, t1, t.dp, a.dp, ix, a.used, u0, u);
    PropagateCarry(t, ix + a.used, u, 2 * a.used);
  }

  lemma SqrRowSum(t0: seq<int>, t1: seq<int>, t2: seq<int>, a: seq<int>, ix: nat, n: nat, u0: int, u: int)
    requires ix < n <= |a| && ix + n <= |t0| == |t1| == |t2|
    requires Ev(t1, |t1|) + u0 * B(2 * ix + 1) == Ev(t0, |t0|) + (a[ix] * a[ix]) * B(2 * ix)
    requires forall k :: ix + n <= k < |t1| ==> t2[k] == t1[k]
    requires Ev(t2, ix + n) + u * B(ix + n)
          == Ev(t1, ix + n) + u0 * B(2 * ix + 1)
             + RowValue(2 * a[ix], ix, a, n) - RowValue(2 * a[ix], ix, a, ix + 1)
    ensures Ev(t2, |t2|) + u * B(ix + n) == Ev(t0, |t0|) + SquareRow(a, ix, n)
  {
    EvAgreeAbove(t1, t2, ix + n, |t1|);
    SquareRowParts(a, ix, n);
  }

  lemma SquareRowParts(a: seq<int>, ix: nat, n: nat)
    requires ix < n <= |a|
    ensures SquareRow(a, ix, n)
         == (a[ix] * a[ix]) * B(2 * ix) + RowValue(2 * a[ix], ix, a, n) - RowValue(2 * a[ix], ix, a, ix + 1)
  {
    BAdd(ix, ix);
    hide Ev, B;
    DoubleTerms(a[ix], B(ix), Ev(a, n), Ev(a, ix + 1));
  }

  lemma DoubleTerms(x: int, p: int, e: int, f: int)
    ensures (x * p) * (x * p) == (x * x) * (p * p)
    ensures ((2 * x) * p) * e == 2 * (x * p) * e && ((2 * x) * p) * f == 2 * (x * p) * f
  {
    MulAssoc(x, p, x * p);
    MulAssoc(p, x, p);
    MulAssoc(x, x, p * p);
    assert (2 * x) * p == 2 * (x * p);
  }

  /** The square of e as far as its digits are processed: the part of m * m that involves e. */
  ghost function SquareUpTo(e: int, m: int): int
  {
    2 * e * m - e * e
  }

  lemma SquareStep(e: int, d: int, m: int)
    ensures SquareUpTo(e + d, m) == SquareUpTo(e, m) + (2 * d * m - 2 * d * (e + d) + d * d)
  {
    assert 2 * (e + d) * m == 2 * e * m + 2 * d * m;
    assert (e + d) * (e + d) == e * e + 2 * (e * d) + d * d;
    assert 2 * d * (e + d) == 2 * (e * d) + 2 * (d * d);
  }

  lemma SquareBounded(e: int, m: int)
    ensures SquareUpTo(e, m) <= m * m
    ensures SquareUpTo(m, m) == m * m && SquareUpTo(0, m) == 0
  {
    assert (m - e) * (m - e) == m * m - 2 * e * m + e * e;
    assert 0 <= (m - e) * (m - e);
  }

  lemma NextSquareRow(a: seq<int>, ix: nat, n: nat)
    requires ix < n <= |a| && Digital(a, n)
    ensures SquareUpTo(Ev(a, ix + 1), Ev(a, n)) == SquareUpTo(Ev(a, ix), Ev(a, n)) + SquareRow(a, ix, n)
    ensures SquareUpTo(Ev(a, ix + 1), Ev(a, n)) < B(2 * n)
  {
    EvBound(a, n);
    ProductBound(Ev(a, n), Ev(a, n), n, n);
    SquareStep(Ev(a, ix), a[ix] * B(ix), Ev(a, n));
    SquareBounded(Ev(a, ix + 1), Ev(a, n));
  }

  /** s_mp_sqr: b = a * a. */
  method LowSqr(a: MpInt, b: MpInt)
    requires a.Valid() && b.Wf()
    modifies b
    ensures b.Valid() && b.Mag() == old(a.Mag()) * old(a.Mag()) && !b.neg
  {
    hide Ev, B, SquareRow, SquareUpTo;
    var pa := a.used;
    var t := new MpInt.Sized(2 * pa + 1);
    t.used := 2 * pa + 1;
    ghost var m := Ev(a.dp, pa);
    var ix := 0;
    EvZeros(t.dp, 0, |t.dp|);
    NoDigits(t.dp, a.dp, m);
    while ix < pa
      modifies t
      invariant 0 <= ix <= pa && t.Wf() && t.used == 2 * pa + 1 && !t.neg && 2 * pa < |t.dp|
      invariant Ev(t.dp, |t.dp|) == SquareUpTo(Ev(a.dp, ix), m)
    {
      NextSquareRow(a.dp, ix, pa);
      SqrRow(t, a, ix);
      ix := ix + 1;
    }
    SquareBounded(m, m);
    EvZeros(t.dp, t.used, |t.dp|);
    t.Clamp();
    Exch(t, b);
  }

  lemma NoDigits(t: seq<int>, a: seq<int>, m: int)
    ensures Ev(t, 0) == SquareUpTo(Ev(a, 0), m)
  {
  }

  /** mp_sqr: b = a * a. */
  method Sqr(a: MpInt, b: MpInt)
    requires a.Valid() && b.Wf()
    modifies b
    ensures b.Valid() && b.Val() == old(a.Val()) * old(a.Val())
  {
    LowSqr(a, b);
    b.neg := false;
    SignedProduct(old(a.Mag()), old(a.Mag()));
  }
}
