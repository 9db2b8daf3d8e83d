/** The column-wise (comba) multiplier and squarer of the LTM_FAST build: each column is summed in one
    double word before its carry is passed on. */
module Comba {
  import opened Arith
  import opened Digits
  import opened MpInts
  import opened Mul

  /** The share of digit i of a in column ix. */
  ghost function Part(a: seq<int>, b: seq<int>, i: nat, n: nat, ix: nat): int
    requires i < |a| && n <= |b|
  {
    if 0 <= ix - i < n then a[i] * b[ix - i] else 0
  }

  /** Column ix of the product of the first m digits of a with the first n of b. */
  ghost function Col(a: seq<int>, b: seq<int>, m: nat, n: nat, ix: nat): int
    requires m <= |a| && n <= |b|
  {
    if m == 0 then 0 else Col(a, b, m - 1, n, ix) + Part(a, b, m - 1, n, ix)
  }

  /** The columns below N as a number. */
  ghost function Columns(a: seq<int>, b: seq<int>, m: nat, n: nat, N: nat): int
    requires m <= |a| && n <= |b|
  {
    if N == 0 then 0 else Columns(a, b, m, n, N - 1) + Col(a, b, m, n, N - 1) * B(N - 1)
  }

  /** One digit of a adds its row, cut off at column N. */
  lemma {:induction false} ColumnsStep(a: seq<int>, b: seq<int>, m: nat, n: nat, N: nat)
    requires m < |a| && n <= |b|
    ensures Columns(a, b, m + 1, n, N) == Columns(a, b, m, n, N)
         + (a[m] * B(m)) * (if N <= m then 0 else if N - m >= n then Ev(b, n) else Ev(b, N - m))
  {
    hide B;
    if N > 0 {
      ColumnsStep(a, b, m, n, N - 1);
      var ix := N - 1;
      var c := Col(a, b, m, n, ix);
      if 0 <= ix - m < n {
        BAdd(m, ix - m);
        ColumnTerm(c, a[m], b[ix - m], B(m), B(ix - m), Ev(b, ix - m));
      }
    }
  }

  lemma ColumnTerm(c: int, x: int, y: int, p: int, q: int, e: int)
    ensures (c + x * y) * (p * q) == c * (p * q) + (x * p) * (y * q)
    ensures (x * p) * (e + y * q) == (x * p) * e + (x * p) * (y * q)
  {
    MulAssoc(x, y, p * q);
    MulAssoc(y, p, q);
    MulAssoc(x, p, y * q);
    MulAssoc(p, y, q);
  }

  /** All columns together are the product. */
  lemma {:induction false} ColumnsAreProduct(a: seq<int>, b: seq<int>, m: nat, n: nat, N: nat)
    requires m <= |a| && n <= |b| && m + n <= N
    ensures Columns(a, b, m, n, N) == Ev(a, m) * Ev(b, n)
  {
    if m == 0 {
      NoColumns(a, b, n, N);
      assert Ev(a, 0) == 0;
    } else {
      hide Ev, B, Columns;
      ColumnsAreProduct(a, b, m - 1, n, N);
      ColumnsStep(a, b, m - 1, n, N);
      ProductStep(a, m - 1, Ev(b, n));
    }
  }

  /** The columns from N upwards are worth a multiple of B(N). */
  lemma {:induction false} ColumnsAbove(a: seq<int>, b: seq<int>, m: nat, n: nat, N: nat, M: nat) returns (w: int)
    requires m <= |a| && n <= |b| && N <= M
    ensures Columns(a, b, m, n, M) == Columns(a, b, m, n, N) + w * B(N)
  {
    hide B, Col;
    if N == M {
      w := 0;
    } else {
      var v := ColumnsAbove(a, b, m, n, N, M - 1);
      BAdd(N, M - 1 - N);
      w := ColumnShare(v, Col(a, b, m, n, M - 1), B(N), B(M - 1 - N));
    }
  }

  lemma ColumnShare(v: int, c: int, p: int, q: int) returns (w: int)
    ensures v * p + c * (p * q) == w * p
  {
    w := v + c * q;
    MulAssoc(c, q, p);
  }

  lemma {:induction false} NoColumns(a: seq<int>, b: seq<int>, n: nat, N: nat)
    requires n <= |b|
    ensures Columns(a, b, 0, n, N) == 0
  {
    if N > 0 {
      NoColumns(a, b, n, N - 1);
    }
  }

  /** Digits of a whose partner lies outside b contribute nothing to the column. */
  lemma {:induction false} ColSkips(a: seq<int>, b: seq<int>, lo: nat, hi: nat, n: nat, ix: nat)
    requires lo <= hi <= |a| && n <= |b| && (lo == hi || ix < lo || hi + n <= ix + 1)
    ensures Col(a, b, hi, n, ix) == Col(a, b, lo, n, ix)
  {
    if lo < hi {
      ColSkips(a, b, lo, hi - 1, n, ix);
    }
  }

  lemma EmptyCol(a: seq<int>, b: seq<int>, n: nat, ix: nat)
    requires n <= |b|
    ensures Col(a, b, 0, n, ix) == 0
  {
  }

  /** The column loop: products of digit pairs whose places add up to ix, on top of the carry. */
  method SumColumn(a: MpInt, b: MpInt, ix: nat, carry: Word) returns (w: Word)
    requires a.Wf() && b.Wf() && ix < a.used + b.used && carry <= 0x10_0000_0000
    requires a.used <= 256 || b.used <= 256
    ensures w == carry + Col(a.dp, b.dp, a.used, b.used, ix)
  {
    hide Col;
    var ty := Min(b.used - 1, ix);
    var tx := ix - ty;
    var iy := Min(a.used - tx, ty + 1);
    w := carry;
    EmptyCol(a.dp, b.dp, b.used, ix);
    ColSkips(a.dp, b.dp, 0, Min(tx, a.used), b.used, ix);
    var iz := 0;
    while iz < iy
      invariant 0 <= iz && (iz <= iy || iz == 0)
      invariant carry <= w <= carry + iz * TERM
      invariant w == carry + Col(a.dp, b.dp, Min(tx + iz, a.used), b.used, ix)
    {
      var x: int, y: int := a.dp[tx + iz], b.dp[ty - iz];
      TermFits(x, y);
      ColAdds(a.dp, b.dp, tx + iz, b.used, ix);
      w := w + x * y;
      iz := iz + 1;
    }
    ColSkips(a.dp, b.dp, Min(tx + iz, a.used), a.used, b.used, ix);
  }

  lemma ColAdds(a: seq<int>, b: seq<int>, i: nat, n: nat, ix: nat)
    requires i < |a| && n <= |b| && 0 <= ix - i < n
    ensures Col(a, b, i + 1, n, ix) == Col(a, b, i, n, ix) + a[i] * b[ix - i]
  {
  }

  /** The carry passed on between columns accounts for what the digits written so far leave out. */
  ghost predicate Summed(W: seq<int>, carry: int, a: seq<int>, b: seq<int>, m: nat, n: nat, ix: nat)
    requires m <= |a| && n <= |b| && ix <= |W|
  {
    Ev(W, ix) + carry * B(ix) == Columns(a, b, m, n, ix)
  }

  lemma SummedStep(W: seq<int>, carry: int, a: seq<int>, b: seq<int>, m: nat, n: nat, ix: nat, w: int)
    requires m <= |a| && n <= |b| && ix < |W| && Summed(W, carry, a, b, m, n, ix)
    requires w == carry + Col(a, b, m, n, ix)
    ensures Summed(W[ix := w % BETA], w / BETA, a, b, m, n, ix + 1)
  {
    hide Ev, B, Col;
    Column(W, W[ix := w % BETA], ix, carry, Col(a, b, m, n, ix), w / BETA);
  }

  lemma SummedStart(W: seq<int>, a: seq<int>, b: seq<int>, m: nat, n: nat)
    requires m <= |a| && n <= |b|
    ensures Summed(W, 0, a, b, m, n, 0)
  {
  }

  /** The digits written are the product without what lies above them: the carry that is left and the
      columns that were not summed. */
  lemma SummedDigits(W: seq<int>, carry: int, a: seq<int>, b: seq<int>, m: nat, n: nat, N: nat)
    requires m <= |a| && n <= |b| && N <= |W| && Digital(W, N) && Summed(W, carry, a, b, m, n, N)
    ensures Ev(W, N) == (Ev(a, m) * Ev(b, n)) % B(N)
  {
    hide Ev, B, Columns;
    ColumnsAreProduct(a, b, m, n, m + n + N);
    var w := ColumnsAbove(a, b, m, n, N, m + n + N);
    MulDist3(carry, w, 0, B(N));
    ResidueModB(W, N, carry + w, Ev(a, m) * Ev(b, n));
  }

  /** Every column is summed once there are as many as both operands have digits. */
  lemma AllColumns(a: seq<int>, b: seq<int>, m: nat, n: nat, digs: nat)
    requires m <= |a| && n <= |b| && m + n <= digs && Digital(a, m) && Digital(b, n)
    ensures (Ev(a, m) * Ev(b, n)) % B(m + n) == Ev(a, m) * Ev(b, n) == (Ev(a, m) * Ev(b, n)) % B(digs)
  {
    hide Ev, B;
    EvBound(a, m);
    EvBound(b, n);
    ProductBound(Ev(a, m), Ev(b, n), m, n);
    BMono(m + n, digs);
    ModSmall(Ev(a, m) * Ev(b, n), B(m + n));
    ModSmall(Ev(a, m) * Ev(b, n), B(digs));
  }

  /** The columns of fast_s_mp_mul_digs; the word above the last column stays zero. */
  method CombaColumns(a: MpInt, b: MpInt, digs: nat) returns (W: seq<Digit>, pa: nat)
    requires a.Wf() && b.Wf() && digs < MP_WARRAY && (a.used <= 256 || b.used <= 256)
    ensures |W| == MP_WARRAY && pa == Min(digs, a.used + b.used) && Digital(W, pa + 1) && W[pa] == 0
    ensures Ev(W, pa) == (a.Mag() * b.Mag()) % B(digs)
  {
    hide Ev, B, Col, Summed;
    pa := Min(digs, a.used + b.used);
    W := seq(MP_WARRAY, i => 0);
    var acc: Word := 0;
    var ix := 0;
    SummedStart(W, a.dp, b.dp, a.used, b.used);
    while ix < pa
      invariant 0 <= ix <= pa && |W| == MP_WARRAY && Digital(W, ix) && acc <= 0x10_0000_0000
      invariant forall k :: ix <= k < |W| ==> W[k] == 0
      invariant Summed(W, acc, a.dp, b.dp, a.used, b.used, ix)
    {
      ghost var carry := acc;
      acc := SumColumn(a, b, ix, acc);
      SummedStep(W, carry, a.dp, b.dp, a.used, b.used, ix, acc);
      W := W[ix := acc % BETA];
      acc := acc / BETA;
      ix := ix + 1;
    }
    SummedDigits(W, acc, a.dp, b.dp, a.used, b.used, pa);
    if pa < digs {
      AllColumns(a.dp, b.dp, a.used, b.used, digs);
    }
  }

  /** Copying pa digits (and `extra` more, all zero) into the destination. */
  method StoreColumns(c: MpInt, W: seq<Digit>, pa: nat, extra: nat)
    requires c.Wf() && |W| == MP_WARRAY && pa + extra <= |c.dp| && pa + extra <= MP_WARRAY
    requires Digital(W, pa + extra) && forall k :: pa <= k < pa + extra ==> W[k] == 0
    modifies c
    ensures c.Valid() && c.Mag() == Ev(W, pa) && (c.used > 0 ==> c.neg == old(c.neg))
  {
    hide Ev;
    var olduse := c.used;
    ghost var s := c.dp;
    var ix := 0;
    while ix < pa + extra
      invariant 0 <= ix <= pa + extra && |c.dp| == |s| && c.neg == old(c.neg)
      invariant forall k :: 0 <= k < |s| ==> c.dp[k] == if k < ix then W[k] else s[k]
    {
      c.dp := c.dp[ix := W[ix]];
      ix := ix + 1;
    }
    ClearDigits(c, ix, olduse);
    c.used := pa;
    EvSame(c.dp, W, pa);
    c.Clamp();
  }

  /** fast_s_mp_mul_digs: the product of the magnitudes modulo B(digs). It makes room for digs digits and
      copies one more than it has computed, so a product that is cut off asks its caller for that one. */
  method CombaMul(a: MpInt, b: MpInt, c: MpInt, digs: nat)
    requires a.Valid() && b.Valid() && c.Wf()
    requires digs < MP_WARRAY && (a.used <= 256 || b.used <= 256)
    requires a.used + b.used < digs || |c.dp| != digs
    modifies c
    ensures c.Valid() && c.Mag() == (old(a.Mag()) * old(b.Mag())) % B(digs)
    ensures c.used > 0 ==> c.neg == old(c.neg)
  {
    hide Ev, B, MpInt.Wf;
    var W, pa := CombaColumns(a, b, digs);
    c.Grow(digs);
    StoreColumns(c, W, pa, 1);
  }

  /** s_mp_mul_digs in either build. */
  method LowDigits(a: MpInt, b: MpInt, c: MpInt, digs: nat, fast: bool)
    requires a.Valid() && b.Valid() && c.Wf()
    requires fast && digs < MP_WARRAY ==> digs < |c.dp|
    modifies c
    ensures c.Valid() && c.Mag() == (old(a.Mag()) * old(b.Mag())) % B(digs) && (c.neg ==> old(c.neg))
  {
    hide Ev, B, MpInt.Wf;
    if fast && digs < MP_WARRAY && Min(a.used, b.used) < 256 {
      CombaMul(a, b, c, digs);
    } else {
      MulDigs(a, b, c, digs);
    }
  }

  /** mp_mul; `fast` is the LTM_FAST build, which takes the comba multiplier where its columns fit. */
  method Multiply(a: MpInt, b: MpInt, c: MpInt, fast: bool)
    requires a.Valid() && b.Valid() && c.Wf()
    modifies c
    ensures c.Valid() && c.Val() == old(a.Val()) * old(b.Val())
  {
    hide Ev, B, MpInt.Wf;
    if fast && a.used + b.used + 1 < MP_WARRAY && Min(a.used, b.used) <= 256 {
      var neg := a.neg != b.neg;
      SignedProduct(a.Mag(), b.Mag());
      FullProduct(a, b);
      CombaMul(a, b, c, a.used + b.used + 1);
      c.neg := c.used > 0 && neg;
    } else {
      Product(a, b, c);
    }
  }

  // ---------------------------------------------------------------- squaring

  /** A stretch of a column: the products a[i] * a[ix - i] for lo <= i < hi. */
  ghost function Stretch(a: seq<int>, ix: nat, lo: nat, hi: nat): int
    requires lo <= hi <= |a| && hi <= ix + 1 && ix - lo < |a|
    decreases hi
  {
    if lo == hi then 0 else Stretch(a, ix, lo, hi - 1) + a[hi - 1] * a[ix - (hi - 1)]
  }

  /** Both halves of a squaring column are equal. */
  lemma {:induction false} Mirrored(a: seq<int>, ix: nat, lo: nat, mid: nat, h: nat)
    requires lo + h <= mid && mid + h == ix + 1 - lo && mid + h <= |a|
    ensures Stretch(a, ix, mid, mid + h) == Stretch(a, ix, lo, lo + h)
    decreases h
  {
    if h > 0 {
      Mirrored(a, ix, lo, mid + 1, h - 1);
      FirstTerm(a, ix, mid, mid + h);
      assert a[mid] * a[ix - mid] == a[lo + h - 1] * a[ix - (lo + h - 1)];
    }
  }

  lemma {:induction false} FirstTerm(a: seq<int>, ix: nat, lo: nat, hi: nat)
    requires lo < hi <= |a| && hi <= ix + 1 && ix - lo < |a|
    ensures Stretch(a, ix, lo, hi) == a[lo] * a[ix - lo] + Stretch(a, ix, lo + 1, hi)
    decreases hi
  {
    if lo + 1 < hi {
      FirstTerm(a, ix, lo, hi - 1);
    }
  }

  lemma {:induction false} Joined(a: seq<int>, ix: nat, lo: nat, mid: nat, hi: nat)
    requires lo <= mid <= hi <= |a| && hi <= ix + 1 && ix - lo < |a|
    ensures Stretch(a, ix, lo, hi) == Stretch(a, ix, lo, mid) + Stretch(a, ix, mid, hi)
    decreases hi
  {
    if mid < hi {
      Joined(a, ix, lo, mid, hi - 1);
    }
  }

  lemma {:induction false} ColIsStretch(a: seq<int>, n: nat, ix: nat, lo: nat, hi: nat)
    requires n <= |a| && lo <= hi <= n && hi <= ix + 1 && ix - lo < n
    ensures Col(a, a, hi, n, ix) == Col(a, a, lo, n, ix) + Stretch(a, ix, lo, hi)
    decreases hi
  {
    if lo < hi {
      ColIsStretch(a, n, ix, lo, hi - 1);
    }
  }

  /** A column of a square: twice the half the loop sums, and the square term in even columns. */
  lemma SquareColumn(a: seq<int>, n: nat, ix: nat, tx: nat, ty: nat, h: nat)
    requires n <= |a| && ty < n && tx + ty == ix && (ty == n - 1 || ty == ix) && tx <= ty && h == (ty - tx + 1) / 2
    ensures Col(a, a, n, n, ix) == 2 * Stretch(a, ix, tx, tx + h) + if ix % 2 == 0 then a[ix / 2] * a[ix / 2] else 0
  {
    EmptyCol(a, a, n, ix);
    ColSkips(a, a, 0, tx, n, ix);
    ColIsStretch(a, n, ix, tx, ty + 1);
    ColSkips(a, a, ty + 1, n, n, ix);
    var mid := ty + 1 - h;
    Mirrored(a, ix, tx, mid, h);
    Joined(a, ix, tx, tx + h, ty + 1);
    Joined(a, ix, tx + h, mid, ty + 1);
    if ix % 2 == 0 {
      assert mid == tx + h + 1 && ix / 2 == tx + h;
    }
  }

  lemma StretchStep(a: seq<int>, ix: nat, lo: nat, i: nat)
    requires lo <= i < |a| && i <= ix && ix - lo < |a|
    ensures Stretch(a, ix, lo, i + 1) == Stretch(a, ix, lo, i) + a[i] * a[ix - i]
  {
  }

  method HalfColumn(a: MpInt, ix: nat, tx: nat, ty: int, h: nat) returns (w: Word)
    requires a.Wf() && a.used < 128 && tx + ty == ix && ty < a.used && tx + h <= a.used && (h > 0 ==> tx + h <= ty + 1)
    ensures w <= h * TERM && (h > 0 ==> w == Stretch(a.dp, ix, tx, tx + h)) && (h == 0 ==> w == 0)
  {
    hide Stretch;
    w := 0;
    if h > 0 {
      EmptyStretch(a.dp, ix, tx);
    }
    var iz := 0;
    while iz < h
      invariant 0 <= iz <= h && 0 <= w <= iz * TERM
      invariant h > 0 ==> w == Stretch(a.dp, ix, tx, tx + iz)
    {
      var x: int, y: int := a.dp[tx + iz], a.dp[ty - iz];
      TermFits(x, y);
      StretchStep(a.dp, ix, tx, tx + iz);
      w := w + x * y;
      iz := iz + 1;
    }
  }

  /** One column of fast_s_mp_sqr on top of the carry. */
  method SquareSum(a: MpInt, ix: nat, carry: Word) returns (w: Word)
    requires a.Wf() && a.used < 128 && ix < 2 * a.used && carry <= 0x10_0000_0000
    ensures w == carry + Col(a.dp, a.dp, a.used, a.used, ix)
  {
    hide Col, Stretch;
    var ty := Min(a.used - 1, ix);
    var tx := ix - ty;
    var iy := Min(a.used - tx, ty + 1);
    iy := Min(iy, (ty - tx + 1) / 2);
    w := HalfColumn(a, ix, tx, ty, iy);
    w := w + w + carry;
    if tx <= ty {
      SquareColumn(a.dp, a.used, ix, tx, ty, iy);
      EmptyStretch(a.dp, ix, tx);
    } else {
      LastColumn(a.dp, a.used, ix);
    }
    if ix % 2 == 0 {
      var x: int := a.dp[ix / 2];
      TermFits(x, x);
      w := w + x * x;
    }
  }

  lemma EmptyStretch(a: seq<int>, ix: nat, lo: nat)
    requires lo <= |a| && lo <= ix + 1 && ix - lo < |a|
    ensures Stretch(a, ix, lo, lo) == 0
  {
  }

  lemma LastColumn(a: seq<int>, n: nat, ix: nat)
    requires 0 < n <= |a| && ix == 2 * n - 1
    ensures Col(a, a, n, n, ix) == 0 && ix % 2 == 1
  {
    EmptyCol(a, a, n, ix);
    ColSkips(a, a, 0, n, n, ix);
  }

  method SquareColumns(a: MpInt) returns (W: seq<Digit>)
    requires a.Wf() && a.used < 128
    ensures |W| == MP_WARRAY && Digital(W, 2 * a.used) && Ev(W, 2 * a.used) == a.Mag() * a.Mag()
  {
    hide Ev, B, Col, Summed;
    var pa := a.used + a.used;
    W := seq(MP_WARRAY, i => 0);
    var W1: Word := 0;
    var ix := 0;
    SummedStart(W, a.dp, a.dp, a.used, a.used);
    while ix < pa
      invariant 0 <= ix <= pa && |W| == MP_WARRAY && Digital(W, ix) && W1 <= 0x10_0000_0000
      invariant Summed(W, W1, a.dp, a.dp, a.used, a.used, ix)
    {
      var acc := SquareSum(a, ix, W1);
      SummedStep(W, W1, a.dp, a.dp, a.used, a.used, ix, acc);
      W := W[ix := acc % BETA];
      W1 := acc / BETA;
      ix := ix + 1;
    }
    SummedDigits(W, W1, a.dp, a.dp, a.used, a.used, pa);
    AllColumns(a.dp, a.dp, a.used, a.used, pa);
  }

  /** fast_s_mp_sqr. */
  method CombaSqr(a: MpInt, b: MpInt)
    requires a.Valid() && b.Wf() && a.used < 128
    modifies b
    ensures b.Valid() && b.Mag() == old(a.Mag()) * old(a.Mag())
  {
    hide Ev, MpInt.Wf;
    var pa := a.used + a.used;
    var W := SquareColumns(a);
    b.Grow(pa);
    StoreColumns(b, W, pa, 0);
  }

  /** mp_sqr, in either build. */
  method Square(a: MpInt, b: MpInt, fast: bool)
    requires a.Valid() && b.Wf()
    modifies b
    ensures b.Valid() && b.Val() == old(a.Val()) * old(a.Val())
  {
    hide Ev, MpInt.Wf;
    if fast && a.used * 2 + 1 < MP_WARRAY && a.used < 128 {
      SignedProduct(a.Mag(), a.Mag());
      CombaSqr(a, b);
      b.neg := false;
    } else {
      Sqr(a, b);
    }
  }
}
