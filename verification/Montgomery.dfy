/** Montgomery arithmetic (the LTM_FAST build): the inverse of the modulus, the residue of the radix
    power, and the reduction that works on double-word columns. */
module Montgomery {
  import opened Arith
  import opened Digits
  import opened MpInts
  import opened AddSub
  import opened Shift
  import opened Mul
  import opened Div

  // ---------------------------------------------------------------- the inverse modulo the base

  ghost predicate Inverse(b: int, x: int, m: int)
  {
    m > 1 && (b * x) % m == 1
  }

  /** A Newton step squares the modulus of an inverse. */
  lemma NewtonStep(b: int, x: int, m: int)
    requires Inverse(b, x, m)
    ensures Inverse(b, x * (2 - b * x), m * m)
  {
    var k := (b * x) / m;
    DivModEq(b * x, m);
    MulLt(1, m, m);
    NewtonProduct(b, x, k, m);
    DivModUnique(b * (x * (2 - b * x)), m * m, -(k * k), 1);
  }

  lemma NewtonProduct(b: int, x: int, k: int, m: int)
    requires b * x == k * m + 1
    ensures b * (x * (2 - b * x)) == -(k * k) * (m * m) + 1
  {
    MulAssoc(b, x, 2 - b * x);
    assert (k * m + 1) * (1 - k * m) == 1 - (k * m) * (k * m);
    assert (k * m) * (k * m) == (k * k) * (m * m) by {
      MulAssoc(k, m, k * m);
      MulAssoc(m, k, m);
      MulAssoc(k, k, m * m);
    }
    assert -(k * k) * (m * m) == -((k * k) * (m * m));
  }

  /** The arithmetic is done in 32-bit words; that keeps inverses modulo powers of two up to 2^32. */
  lemma InverseWrapped(b: int, x: int, m: int)
    requires Inverse(b, x, m) && 0x1_0000_0000 % m == 0
    ensures Inverse(b, Wrap32(x), m)
  {
    var k, j := x / 0x1_0000_0000, 0x1_0000_0000 / m;
    DivModEq(x, 0x1_0000_0000);
    DivModEq(0x1_0000_0000, m);
    assert b * x == b * Wrap32(x) + b * (k * (j * m));
    assert b * (k * (j * m)) == (b * (k * j)) * m by {
      MulAssoc(k, j, m);
      MulAssoc(b, k * j, m);
    }
    ModAddMultiple(b * Wrap32(x), b * (k * j), m);
  }

  lemma FirstInverse(b: int)
    requires 0 <= b && b % 2 == 1
    ensures Inverse(b, (((b + 2) / 4) % 2) * 8 + b, 16)
  {
    var k, r := b / 8, b % 8;
    var s := if r == 3 || r == 5 then r + 8 else r;
    FirstInverseBit(k, r, b);
    OddProduct(k, r, s, (r + s) / 2, (r * s) / 16);
    DivModUnique((8 * k + r) * (8 * k + s), 16, 4 * (k * k) + ((r + s) / 2) * k + (r * s) / 16, 1);
  }

  lemma FirstInverseBit(k: int, r: int, b: int)
    requires b == 8 * k + r && (r == 1 || r == 3 || r == 5 || r == 7)
    ensures ((b + 2) / 4) % 2 == if r == 3 || r == 5 then 1 else 0
  {
  }

  lemma OddProduct(k: int, r: int, s: int, c: int, d: int)
    requires r + s == 2 * c && r * s == 16 * d + 1
    ensures (8 * k + r) * (8 * k + s) == (4 * (k * k) + c * k + d) * 16 + 1
  {
    assert (8 * k + r) * (8 * k + s) == 64 * (k * k) + 8 * ((r + s) * k) + r * s;
    assert (2 * c) * k == 2 * (c * k);
  }

  /** One Newton step in 32-bit arithmetic. */
  method Newton(b: Digit, x: Digit, ghost m: int) returns (y: Digit)
    requires Inverse(b, x, m) && 0x1_0000_0000 % (m * m) == 0
    ensures Inverse(b, y, m * m)
  {
    NewtonStep(b, x, m);
    y := Wrap32(x * (2 - b * x));
    InverseWrapped(b, x * (2 - b * x), m * m);
  }

  /** What the Montgomery constant satisfies. */
  ghost predicate NegInverse(rho: int, n: int)
  {
    0 <= rho < BETA && (rho * n + 1) % BETA == 0
  }

  /** mp_montgomery_setup: -1/n modulo the base, for odd n. */
  method MontgomerySetup(n: MpInt) returns (st: Status, rho: Digit)
    requires n.Valid()
    ensures st == Okay <==> n.Mag() % 2 == 1
    ensures st == Okay ==> NegInverse(rho, n.Mag())
  {
    hide Inverse;
    var b := n.dp[0];
    LowDigit(n);
    rho := 0;
    if b % 2 == 0 {
      return Invalid, 0;
    }
    FirstInverse(b);
    var x: Digit := (((b + 2) / 4) % 2) * 8 + b;
    x := Newton(b, x, 16);
    x := Newton(b, x, 256);
    x := Newton(b, x, 65536);
    rho := (BETA - x) % BETA;
    NegatedInverse(b, x, n.Mag());
    st := Okay;
  }

  lemma LowDigit(n: MpInt)
    requires n.Valid()
    ensures n.used <= |n.dp| && |n.dp| > 0
    ensures n.Mag() % BETA == n.dp[0] && n.Mag() % 2 == n.dp[0] % 2
  {
    if n.used > 0 {
      var z := EvSplit(n.dp, 1, n.used);
      assert Ev(n.dp, 1) == Ev(n.dp, 0) + n.dp[0] * B(0) && B(1) == BETA * B(0);
      DivModUnique(n.Mag(), BETA, z, n.dp[0]);
    }
  }

  lemma NegatedInverse(b: int, x: int, n: int)
    requires Inverse(b, x, 0x1_0000_0000) && n % BETA == b
    ensures NegInverse((BETA - x) % BETA, n)
  {
    var rho := (BETA - x) % BETA;
    var k := (b * x) / 0x1_0000_0000;
    DivModEq(b * x, 0x1_0000_0000);
    ModMod(BETA - x, BETA);
    ModMod(n, BETA);
    CongMul(rho, BETA - x, n, b, BETA);
    assert (BETA - x) * b == -1 + (b - 16 * k) * BETA;
    ModAddMultiple(-1, b - 16 * k, BETA);
    CongAdd(rho * n, -1, 1, 1, BETA);
    ModSmall(0, BETA);
  }

  // ---------------------------------------------------------------- the residue of the radix power

  /** mp_mul_2 in place: a = 2a. */
  method Double(a: MpInt)
    requires a.Valid()
    modifies a
    ensures a.Valid() && a.Mag() == 2 * old(a.Mag()) && a.neg == old(a.neg)
  {
    hide Ev, B;
    ghost var v := a.Mag();
    if a.used > 0 {
      MagRange(a);
    }
    a.Grow(a.used + 1);
    var r := DoubleDigits(a);
    if r != 0 {
      ghost var s := a.dp;
      a.dp := a.dp[a.used := 1];
      a.used := a.used + 1;
      NewTop(s, a.dp, a.used - 1);
    } else {
      DoubledClamped(a, v);
    }
  }

  lemma NewTop(s: seq<int>, t: seq<int>, n: nat)
    requires n < |s| && t == s[n := 1]
    ensures Ev(t, n + 1) == Ev(s, n) + B(n)
  {
    EvSame(s, t, n);
  }

  /** Without a carry the top digit stays nonzero. */
  lemma DoubledClamped(a: MpInt, v: int)
    requires a.Wf() && a.Mag() + 0 * B(a.used) == 2 * v
    requires a.used > 0 ==> v >= B(a.used - 1)
    ensures a.Clamped() && a.Mag() == 2 * v
  {
    if a.used > 0 && a.dp[a.used - 1] == 0 {
      EvBound(a.dp, a.used - 1);
    }
  }

  /** The doubling loop; r is the bit that falls out at the top. */
  method DoubleDigits(a: MpInt) returns (r: Digit)
    requires a.Wf()
    modifies a`dp
    ensures a.Wf() && |a.dp| == old(|a.dp|) && r <= 1
    ensures a.Mag() + r * B(a.used) == 2 * old(a.Mag())
  {
    hide Ev, B;
    ghost var s := a.dp;
    NoDigits(s);
    r := 0;
    var x := 0;
    while x < a.used
      invariant x <= a.used && |a.dp| == |s| && 0 <= r <= 1
      invariant forall k :: x <= k < |s| ==> a.dp[k] == s[k]
      invariant Digital(a.dp, |s|)
      invariant Ev(a.dp, x) + r * B(x) == 2 * Ev(s, x)
    {
      ghost var s0, r0 := a.dp, r;
      var rr := a.dp[x] / 0x800_0000;
      a.dp := a.dp[x := (2 * a.dp[x] + r) % BETA];
      r := rr;
      DoubledColumn(s, s0, a.dp, x, r0, r);
      x := x + 1;
    }
  }

  lemma NoDigits(s: seq<int>)
    ensures Ev(s, 0) == 0
  {
  }

  lemma DoubledColumn(s: seq<int>, s0: seq<int>, s1: seq<int>, x: nat, r0: int, r: int)
    requires x < |s| == |s0| == |s1| && 0 <= s[x] < BETA && 0 <= r0 <= 1
    requires Ev(s0, x) + r0 * B(x) == 2 * Ev(s, x)
    requires s1 == s0[x := (2 * s[x] + r0) % BETA] && r == s[x] / 0x800_0000
    ensures Ev(s1, x + 1) + r * B(x + 1) == 2 * Ev(s, x + 1)
  {
    ColumnSum(s, x);
    hide Ev, B;
    Column(s0, s1, x, r0, 2 * s[x], r);
    MulAssoc(2, s[x], B(x));
  }

  lemma ColumnSum(s: seq<int>, x: nat)
    requires x < |s|
    ensures Ev(s, x + 1) == Ev(s, x) + s[x] * B(x)
  {
  }

  /** The residue of 2^k below (or, for modulus 1, at) the modulus. */
  ghost predicate RadixResidue(v: int, k: nat, b: int)
  {
    b > 0 && 0 <= v <= b && (b > 1 ==> v < b) && v % b == Pow(2, k) % b
  }

  lemma ResidueDoubled(v: int, k: nat, b: int)
    requires RadixResidue(v, k, b)
    ensures RadixResidue(if 2 * v < b then 2 * v else 2 * v - b, k + 1, b)
  {
    CongScale(v, Pow(2, k), 2, b);
    ModAddMultiple(2 * v, -1, b);
  }

  /** The digit count and the bit count of a number agree. */
  lemma BitsRange(b: MpInt, c: nat)
    requires b.Valid() && b.used > 0 && c > 0 && Pow(2, c - 1) <= b.Mag() < Pow(2, c)
    ensures (b.used - 1) * DIGIT_BIT < c <= b.used * DIGIT_BIT
  {
    MagRange(b);
    BitsOfDigits(b.used);
    BitsOfDigits(b.used - 1);
    if c <= (b.used - 1) * DIGIT_BIT {
      TwoMono(c, (b.used - 1) * DIGIT_BIT);
    }
    if b.used * DIGIT_BIT <= c - 1 {
      TwoMono(b.used * DIGIT_BIT, c - 1);
    }
  }

  lemma TwoMono(m: nat, n: nat)
    requires m <= n
    ensures Pow(2, m) <= Pow(2, n)
  {
    PowAdd(2, m, n - m);
    MulLe(1, Pow(2, n - m), Pow(2, m));
  }

  /** Where the doubling starts: just below the leading bit of b. */
  lemma StartResidue(b: MpInt, c: nat, k: nat)
    requires b.Valid() && b.used > 1 && b.Mag() % 2 == 1 && c > 0 && Pow(2, c - 1) <= b.Mag() < Pow(2, c)
    requires k == (b.used - 1) * DIGIT_BIT + c % DIGIT_BIT - 1
    ensures RadixResidue(Pow(2, k), k, b.Mag())
  {
    BitsRange(b, c);
    TwoMono(k, c - 1);
    PowStep(2, c - 1);
    if c % DIGIT_BIT == 0 {
      TwoMono(k + 1, c - 1);
      PowStep(2, k + 1);
    }
  }

  /** mp_montgomery_calc_normalization: the residue of the radix power modulo the odd b. */
  method CalcNormalization(a: MpInt, b: MpInt)
    requires a.Valid() && b.Valid() && a != b && b.Mag() % 2 == 1
    modifies a
    ensures a.Valid() && !a.neg
    ensures 0 <= a.Mag() <= b.Mag() && (b.Mag() > 1 ==> a.Mag() < b.Mag())
    ensures a.Mag() % b.Mag() == B(b.used) % b.Mag()
  {
    hide Ev, B, MpInt.Wf, Pow, RadixResidue;
    var c := CountBits(b);
    var bits := c % DIGIT_BIT;
    ghost var k: nat := (b.used - 1) * DIGIT_BIT;
    if b.used > 1 {
      StartResidue(b, c, k + bits - 1);
      TwoExpt(a, (b.used - 1) * DIGIT_BIT + bits - 1);
    } else {
      a.Set(1);
      bits := 1;
      OneDigitResidue(b.Mag());
    }
    DoublingLoop(a, b, bits - 1, k + bits - 1);
    NormalizationDone(a.Mag(), b.used, b.Mag());
  }

  lemma OneDigitResidue(b: int)
    requires b > 0
    ensures RadixResidue(1, 0, b)
  {
  }

  lemma NormalizationDone(v: int, used: nat, b: int)
    requires used > 0 && RadixResidue(v, (used - 1) * DIGIT_BIT + DIGIT_BIT, b)
    ensures 0 <= v <= b && (b > 1 ==> v < b) && b > 0 && v % b == B(used) % b
  {
    BitsOfDigits(used);
  }

  method DoublingLoop(a: MpInt, b: MpInt, x0: int, ghost k0: nat)
    requires a.Valid() && b.Valid() && a != b && !a.neg && -1 <= x0 < DIGIT_BIT
    requires RadixResidue(a.Mag(), k0, b.Mag())
    modifies a
    ensures a.Valid() && !a.neg && RadixResidue(a.Mag(), k0 - x0 + DIGIT_BIT, b.Mag())
  {
    hide Ev, B, MpInt.Wf, Pow, RadixResidue;
    var x := x0;
    while x < DIGIT_BIT
      invariant x0 <= x <= DIGIT_BIT && a.Valid() && !a.neg
      invariant RadixResidue(a.Mag(), k0 - x0 + x, b.Mag())
    {
      ResidueDoubled(a.Mag(), k0 - x0 + x, b.Mag());
      Double(a);
      var cmp := CmpMag(a, b);
      if cmp != Lt {
        MagOrder(a, b);
        LowSub(a, b, a);
      }
      x := x + 1;
    }
  }

  // ---------------------------------------------------------------- the reduction

  /** How large the columns are after `rows` rows; column rows also holds a carry. */
  ghost predicate ColumnBound(W: seq<int>, rows: nat, n: nat)
    requires n <= |W|
  {
    forall k :: rows <= k < n ==> 0 <= W[k] <= rows * TERM + BETA + if k == rows then 0x10_0000_0000 else 0
  }

  /** The value of the columns not yet cleared. */
  ghost function Upper(W: seq<int>, ix: nat, n: nat): int
    requires ix <= n <= |W|
  {
    Ev(W, n) - Ev(W, ix)
  }

  method LoadColumns(x: MpInt, n: nat) returns (W: seq<Word>)
    requires x.Wf() && x.used <= 2 * n && 2 * n + 1 < MP_WARRAY
    ensures |W| == MP_WARRAY && ColumnBound(W, 0, 2 * n + 1) && Upper(W, 0, 2 * n + 1) == x.Mag()
  {
    hide Ev;
    // the array starts uninitialised
    assert |seq<Word>(MP_WARRAY, i => 0)| == MP_WARRAY;
    W :| |W| == MP_WARRAY;
    var ix := 0;
    while ix < x.used
      invariant ix <= x.used && |W| == MP_WARRAY && forall k :: 0 <= k < ix ==> W[k] == x.dp[k]
    {
      W := W[ix := x.dp[ix]];
      ix := ix + 1;
    }
    while ix < 2 * n + 1
      invariant x.used <= ix <= 2 * n + 1 && |W| == MP_WARRAY
      invariant forall k :: 0 <= k < x.used ==> W[k] == x.dp[k]
      invariant forall k :: x.used <= k < ix ==> W[k] == 0
    {
      W := W[ix := 0];
      ix := ix + 1;
    }
    Loaded(W, x.dp, x.used, 2 * n + 1);
  }

  lemma Loaded(W: seq<int>, s: seq<int>, used: nat, n: nat)
    requires used <= n <= |W| && used <= |s| && Digital(s, used)
    requires forall k :: 0 <= k < used ==> W[k] == s[k]
    requires forall k :: used <= k < n ==> W[k] == 0
    ensures ColumnBound(W, 0, n) && Upper(W, 0, n) == Ev(s, used)
  {
    EvSame(W, s, used);
    EvZeros(W, used, n);
  }

  /** The inner loop of a row: mu times the modulus is added to the columns from ix up. */
  method AddRow(W0: seq<Word>, mu: Digit, n: MpInt, ix: nat) returns (W: seq<Word>)
    requires n.Valid() && mu < BETA && |W0| == MP_WARRAY && ix < n.used && 2 * n.used + 1 < MP_WARRAY && n.used < 256
    requires ColumnBound(W0, ix, 2 * n.used + 1)
    ensures |W| == MP_WARRAY && forall k :: 0 <= k < ix ==> W[k] == W0[k]
    ensures W[ix] == W0[ix] + mu * n.dp[0]
    ensures forall k :: ix <= k < 2 * n.used + 1 ==> W0[k] <= W[k] <= W0[k] + TERM
    ensures Ev(W, 2 * n.used + 1) == Ev(W0, 2 * n.used + 1) + RowValue(mu, ix, n.dp, n.used)
  {
    hide Ev, B, RowValue, ColumnBound;
    W := W0;
    NoRow(mu, ix, n.dp);
    var iy := 0;
    while iy < n.used
      invariant 0 <= iy <= n.used && |W| == MP_WARRAY
      invariant forall k :: 0 <= k < |W| && !(ix <= k < ix + iy) ==> W[k] == W0[k]
      invariant forall k :: ix <= k < ix + iy ==> W0[k] <= W[k] <= W0[k] + TERM
      invariant iy > 0 ==> W[ix] == W0[ix] + mu * n.dp[0]
      invariant Ev(W, 2 * n.used + 1) == Ev(W0, 2 * n.used + 1) + RowValue(mu, ix, n.dp, iy)
    {
      TermFits(mu, n.dp[iy]);
      ColumnFits(W0, ix, 2 * n.used + 1, ix + iy);
      AddedColumn(W, mu, n.dp, ix, iy, 2 * n.used + 1);
      W := W[ix + iy := W[ix + iy] + mu * n.dp[iy]];
      iy := iy + 1;
    }
  }

  lemma ColumnFits(W: seq<int>, rows: nat, n: nat, k: nat)
    requires n <= |W| && ColumnBound(W, rows, n) && rows < 255 && rows <= k < n
    ensures 0 <= W[k] && W[k] + TERM < 0x1_0000_0000_0000_0000
  {
  }

  lemma NoRow(mu: int, ix: nat, s: seq<int>)
    ensures RowValue(mu, ix, s, 0) == 0
  {
  }

  lemma AddedColumn(W: seq<int>, mu: int, s: seq<int>, ix: nat, iy: nat, n: nat)
    requires iy < |s| && ix + iy < n <= |W|
    ensures Ev(W[ix + iy := W[ix + iy] + mu * s[iy]], n) - RowValue(mu, ix, s, iy + 1)
         == Ev(W, n) - RowValue(mu, ix, s, iy)
  {
    EvUpdate(W, ix + iy, W[ix + iy] + mu * s[iy], n);
    BAdd(ix, iy);
    RowTerm(0, mu, s[iy], B(ix), B(iy), Ev(s, iy));
  }

  /** The factor mu makes the lowest column a multiple of the base. */
  lemma ClearsColumn(w: int, rho: int, n0: int, n: int)
    requires 0 <= w && NegInverse(rho, n) && n % BETA == n0
    ensures (w + ((w % BETA) * rho) % BETA * n0) % BETA == 0
  {
    var l := w % BETA;
    var mu := (l * rho) % BETA;
    ModMod(l * rho, BETA);
    ModMod(n, BETA);
    CongMul(mu, l * rho, n0, n, BETA);
    MulAssoc(l, rho, n);
    ModMod(w, BETA);
    CongAdd(w, l, mu * n0, (l * rho) * n, BETA);
    ClearedSum(l, rho * n);
  }

  lemma ClearedSum(l: int, t: int)
    requires (t + 1) % BETA == 0
    ensures (l + l * t) % BETA == 0
  {
    var k := (t + 1) / BETA;
    DivModEq(t + 1, BETA);
    assert l + l * t == l * (t + 1);
    MulAssoc(l, k, BETA);
    DivModUnique(l + l * t, BETA, l * k, 0);
  }

  /** The carry fix-up after a row: column ix is done, its high part moves up. */
  lemma FixedCarry(W: seq<int>, ix: nat, n: nat)
    requires ix + 1 < n <= |W| && W[ix] % BETA == 0
    ensures Upper(W[ix + 1 := W[ix + 1] + W[ix] / BETA], ix + 1, n) == Upper(W, ix, n)
  {
    var v := W[ix + 1] + W[ix] / BETA;
    var V := W[ix + 1 := v];
    EvUpdate(W, ix + 1, v, n);
    EvSame(W, V, ix + 1);
    Carry(W[ix], 0, W[ix] / BETA, B(ix));
  }

  /** One row of fast_mp_montgomery_reduce. */
  method ReduceRow(W0: seq<Word>, n: MpInt, rho: Digit, ix: nat) returns (W: seq<Word>, ghost mu: int)
    requires n.Valid() && |W0| == MP_WARRAY && ix < n.used && 2 * n.used + 1 < MP_WARRAY && n.used < 256
    requires ColumnBound(W0, ix, 2 * n.used + 1) && NegInverse(rho, n.Mag())
    ensures |W| == MP_WARRAY && ColumnBound(W, ix + 1, 2 * n.used + 1) && 0 <= mu < BETA
    ensures Upper(W, ix + 1, 2 * n.used + 1) == Upper(W0, ix, 2 * n.used + 1) + RowValue(mu, ix, n.dp, n.used)
  {
    hide Ev, B, RowValue, ColumnBound, NegInverse, Upper, MpInt.Wf;
    LowDigit(n);
    NegInverseSmall(rho, n.Mag());
    var m: Digit := ((W0[ix] % BETA) * rho) % BETA;
    mu := m;
    ClearsColumn(W0[ix], rho, n.dp[0], n.Mag());
    var W1 := AddRow(W0, m, n, ix);
    RowUpper(W0, W1, ix, 2 * n.used + 1, RowValue(mu, ix, n.dp, n.used));
    FixedCarry(W1, ix, 2 * n.used + 1);
    CarryFits(W0, W1, ix, 2 * n.used + 1);
    W := W1[ix + 1 := W1[ix + 1] + W1[ix] / BETA];
  }

  lemma NegInverseSmall(rho: int, n: int)
    requires NegInverse(rho, n)
    ensures 0 <= rho < BETA
  {
  }

  lemma RowUpper(W0: seq<int>, W1: seq<int>, ix: nat, n: nat, row: int)
    requires ix <= n <= |W0| && n <= |W1| && forall k :: 0 <= k < ix ==> W1[k] == W0[k]
    requires Ev(W1, n) == Ev(W0, n) + row
    ensures Upper(W1, ix, n) == Upper(W0, ix, n) + row
  {
    EvSame(W0, W1, ix);
  }

  lemma CarryFits(W0: seq<int>, W1: seq<Word>, ix: nat, n: nat)
    requires ix + 1 < n <= |W0| && n <= |W1| && ix < 255 && ColumnBound(W0, ix, n)
    requires forall k :: ix <= k < n ==> W0[k] <= W1[k] <= W0[k] + TERM
    ensures 0 <= W1[ix + 1] + W1[ix] / BETA < 0x1_0000_0000_0000_0000
    ensures ColumnBound(W1[ix + 1 := W1[ix + 1] + W1[ix] / BETA], ix + 1, n)
  {
    assert W1[ix] < 0x1_0000_0000_0000_0000;
    assert 0 <= W1[ix] / BETA < 0x10_0000_0000;
    assert W0[ix + 1] <= ix * TERM + BETA;
  }

  /** All rows: a multiple of the modulus has been added that clears the low columns. */
  method ReduceRows(W0: seq<Word>, n: MpInt, rho: Digit) returns (W: seq<Word>, ghost q: int)
    requires n.Valid() && |W0| == MP_WARRAY && 2 * n.used + 1 < MP_WARRAY && n.used < 256
    requires ColumnBound(W0, 0, 2 * n.used + 1) && NegInverse(rho, n.Mag())
    ensures |W| == MP_WARRAY && ColumnBound(W, n.used, 2 * n.used + 1) && 0 <= q < B(n.used)
    ensures Upper(W, n.used, 2 * n.used + 1) == Upper(W0, 0, 2 * n.used + 1) + q * n.Mag()
  {
    hide Ev, B, RowValue, ColumnBound, NegInverse, Upper, MpInt.Wf;
    W := W0;
    q := 0;
    BZero();
    LowDigit(n);
    var ix := 0;
    while ix < n.used
      invariant 0 <= ix <= n.used && |W| == MP_WARRAY && ColumnBound(W, ix, 2 * n.used + 1) && 0 <= q < B(ix)
      invariant Upper(W, ix, 2 * n.used + 1) == Upper(W0, 0, 2 * n.used + 1) + q * n.Mag()
    {
      ghost var mu;
      W, mu := ReduceRow(W, n, rho, ix);
      NextMultiple(q, mu, ix, n.dp, n.used);
      q := q + mu * B(ix);
      ix := ix + 1;
    }
  }

  lemma BZero()
    ensures B(0) == 1
  {
  }

  lemma NextMultiple(q: int, mu: int, ix: nat, s: seq<int>, n: nat)
    requires n <= |s| && 0 <= mu < BETA && 0 <= q < B(ix)
    ensures (q + mu * B(ix)) * Ev(s, n) == q * Ev(s, n) + RowValue(mu, ix, s, n)
    ensures 0 <= q + mu * B(ix) < B(ix + 1)
  {
    DigitBelow(mu, B(ix));
    assert (q + mu * B(ix)) * Ev(s, n) == q * Ev(s, n) + (mu * B(ix)) * Ev(s, n);
  }

  // ---------------------------------------------------------------- carries and copying out

  /** The columns as digits: each keeps its low 28 bits and carries the rest. */
  ghost predicate Carried(V: seq<int>, U: seq<int>, n: nat)
    requires n < |V| && n < |U|
  {
    U[0] == V[0] && forall k :: 0 <= k < n ==> U[k + 1] == V[k + 1] + U[k] / BETA
  }

  ghost function LowDigits(U: seq<int>): (d: seq<int>)
    ensures |d| == |U| && forall k :: 0 <= k < |U| ==> d[k] == U[k] % BETA
  {
    seq(|U|, k requires 0 <= k < |U| => U[k] % BETA)
  }

  lemma {:induction false} CarriedValue(V: seq<int>, U: seq<int>, k: nat, n: nat)
    requires k <= n < |V| && n < |U| && Carried(V, U, n)
    ensures Ev(LowDigits(U), k) + U[k] * B(k) == Ev(V, k + 1)
  {
    hide Ev, B;
    EvTwo(V, k);
    if k > 0 {
      CarriedValue(V, U, k - 1, n);
      EvTwo(LowDigits(U), k - 1);
      CarriedTerm(U[k - 1], V[k], B(k - 1));
    } else {
      BZero();
      NoDigits(V);
      NoDigits(LowDigits(U));
    }
  }

  lemma CarriedTerm(u: int, v: int, p: int)
    ensures (u % BETA) * p + (v + u / BETA) * (BETA * p) == u * p + v * (BETA * p)
  {
    DivModEq(u, BETA);
    Carry(u, u % BETA, u / BETA, p);
    assert (v + u / BETA) * (BETA * p) == v * (BETA * p) + (u / BETA) * (BETA * p);
  }

  /** When the value fits, the digits are the value. */
  lemma CarriedDigits(V: seq<int>, U: seq<int>, n: nat)
    requires n < |V| && n < |U| && Carried(V, U, n) && 0 <= Ev(V, n + 1) < B(n + 1) && U[n] >= 0
    ensures Ev(LowDigits(U), n + 1) == Ev(V, n + 1)
  {
    CarriedValue(V, U, n, n);
    EvBound(LowDigits(U), n);
    if U[n] >= BETA {
      MulLe(BETA, U[n], B(n));
    }
    ModSmall(U[n], BETA);
  }

  /** The last carry loop; the word above the columns is uninitialised and only wraps around. */
  method FinalCarries(W0: seq<Word>, n: nat) returns (W: seq<Word>)
    requires |W0| == MP_WARRAY && 2 * n + 1 < MP_WARRAY && 0 < n < 256 && ColumnBound(W0, n, 2 * n + 1)
    ensures |W| == MP_WARRAY && Carried(W0[n..2 * n + 1], W[n..2 * n + 1], n)
  {
    hide ColumnBound;
    W := W0;
    var ix := n + 1;
    while ix <= 2 * n + 1
      invariant n + 1 <= ix <= 2 * n + 2 && |W| == MP_WARRAY
      invariant forall k :: 0 <= k < |W| && !(n < k < ix) ==> W[k] == W0[k]
      invariant forall k :: n < k < ix && k <= 2 * n ==> W[k] == W0[k] + W[k - 1] / BETA
    {
      if ix <= 2 * n {
        UpperColumnFits(W0, n, ix);
      }
      W := W[ix := (W[ix] + W[ix - 1] / BETA) % 0x1_0000_0000_0000_0000];
      ix := ix + 1;
    }
    CarriedSlices(W0, W, n);
  }

  lemma CarriedSlices(W0: seq<int>, W: seq<int>, n: nat)
    requires 2 * n + 1 <= |W0| == |W| && W[n] == W0[n]
    requires forall k :: n < k <= 2 * n ==> W[k] == W0[k] + W[k - 1] / BETA
    ensures Carried(W0[n..2 * n + 1], W[n..2 * n + 1], n)
  {
    var V, U := W0[n..2 * n + 1], W[n..2 * n + 1];
    forall k | 0 <= k < n
      ensures U[k + 1] == V[k + 1] + U[k] / BETA
    {
      assert U[k + 1] == W[n + k + 1] && V[k + 1] == W0[n + k + 1] && U[k] == W[n + k];
    }
  }

  lemma UpperColumnFits(W: seq<int>, n: nat, k: nat)
    requires n < 256 && n < k <= 2 * n && 2 * n + 1 <= |W| && ColumnBound(W, n, 2 * n + 1)
    ensures 0 <= W[k] && W[k] + 0x10_0000_0000 < 0x1_0000_0000_0000_0000
  {
  }

  /** The digits of the result go into x, the digits above are cleared. */
  method CopyOut(x: MpInt, W: seq<Word>, n: nat)
    requires x.Wf() && n + 1 <= |x.dp| && |W| == MP_WARRAY && 2 * n + 1 < MP_WARRAY
    modifies x
    ensures x.Valid() && x.Mag() == Ev(LowDigits(W[n..2 * n + 1]), n + 1) && (x.used > 0 ==> x.neg == old(x.neg))
  {
    hide Ev;
    var olduse := x.used;
    ghost var s := x.dp;
    var ix := 0;
    while ix < n + 1
      invariant 0 <= ix <= n + 1 && |x.dp| == |s| && x.neg == old(x.neg)
      invariant forall k :: 0 <= k < |s| ==> x.dp[k] == if k < ix then W[n + k] % BETA else s[k]
    {
      x.dp := x.dp[ix := W[n + ix] % BETA];
      ix := ix + 1;
    }
    ClearDigits(x, ix, olduse);
    x.used := n + 1;
    EvSame(x.dp, LowDigits(W[n..2 * n + 1]), n + 1);
    x.Clamp();
  }

  /** What one Montgomery reduction delivers: x times the inverse of the radix power. */
  ghost predicate Reduced(r: int, x: int, n: int, k: nat)
  {
    n > 0 && 0 <= r < n && (r * B(k)) % n == x % n
  }

  /** fast_mp_montgomery_reduce: for x up to n times the radix power. */
  method MontgomeryReduce(x: MpInt, n: MpInt, rho: Digit)
    requires x.Valid() && n.Valid() && x != n && !x.neg && !n.neg && n.used > 0
    requires 2 * n.used + 1 < MP_WARRAY && n.used < 256 && NegInverse(rho, n.Mag())
    requires x.Mag() < n.Mag() * B(n.used)
    modifies x
    ensures x.Valid() && !x.neg && Reduced(x.Val(), old(x.Val()), n.Val(), n.used)
  {
    hide Ev, B, NegInverse, MpInt.Wf, Reduced;
    ghost var v := x.Mag();
    InputFits(x, n);
    ghost var t, q := ReduceToDouble(x, n, rho);
    var cmp := CmpMag(x, n);
    if cmp != Lt {
      MagOrder(x, n);
      LowSub(x, n, x);
    }
    ModAddMultiple(v, q, n.Mag());
    LessOneModulus(t, n.Mag(), B(n.used));
    IsReduced(x.Mag(), v, n.Mag(), n.used);
  }

  /** The column work: the quotient t, still up to twice the modulus, is in x. */
  method ReduceToDouble(x: MpInt, n: MpInt, rho: Digit) returns (ghost t: int, ghost q: int)
    requires x.Valid() && n.Valid() && x != n && !x.neg && x.used <= 2 * n.used
    requires 0 < n.used && 2 * n.used + 1 < MP_WARRAY && n.used < 256 && NegInverse(rho, n.Mag())
    requires x.Mag() < n.Mag() * B(n.used) && 0 < n.Mag() < B(n.used)
    modifies x
    ensures x.Valid() && !x.neg && x.Mag() == t && 0 <= t < 2 * n.Mag()
    ensures t * B(n.used) == old(x.Mag()) + q * n.Mag()
  {
    hide Ev, B, ColumnBound, NegInverse, Upper, MpInt.Wf, Carried, LowDigits;
    ghost var v, k := x.Mag(), n.used;
    x.Grow(n.used + 1);
    var W := LoadColumns(x, n.used);
    W, q := ReduceRows(W, n, rho);
    t := QuotientOfColumns(W, k, v, q, n.Mag());
    var U := FinalCarries(W, n.used);
    DigitsOfQuotient(W, U, k, t, v, q, n.Mag());
    CopyOut(x, U, n.used);
  }

  lemma InputFits(x: MpInt, n: MpInt)
    requires x.Valid() && n.Valid() && n.used > 0 && x.Mag() < n.Mag() * B(n.used)
    ensures x.used <= 2 * n.used && 0 < n.Mag() < B(n.used)
  {
    MagRange(n);
    MulLe(n.Mag(), B(n.used), B(n.used));
    BAdd(n.used, n.used);
    UsedAtMost(x, 2 * n.used);
  }

  /** The columns above the cleared ones hold the quotient by the radix power. */
  lemma QuotientOfColumns(W: seq<int>, k: nat, v: int, q: int, n: int) returns (t: int)
    requires 2 * k + 1 <= |W| && Upper(W, k, 2 * k + 1) == v + q * n
    ensures t == Ev(W[k..2 * k + 1], k + 1) && t * B(k) == v + q * n
  {
    hide Ev, B;
    t := Ev(W[k..2 * k + 1], k + 1);
    EvShift(W[k..2 * k + 1], W, k, k + 1);
  }

  /** It is below 2n, so one digit more than n has is enough, and no carry is lost. */
  lemma DigitsOfQuotient(W: seq<int>, U: seq<Word>, k: nat, t: int, v: int, q: int, n: int)
    requires 0 < k && 2 * k + 1 <= |W| == |U| && Carried(W[k..2 * k + 1], U[k..2 * k + 1], k)
    requires t == Ev(W[k..2 * k + 1], k + 1) && t * B(k) == v + q * n
    requires 0 <= v < n * B(k) && 0 <= q < B(k) && 0 < n < B(k)
    ensures Ev(LowDigits(U[k..2 * k + 1]), k + 1) == t && 0 <= t < 2 * n
  {
    hide Ev, Carried, LowDigits;
    TwiceModulus(t, v, q, n, B(k));
    assert B(k + 1) == BETA * B(k);
    CarriedDigits(W[k..2 * k + 1], U[k..2 * k + 1], k);
  }

  lemma TwiceModulus(t: int, v: int, q: int, n: int, p: int)
    requires t * p == v + q * n && 0 <= v < n * p && 0 <= q < p && 0 < n
    ensures 0 <= t < 2 * n
  {
    MulLt(q, p, n);
    MulLe(0, q, n);
    assert p * n == n * p;
    assert (2 * n) * p == n * p + n * p;
    MulCancelLt(t, 2 * n, p);
    if t < 0 {
      MulLe(t, -1, p);
    }
  }

  /** Subtracting the modulus once changes nothing modulo the modulus. */
  lemma LessOneModulus(t: int, n: int, p: int)
    requires 0 < n
    ensures ((t - n) * p) % n == (t * p) % n
  {
    assert (t - n) * p == t * p + (-p) * n;
    ModAddMultiple(t * p, -p, n);
  }

  lemma IsReduced(r: int, x: int, n: int, k: nat)
    requires 0 <= r < n && (r * B(k)) % n == x % n
    ensures Reduced(r, x, n, k)
  {
  }
}
