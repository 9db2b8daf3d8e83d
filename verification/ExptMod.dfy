/** Modular exponentiation with a sliding window over the exponent bits; the reduction is Barrett's or
    Montgomery's. */
module ExptMod {
  import opened Arith
  import opened Digits
  import opened MpInts
  import opened Shift
  import opened Comba
  import opened Div
  import opened HacDiv
  import opened Barrett
  import opened Montgomery
  import opened Redux

  /** The register stands for the e-th power of g modulo p, times the radix r. Before the first
      reduction it may reach p, afterwards it is below. */
  ghost predicate Register(v: int, g: int, e: nat, p: int, r: int)
  {
    p > 0 && 0 <= v <= p && v % p == (Pow(g, e) * r) % p && (e > 0 ==> v < p)
  }

  ghost predicate Holds(f: MpInt, g: int, e: nat, P: MpInt, rd: Reducer)
    reads f, P
    requires P.Valid()
  {
    f.Valid() && Register(f.Val(), g, e, P.Val(), rd.Radix(P.used))
  }

  lemma HoldsSize(f: MpInt, g: int, e: nat, P: MpInt, rd: Reducer)
    requires P.Valid() && Holds(f, g, e, P, rd)
    ensures f.Valid() && !f.neg && 0 <= f.Val() <= P.Val()
  {
  }

  /** The product of two registers with one radix divided out is a register for the sum. */
  lemma RegisterTimes(v: int, w: int, z: int, g: int, d: nat, e: nat, rd: Reducer, P: MpInt)
    requires rd.Ready(P)
    requires Register(v, g, d, P.Val(), rd.Radix(P.used)) && Register(w, g, e, P.Val(), rd.Radix(P.used))
    requires 0 <= z < P.Val() && (z * rd.Radix(P.used)) % P.Val() == (v * w) % P.Val()
    ensures Register(z, g, d + e, P.Val(), rd.Radix(P.used))
  {
    hide Pow;
    var p, r := P.Val(), rd.Radix(P.used);
    CongMul(v, Pow(g, d) * r, w, Pow(g, e) * r, p);
    PowAdd(g, d, e);
    RadixRegroup(Pow(g, d), Pow(g, e), r);
    CancelRadix(z, Pow(g, d + e) * r, rd, P);
  }

  lemma RadixRegroup(x: int, y: int, r: int)
    ensures (x * r) * (y * r) == ((x * y) * r) * r
  {
    MulAssoc(x * r, y, r);
    MulAssoc(x, r, y);
    MulAssoc(x, y, r);
  }

  lemma ProductFitsRegister(v: int, w: int, p: int)
    requires 0 <= v <= p && 0 <= w <= p
    ensures 0 <= v * w <= p * p
  {
    MulLe(0, v, w);
    MulLe(v, p, w);
    MulLe(w, p, p);
  }

  /** res = res * f, reduced. */
  method MultiplyReduce(res: MpInt, f: MpInt, P: MpInt, rd: Reducer, ghost g: int, ghost d: nat, ghost e: nat)
    requires rd.Ready(P) && res != P && f != P && res !in rd.Footprint() && f !in rd.Footprint()
    requires Holds(res, g, d, P, rd) && Holds(f, g, e, P, rd)
    modifies res
    ensures Holds(res, g, d + e, P, rd)
  {
    hide Ev, B, MpInt.Wf, Register, Precomputed, NegInverse;
    ghost var v, w := res.Val(), f.Val();
    HoldsSize(res, g, d, P, rd);
    HoldsSize(f, g, e, P, rd);
    ProductFitsRegister(v, w, P.Val());
    Multiply(res, f, res, rd.Fast());
    Apply(rd, res, P);
    RegisterTimes(v, w, res.Val(), g, d, e, rd, P);
  }

  /** res = res * res, reduced. */
  method SquareReduce(res: MpInt, P: MpInt, rd: Reducer, ghost g: int, ghost e: nat)
    requires rd.Ready(P) && res != P && res !in rd.Footprint() && Holds(res, g, e, P, rd)
    modifies res
    ensures Holds(res, g, 2 * e, P, rd)
  {
    hide Ev, B, MpInt.Wf, Register, Precomputed, NegInverse;
    ghost var v := res.Val();
    HoldsSize(res, g, e, P, rd);
    ProductFitsRegister(v, v, P.Val());
    Square(res, res, rd.Fast());
    Apply(rd, res, P);
    RegisterTimes(v, v, res.Val(), g, e, e, rd, P);
  }

  /** n squarings in a row. */
  method SquareTimes(res: MpInt, n: nat, P: MpInt, rd: Reducer, ghost g: int, ghost e: nat)
    requires rd.Ready(P) && res != P && res !in rd.Footprint() && Holds(res, g, e, P, rd)
    modifies res
    ensures Holds(res, g, e * Pow(2, n), P, rd)
  {
    hide Holds, Precomputed, NegInverse;
    var x := 0;
    assert e * Pow(2, 0) == e;
    while x < n
      invariant 0 <= x <= n && rd.Ready(P) && Holds(res, g, e * Pow(2, x), P, rd)
    {
      SquareReduce(res, P, rd, g, e * Pow(2, x));
      assert 2 * (e * Pow(2, x)) == e * Pow(2, x + 1);
      x := x + 1;
    }
  }

  /** The table cell x holds the x-th power of g. */
  ghost predicate Cell(f: MpInt?, g: int, x: nat, P: MpInt, rd: Reducer)
    reads f, P
    requires P.Valid()
  {
    f != null && Holds(f, g, x, P, rd)
  }

  const TAB_SIZE: nat := 32

  /** The filled part of the table for window size w: cell 1 and the upper half. */
  ghost predicate Table(M: seq<MpInt?>, w: nat, g: int, P: MpInt, rd: Reducer)
    reads M, P
    requires P.Valid()
  {
    && |M| == TAB_SIZE && w >= 1 && Pow(2, w) <= TAB_SIZE
    && Cell(M[1], g, 1, P, rd)
    && forall x :: Pow(2, w - 1) <= x < Pow(2, w) ==> Cell(M[x], g, x, P, rd)
  }

  /** No table cell is one of the objects that must survive. */
  ghost predicate Apart(M: seq<MpInt?>, res: MpInt, P: MpInt, rd: Reducer)
  {
    forall i :: 0 <= i < |M| && M[i] != null ==> M[i] != P && M[i] != res && M[i] !in rd.Footprint()
  }

  /** The window size for an exponent of x bits; low-memory builds stop at 5. */
  function WindowSize(x: nat): (w: nat)
    ensures 2 <= w <= 5
  {
    var winsize :=
      if x <= 7 then 2
      else if x <= 36 then 3
      else if x <= 140 then 4
      else if x <= 450 then 5
      else if x <= 1303 then 6
      else if x <= 3529 then 7
      else 8;
    if winsize > 5 then 5 else winsize
  }

  lemma WindowPowers(w: nat)
    requires 2 <= w <= 5
    ensures 2 <= Pow(2, w - 1) && Pow(2, w) == 2 * Pow(2, w - 1) <= TAB_SIZE
  {
    assert Pow(2, 5) == 32 && Pow(2, 4) == 16 && Pow(2, 3) == 8 && Pow(2, 2) == 4 && Pow(2, 1) == 2;
  }

  /** M[1] from the given first power, and M[2^(w-1)] from it by squaring w - 1 times. */
  method BaseCell(one: MpInt, P: MpInt, rd: Reducer, w: nat, ghost g: int) returns (base: MpInt)
    requires rd.Ready(P) && Holds(one, g, 1, P, rd) && one != P && 2 <= w <= 5
    ensures fresh(base) && Holds(base, g, Pow(2, w - 1), P, rd)
  {
    hide Ev, B, MpInt.Wf, Register, Precomputed, NegInverse;
    ReadyModulus(P, rd);
    base := new MpInt();
    Copy(one, base);
    SquareTimes(base, w - 1, P, rd, g, 1);
    assert 1 * Pow(2, w - 1) == Pow(2, w - 1);
  }

  method NextCell(f: MpInt?, one: MpInt?, P: MpInt, rd: Reducer, ghost g: int, ghost x: nat) returns (next: MpInt)
    requires rd.Ready(P) && Cell(f, g, x, P, rd) && Cell(one, g, 1, P, rd)
    ensures fresh(next) && Cell(next, g, x + 1, P, rd)
  {
    hide Ev, B, MpInt.Wf, Register, Precomputed, NegInverse;
    HoldsSize(f, g, x, P, rd);
    HoldsSize(one, g, 1, P, rd);
    ProductFitsRegister(f.Val(), one.Val(), P.Val());
    next := new MpInt();
    Multiply(f, one, next, rd.Fast());
    Apply(rd, next, P);
    RegisterTimes(f.Val(), one.Val(), next.Val(), g, x, 1, rd, P);
  }

  /** The table: M[1], M[2^(w-1)] by squaring, and from there up by multiplying with M[1]. */
  method BuildTable(one: MpInt, P: MpInt, rd: Reducer, w: nat, ghost g: int) returns (M: seq<MpInt?>)
    requires rd.Ready(P) && Holds(one, g, 1, P, rd) && one != P && 2 <= w <= 5
    ensures Table(M, w, g, P, rd)
    ensures forall i :: 0 <= i < |M| && M[i] != null ==> M[i] == one || fresh(M[i])
    ensures forall i :: 0 <= i < |M| && M[i] != null ==> i == 1 || Pow(2, w - 1) <= i < Pow(2, w)
  {
    hide Cell, Holds, Precomputed, NegInverse, MpInt.Wf;
    WindowPowers(w);
    ReadyModulus(P, rd);
    HoldsIsCell(one, g, 1, P, rd);
    var base := BaseCell(one, P, rd, w, g);
    HoldsIsCell(base, g, Pow(2, w - 1), P, rd);
    var half := Pow(2, w - 1);
    M := seq(TAB_SIZE, i => null)[1 := one][half := base];
    var x := half + 1;
    while x < Pow(2, w)
      invariant half < x <= Pow(2, w) && |M| == TAB_SIZE && M[1] == one
      invariant Cell(one, g, 1, P, rd)
      invariant forall i :: half <= i < x ==> Cell(M[i], g, i, P, rd)
      invariant forall i :: 0 <= i < |M| && M[i] != null ==> M[i] == one || fresh(M[i])
      invariant forall i :: 0 <= i < |M| && M[i] != null ==> i == 1 || half <= i < x
    {
      var next := NextCell(M[x - 1], one, P, rd, g, x - 1);
      M := M[x := next];
      x := x + 1;
    }
  }

  lemma HoldsIsCell(f: MpInt?, g: int, x: nat, P: MpInt, rd: Reducer)
    requires P.Valid()
    ensures Cell(f, g, x, P, rd) <==> f != null && Holds(f, g, x, P, rd)
  {
  }

  // ---------------------------------------------------------------- reading the exponent bits

  /** The reader has consumed the top bits of x as the number e; t whole digits and the low n bits of
      digit t (as `low`) are still to come. */
  ghost predicate Reading(x: seq<int>, used: nat, e: nat, t: nat, n: nat, low: nat)
    requires used <= |x|
  {
    && t <= used && n <= DIGIT_BIT && low < Pow(2, n)
    && Ev(x, used) == (e * Pow(2, n) + low) * B(t) + Ev(x, t)
  }

  /** The machine word from which the n unread bits are shifted out at the top of a digit. */
  ghost predicate Buffered(buf: int, n: nat, low: nat)
  {
    n <= DIGIT_BIT && 0 <= buf && buf % BETA == low * Pow(2, DIGIT_BIT - n)
  }

  lemma StartReading(x: seq<int>, used: nat)
    requires used <= |x|
    ensures Reading(x, used, 0, used, 0, 0) && Buffered(0, 0, 0)
  {
    assert (0 * Pow(2, 0) + 0) * B(used) == 0;
    ModSmall(0, BETA);
    assert 0 * Pow(2, DIGIT_BIT - 0) == 0;
  }

  lemma NextDigit(x: seq<int>, used: nat, e: nat, t: nat, low: nat)
    requires used <= |x| && Digital(x, |x|) && t > 0 && Reading(x, used, e, t, 0, low)
    ensures Reading(x, used, e, t - 1, DIGIT_BIT, x[t - 1]) && Buffered(x[t - 1], DIGIT_BIT, x[t - 1])
  {
    PowTwo28();
    assert Pow(2, 0) == 1;
    var b, d := B(t - 1), x[t - 1];
    assert e * (BETA * b) + d * b == (e * BETA + d) * b by { MulAssoc(e, BETA, b); }
    ModSmall(d, BETA);
    assert d * Pow(2, 0) == d;
  }

  lemma NextBit(x: seq<int>, used: nat, e: nat, t: nat, n: nat, low: nat, buf: int) returns (rest: nat)
    requires used <= |x| && n > 0 && Reading(x, used, e, t, n, low) && Buffered(buf, n, low)
    ensures var y := (buf / 0x800_0000) % 2;
            Reading(x, used, 2 * e + y, t, n - 1, rest) && Buffered(Wrap32(2 * buf), n - 1, rest)
  {
    hide Reading;
    var y;
    y, rest := BufferBit(buf, n, low) by { SmallEnough(x, used, e, t, n, low); }
    ReadBit(x, used, e, t, n, low, y, rest) by { SmallEnough(x, used, e, t, n, low); }
  }

  lemma SmallEnough(x: seq<int>, used: nat, e: nat, t: nat, n: nat, low: nat)
    requires used <= |x| && Reading(x, used, e, t, n, low)
    ensures low < Pow(2, n)
  {
  }

  lemma BufferBit(buf: int, n: nat, low: nat) returns (y: nat, rest: nat)
    requires n > 0 && Buffered(buf, n, low) && low < Pow(2, n)
    ensures y <= 1 && low == y * Pow(2, n - 1) + rest && rest < Pow(2, n - 1)
    ensures (buf / 0x800_0000) % 2 == y && Buffered(Wrap32(2 * buf), n - 1, rest)
  {
    hide Pow;
    var h, q := Pow(2, n - 1), Pow(2, DIGIT_BIT - n);
    PowAdd(2, n - 1, DIGIT_BIT - n);
    PowTwo27();
    PowStep(2, n);
    PowStep(2, DIGIT_BIT - (n - 1));
    y := TopBit(low, h, q);
    rest := low - y * h;
    BitOfWord(buf, y, rest * q);
    DoubledFactor(rest, q);
  }

  lemma DoubledFactor(x: int, y: int)
    ensures x * (2 * y) == 2 * (x * y)
  {
  }

  lemma ReadBit(x: seq<int>, used: nat, e: nat, t: nat, n: nat, low: nat, y: nat, rest: nat)
    requires used <= |x| && n > 0 && Reading(x, used, e, t, n, low)
    requires low == y * Pow(2, n - 1) + rest && rest < Pow(2, n - 1)
    ensures Reading(x, used, 2 * e + y, t, n - 1, rest)
  {
    hide Ev, B, Pow;
    PowStep(2, n);
    BitMoves(e, y, Pow(2, n - 1), rest);
  }

  lemma BitMoves(e: int, y: int, h: int, rest: int)
    ensures e * (2 * h) + (y * h + rest) == (2 * e + y) * h + rest
  {
  }

  lemma PowTwo27()
    ensures Pow(2, 27) == 0x800_0000
  {
    PowTwo28();
    assert Pow(2, 28) == 2 * Pow(2, 27);
  }

  lemma TopBit(low: int, h: int, q: int) returns (y: int)
    requires 0 <= low < 2 * h && h * q == 0x800_0000 && q > 0
    ensures y == 0 || y == 1
    ensures 0 <= low - y * h < h && low * q == y * 0x800_0000 + (low - y * h) * q
    ensures 0 <= (low - y * h) * q < 0x800_0000
  {
    y := if low >= h then 1 else 0;
    var rest := low - y * h;
    MulLe(0, rest, q);
    MulLe(rest + 1, h, q);
    assert (rest + 1) * q == rest * q + q;
    assert (h + rest) * q == h * q + rest * q;
  }

  lemma BitOfWord(buf: int, y: int, r: int)
    requires 0 <= buf && buf % BETA == y * 0x800_0000 + r && 0 <= r < 0x800_0000 && 0 <= y <= 1
    ensures (buf / 0x800_0000) % 2 == y && Wrap32(2 * buf) % BETA == 2 * r
  {
    var k := buf / BETA;
    DivModUnique(buf, 0x800_0000, 2 * k + y, r);
    DivModUnique(2 * k + y, 2, k, y);
    DivModEq(2 * buf, 0x1_0000_0000);
    DivModUnique(Wrap32(2 * buf), BETA, 2 * k + y - 16 * ((2 * buf) / 0x1_0000_0000), 2 * r);
  }

  // ---------------------------------------------------------------- the window

  /** The state between two exponent bits. `total` is the number the bits read so far stand for, e the
      exponent already in the register, and the bitcpy bits of the open window, as the number w0, are
      kept left-aligned in bitbuf. */
  ghost predicate Window(mode: int, bitcpy: nat, bitbuf: nat, w: nat, total: nat, e: nat, w0: nat)
  {
    && bitcpy < w && w0 < Pow(2, bitcpy) && total == e * Pow(2, bitcpy) + w0
    && bitbuf == w0 * Pow(2, w - bitcpy)
    && (mode == 0 <==> total == 0) && (mode == 0 ==> bitcpy == 0)
    && (mode == 1 ==> bitcpy == 0)
    && (mode == 2 ==> 1 <= bitcpy && Pow(2, bitcpy - 1) <= w0)
    && (mode == 0 || mode == 1 || mode == 2)
  }

  lemma WindowStart(w: nat)
    requires w > 0
    ensures Window(0, 0, 0, w, 0, 0, 0)
  {
    assert 0 * Pow(2, 0) == 0 && 0 * Pow(2, w) == 0;
  }

  /** A zero bit outside a window. */
  lemma WindowZero(mode: int, bitcpy: nat, bitbuf: nat, w: nat, total: nat, e: nat, w0: nat)
    requires Window(mode, bitcpy, bitbuf, w, total, e, w0) && mode != 2
    ensures mode == 0 ==> Window(0, bitcpy, bitbuf, w, 2 * total, e, w0)
    ensures mode == 1 ==> Window(1, bitcpy, bitbuf, w, 2 * total, 2 * e, w0)
  {
    assert Pow(2, 0) == 1;
  }

  /** One more bit joins the window. */
  lemma WindowBit(mode: int, bitcpy: nat, bitbuf: nat, w: nat, total: nat, e: nat, w0: nat, y: nat)
    requires Window(mode, bitcpy, bitbuf, w, total, e, w0) && y <= 1 && (mode == 0 || mode == 1 ==> y == 1)
    ensures bitcpy < w
    ensures var w1 := 2 * w0 + y;
            && w1 < Pow(2, bitcpy + 1) && Pow(2, bitcpy) <= w1 && 2 * total + y > 0
            && 2 * total + y == e * Pow(2, bitcpy + 1) + w1
            && bitbuf + y * Pow(2, w - bitcpy - 1) == w1 * Pow(2, w - bitcpy - 1)
  {
    hide Pow;
    PowStep(2, w - bitcpy);
    PowStep(2, bitcpy + 1);
    PowZero(2);
    if bitcpy > 0 {
      PowStep(2, bitcpy);
    }
    BitJoins(e, Pow(2, bitcpy), w0, y, Pow(2, w - bitcpy - 1));
  }

  lemma BitJoins(e: int, h: int, w0: int, y: int, p: int)
    ensures w0 * (2 * p) + y * p == (2 * w0 + y) * p
    ensures e * (2 * h) == 2 * (e * h)
  {
  }

  lemma WindowAfterBit(bitcpy: nat, bitbuf: nat, w: nat, total: nat, e: nat, w1: nat)
    requires 0 < bitcpy < w && w1 < Pow(2, bitcpy) && Pow(2, bitcpy - 1) <= w1
    requires total == e * Pow(2, bitcpy) + w1 && total > 0 && bitbuf == w1 * Pow(2, w - bitcpy)
    ensures Window(2, bitcpy, bitbuf, w, total, e, w1)
  {
  }

  lemma WindowEmptied(w: nat, total: nat)
    requires w > 0 && total > 0
    ensures Window(1, 0, 0, w, total, total, 0)
  {
    assert 0 * Pow(2, w - 0) == 0;
    assert total * Pow(2, 0) == total;
  }

  /** The window is full: w squarings and one multiplication by its table cell. */
  method FlushWindow(res: MpInt, M: seq<MpInt?>, P: MpInt, rd: Reducer, w: nat, bitbuf: nat, ghost g: int, ghost e: nat)
    requires rd.Ready(P) && res != P && res !in rd.Footprint() && Table(M, w, g, P, rd) && Apart(M, res, P, rd)
    requires Holds(res, g, e, P, rd) && Pow(2, w - 1) <= bitbuf < Pow(2, w)
    modifies res
    ensures Holds(res, g, e * Pow(2, w) + bitbuf, P, rd)
  {
    hide Pow, Holds, Reducer.Ready;
    SquareTimes(res, w, P, rd, g, e);
    MultiplyReduce(res, M[bitbuf], P, rd, g, e * Pow(2, w), bitbuf);
  }

  /** What one pass of the main loop does with the bit y. */
  method ExponentBit(res: MpInt, M: seq<MpInt?>, P: MpInt, rd: Reducer, w: nat, y: nat,
                     mode0: int, bitcpy0: nat, bitbuf0: nat, ghost g: int, ghost total: nat, ghost e0: nat, ghost w0: nat)
    returns (mode: int, bitcpy: nat, bitbuf: nat, ghost e: nat, ghost w1: nat)
    requires rd.Ready(P) && res != P && res !in rd.Footprint() && y <= 1 && Table(M, w, g, P, rd) && Apart(M, res, P, rd)
    requires Holds(res, g, e0, P, rd) && Window(mode0, bitcpy0, bitbuf0, w, total, e0, w0)
    modifies res
    ensures Holds(res, g, e, P, rd)
    ensures Window(mode, bitcpy, bitbuf, w, 2 * total + y, e, w1)
    ensures mode == 0 ==> mode0 == 0 && unchanged(res)
  {
    hide Pow, Table, Holds, Window, Reducer.Ready, Apart;
    mode, bitcpy, bitbuf, e, w1 := mode0, bitcpy0, bitbuf0, e0, w0;
    if mode == 0 && y == 0 {
      WindowZero(mode, bitcpy, bitbuf, w, total, e, w0);
      return;
    }
    if mode == 1 && y == 0 {
      WindowZero(mode, bitcpy, bitbuf, w, total, e, w0);
      SquareReduce(res, P, rd, g, e);
      e := 2 * e;
      return;
    }
    WindowBit(mode, bitcpy, bitbuf, w, total, e, w0, y);
    bitcpy := bitcpy + 1;
    bitbuf := bitbuf + y * Pow(2, w - bitcpy);
    mode := 2;
    w1 := 2 * w0 + y;
    if bitcpy == w {
      WholeWindow(w, w1, bitbuf);
      FlushWindow(res, M, P, rd, w, bitbuf, g, e);
      e := 2 * total + y;
      WindowEmptied(w, e);
      mode, bitcpy, bitbuf, w1 := 1, 0, 0, 0;
    } else {
      WindowAfterBit(bitcpy, bitbuf, w, 2 * total + y, e, w1);
    }
  }

  lemma WholeWindow(w: nat, w1: nat, bitbuf: nat)
    requires bitbuf == w1 * Pow(2, 0)
    ensures bitbuf == w1
  {
  }

  lemma PowZero(g: int)
    ensures Pow(g, 0) == 1
  {
  }

  // ---------------------------------------------------------------- the unfinished last window

  /** After x of c tail steps: the window's top x bits are in the exponent e, and bitbuf has been shifted
      left x times. */
  ghost predicate Tail(x: nat, c: nat, w: nat, w0: nat, e0: nat, e: nat, bitbuf: nat)
  {
    && x <= c <= w && bitbuf == w0 * Pow(2, w - c + x)
    && e == e0 * Pow(2, x) + w0 / Pow(2, c - x)
  }

  /** Bit w of the shifted buffer is the next bit of the window. */
  lemma TailStep(x: nat, c: nat, w: nat, w0: nat, e0: nat, e: nat, bitbuf: nat)
    requires x < c && Tail(x, c, w, w0, e0, e, bitbuf)
    ensures var y := ((2 * bitbuf) / Pow(2, w)) % 2;
            Tail(x + 1, c, w, w0, e0, 2 * e + y, 2 * bitbuf)
  {
    hide Pow;
    var p, k := Pow(2, c - x - 1), w - c + x;
    PowStep(2, c - x);
    PowStep(2, k + 1);
    PowStep(2, x + 1);
    PowAdd(2, c - x - 1, k + 1);
    assert 2 * bitbuf == w0 * Pow(2, k + 1) by { DoubledFactor(w0, Pow(2, k)); }
    NextWindowBit(w0, p, Pow(2, k + 1));
    DoubledFactor(e0, Pow(2, x));
  }

  lemma NextWindowBit(w0: nat, p: int, q: int)
    requires p > 0 && q > 0
    ensures p * q > 0 && w0 / p == 2 * (w0 / (2 * p)) + ((w0 * q) / (p * q)) % 2
  {
    MulLt(0, p, q);
    DivModEq(w0, p);
    MulLe(0, w0 % p, q);
    MulLe(w0 % p + 1, p, q);
    assert ((w0 / p) * p) * q == (w0 / p) * (p * q) by { MulAssoc(w0 / p, p, q); }
    assert (w0 % p + 1) * q == (w0 % p) * q + q;
    DivModUnique(w0 * q, p * q, w0 / p, (w0 % p) * q);
    DivDiv(w0, p, 2);
    assert p * 2 == 2 * p;
  }

  lemma TailStart(c: nat, w: nat, w0: nat, e0: nat, bitbuf: nat)
    requires c < w && w0 < Pow(2, c) && bitbuf == w0 * Pow(2, w - c)
    ensures Tail(0, c, w, w0, e0, e0, bitbuf)
  {
    ModSmall(w0, Pow(2, c));
    assert e0 * Pow(2, 0) == e0;
  }

  lemma TailDone(c: nat, w: nat, w0: nat, e0: nat, e: nat, bitbuf: nat)
    requires Tail(c, c, w, w0, e0, e, bitbuf)
    ensures e == e0 * Pow(2, c) + w0
  {
    assert w0 / Pow(2, 0) == w0;
  }

  /** The bits of the unfinished window, one squaring each and a multiplication by M[1] for a one. */
  method FinishWindow(res: MpInt, one: MpInt?, P: MpInt, rd: Reducer, w: nat, c: nat, bitbuf0: nat,
                      ghost g: int, ghost e0: nat, ghost w0: nat)
    requires rd.Ready(P) && res != P && res !in rd.Footprint() && Holds(res, g, e0, P, rd)
    requires Cell(one, g, 1, P, rd) && one != P && one != res && one !in rd.Footprint()
    requires c < w && w0 < Pow(2, c) && bitbuf0 == w0 * Pow(2, w - c)
    modifies res
    ensures Holds(res, g, e0 * Pow(2, c) + w0, P, rd)
  {
    hide Holds, Tail, Pow, Precomputed, NegInverse;
    TailStart(c, w, w0, e0, bitbuf0);
    var bitbuf: nat, x: nat := bitbuf0, 0;
    ghost var e: nat := e0;
    while x < c
      modifies res
      invariant 0 <= x <= c && rd.Ready(P) && Holds(res, g, e, P, rd) && Tail(x, c, w, w0, e0, e, bitbuf)
    {
      TailStep(x, c, w, w0, e0, e, bitbuf);
      SquareReduce(res, P, rd, g, e);
      bitbuf := 2 * bitbuf;
      e := 2 * e;
      if (bitbuf / Pow(2, w)) % 2 != 0 {
        MultiplyReduce(res, one, P, rd, g, e, 1);
        e := e + 1;
      }
      x := x + 1;
    }
    TailDone(c, w, w0, e0, e, bitbuf);
  }

  /** The main loop: all exponent bits, most significant first, up to an unfinished window. */
  method ScanBits(res: MpInt, X: MpInt, M: seq<MpInt?>, P: MpInt, rd: Reducer, w: nat, ghost g: int)
    returns (mode: int, bitcpy: nat, bitbuf: nat, ghost e: nat, ghost w0: nat)
    requires rd.Ready(P) && X.Valid() && res != P && res !in rd.Footprint() && res != X
    requires Table(M, w, g, P, rd) && Apart(M, res, P, rd) && Holds(res, g, 0, P, rd)
    modifies res
    ensures Holds(res, g, e, P, rd) && Window(mode, bitcpy, bitbuf, w, X.Mag(), e, w0)
    ensures mode == 0 ==> unchanged(res)
  {
    hide Holds, Precomputed, NegInverse, Cell, Pow, Reading, Buffered, Window, Ev, B;
    mode, bitcpy, bitbuf, e, w0 := 0, 0, 0, 0, 0;
    var bitcnt: nat, digidx := 1, X.used - 1;
    var buf: Digit := 0;
    ghost var total: nat, low: nat := 0, 0;
    StartReading(X.dp, X.used);
    WindowStart(w);
    while true
      modifies res
      invariant 1 <= bitcnt <= DIGIT_BIT && -1 <= digidx < X.used
      invariant Reading(X.dp, X.used, total, digidx + 1, bitcnt - 1, low) && Buffered(buf, bitcnt - 1, low)
      invariant rd.Ready(P) && Table(M, w, g, P, rd)
      invariant Window(mode, bitcpy, bitbuf, w, total, e, w0) && Holds(res, g, e, P, rd)
      invariant mode == 0 ==> unchanged(res)
      decreases digidx, bitcnt
    {
      bitcnt := bitcnt - 1;
      if bitcnt == 0 {
        if digidx == -1 {
          DoneReading(X.dp, X.used, total, low);
          break;
        }
        NextDigit(X.dp, X.used, total, digidx + 1, low);
        low := X.dp[digidx];
        buf := X.dp[digidx];
        digidx := digidx - 1;
        bitcnt := DIGIT_BIT;
      }
      var y := (buf / 0x800_0000) % 2;
      low := NextBit(X.dp, X.used, total, digidx + 1, bitcnt, low, buf);
      buf := Wrap32(2 * buf);
      mode, bitcpy, bitbuf, e, w0 := ExponentBit(res, M, P, rd, w, y, mode, bitcpy, bitbuf, g, total, e, w0);
      total := 2 * total + y;
    }
  }

  lemma DoneReading(x: seq<int>, used: nat, e: nat, low: nat)
    requires used <= |x| && Reading(x, used, e, 0, 0, low)
    ensures e == Ev(x, used)
  {
    assert Pow(2, 0) == 1 && B(0) == 1;
  }

  lemma WindowAtEnd(mode: int, bitcpy: nat, bitbuf: nat, w: nat, total: nat, e: nat, w0: nat)
    requires Window(mode, bitcpy, bitbuf, w, total, e, w0)
    ensures bitcpy < w && w0 < Pow(2, bitcpy) && bitbuf == w0 * Pow(2, w - bitcpy)
    ensures total == e * Pow(2, bitcpy) + w0
    ensures !(mode == 2 && bitcpy > 0) ==> e == total
    ensures mode == 0 <==> total == 0
  {
    PowZero(2);
  }

  // ---------------------------------------------------------------- the two exponentiations

  /** Table, main loop and last window: what both exponentiations share. The register comes in as the
      zeroth power and leaves as the X-th; a zero exponent leaves it alone. */
  method PowerByWindows(res: MpInt, one: MpInt, X: MpInt, P: MpInt, rd: Reducer, ghost g: int)
    requires rd.Ready(P) && X.Valid() && res !in {P, X, one} && res !in rd.Footprint()
    requires one != P && one !in rd.Footprint() && Holds(one, g, 1, P, rd) && Holds(res, g, 0, P, rd)
    modifies res
    ensures Holds(res, g, X.Mag(), P, rd) && (X.Mag() == 0 ==> unchanged(res))
  {
    hide Holds, Cell, Pow, Window, Ev, B, MpInt.Wf, MpInt.Valid, Reducer.Ready, Table;
    var x := CountBits(X);
    var winsize := WindowSize(x);
    ReadyModulus(P, rd);
    var M := BuildTable(one, P, rd, winsize, g);
    FreshTable(M, one, winsize, g, P, rd);
    var mode, bitcpy, bitbuf, e, w0 := ScanBits(res, X, M, P, rd, winsize, g);
    WindowAtEnd(mode, bitcpy, bitbuf, winsize, X.Mag(), e, w0);
    if mode == 2 && bitcpy > 0 {
      FreshTable(M, one, winsize, g, P, rd);
      FinishWindow(res, M[1], P, rd, winsize, bitcpy, bitbuf, g, e, w0);
    }
  }

  lemma FreshTable(M: seq<MpInt?>, one: MpInt, w: nat, g: int, P: MpInt, rd: Reducer)
    requires P.Valid() && Table(M, w, g, P, rd)
    ensures |M| == TAB_SIZE && Cell(M[1], g, 1, P, rd)
  {
  }

  /** M[1] for Barrett: g mod p. */
  method FirstPower(G: MpInt, P: MpInt, rd: Reducer) returns (one: MpInt)
    requires G.Valid() && rd.Ready(P) && rd.ByBarrett?
    ensures fresh(one) && Holds(one, G.Val(), 1, P, rd)
  {
    hide Ev, B, MpInt.Wf, Residue, Precomputed;
    one := new MpInt();
    ReadyModulus(P, rd);
    PowerOne(G.Val(), P.Val());
    var st;
    if rd.fast {
      st := ModDigits(G, P, one);
    } else {
      st := Mod(G, P, one);
    }
  }

  lemma PowerOne(g: int, p: int)
    requires p > 0
    ensures Residue(g, p) == g % p && Register(g % p, g, 1, p, 1)
  {
    ResidueIsMod(g, p);
    ModMod(g, p);
    assert Pow(g, 1) == g * Pow(g, 0);
  }

  /** s_mp_exptmod in either build. For a zero exponent the result is the literal 1, whatever the modulus. */
  method BarrettExptMod(G: MpInt, X: MpInt, P: MpInt, Y: MpInt, fast: bool) returns (st: Status)
    requires G.Valid() && X.Valid() && P.Valid() && Y.Valid() && !P.neg
    modifies Y
    ensures Y.Valid() && (st == Invalid <==> old(P.Val()) == 0)
    ensures st == Invalid ==> unchanged(Y)
    ensures st == Okay ==> Y.Val() == old(PowerOut(G.Val(), X.Mag(), P.Val()))
  {
    hide Register, Precomputed, Ev, B, MpInt.Wf, PowerOut;
    var mu := new MpInt();
    st := ReduceSetup(mu, P, fast);
    if st == Okay {
      var rd := ByBarrett(mu, fast);
      BarrettReady(P, mu, fast);
      var one := FirstPower(G, P, rd);
      var res := new MpInt();
      res.Set(1);
      RegisterOne(G.Val(), P.Val());
      PowerByWindows(res, one, X, P, rd, G.Val());
      RegisterAtEnd(res.Val(), G.Val(), X.Mag(), P.Val());
      Exch(res, Y);
    }
  }

  lemma BarrettReady(P: MpInt, mu: MpInt, fast: bool)
    requires P.Valid() && !P.neg && P.Val() != 0 && P != mu && mu.Valid() && !mu.neg
    requires Precomputed(mu.Val(), P.Val(), P.used)
    ensures ByBarrett(mu, fast).Ready(P)
  {
  }

  /** What s_mp_exptmod delivers: the residue of the power, except that the unreduced 1 of a zero
      exponent survives a modulus of 1. */
  function PowerOut(g: int, e: nat, p: int): (y: int)
    requires p > 0
  {
    if e == 0 then 1 else Pow(g, e) % p
  }

  lemma RegisterOne(g: int, p: int)
    requires p > 0
    ensures Register(1, g, 0, p, 1)
  {
    assert Pow(g, 0) == 1;
  }

  lemma RegisterAtEnd(v: int, g: int, e: nat, p: int)
    requires Register(v, g, e, p, 1) && (e == 0 ==> v == 1)
    ensures v == PowerOut(g, e, p)
  {
    if e > 0 {
      ModSmall(v, p);
    }
  }

  /** The residue of the power is delivered exactly when modulus 1 does not meet exponent 0. */
  lemma PowerOutIsResidue(g: int, e: nat, p: int)
    requires p > 0
    ensures PowerOut(g, e, p) == Pow(g, e) % p <==> !(p == 1 && e == 0)
    ensures 0 <= PowerOut(g, e, p) < p || (p == 1 && e == 0)
  {
    PowZero(g);
    DivModEq(Pow(g, e), p);
    if e == 0 && p > 1 {
      ModSmall(1, p);
    }
  }

  /** mp_exptmod in the default build: negative moduli and exponents are refused. */
  method ExptModBits(G: MpInt, X: MpInt, P: MpInt, Y: MpInt) returns (st: Status)
    requires G.Valid() && X.Valid() && P.Valid() && Y.Valid()
    modifies Y
    ensures Y.Valid() && (st == Okay <==> old(P.Val()) > 0 && old(X.Val()) >= 0)
    ensures st == Invalid ==> unchanged(Y)
    ensures st == Okay ==> Y.Val() == old(PowerOut(G.Val(), X.Mag(), P.Val()))
  {
    hide MpInt.Wf, PowerOut;
    if P.neg || X.neg {
      return Invalid;
    }
    st := BarrettExptMod(G, X, P, Y, false);
  }

  // ---------------------------------------------------------------- the Montgomery exponentiation

  /** The residue of the radix power is the zeroth power in Montgomery form, and g times it the first. */
  lemma MontgomeryStart(v: int, g: int, p: int, r: int)
    requires p > 0 && 0 <= v <= p && v % p == r % p
    ensures Register(v, g, 0, p, r)
    ensures Residue(g * v, p) == (g * v) % p && Register((g * v) % p, g, 1, p, r)
  {
    ResidueIsMod(g * v, p);
    ModMod(g * v, p);
    assert Pow(g, 0) == 1 && Pow(g, 1) == g * Pow(g, 0);
    CongScale(v, r, g, p);
    assert v * g == g * v && r * g == g * r;
  }

  /** The last reduction cancels the radix. */
  lemma MontgomeryEnd(v: int, z: int, g: int, e: nat, rd: Reducer, P: MpInt)
    requires rd.Ready(P) && Register(v, g, e, P.Val(), rd.Radix(P.used))
    requires 0 <= z < P.Val() && (z * rd.Radix(P.used)) % P.Val() == v % P.Val()
    ensures z == Pow(g, e) % P.Val()
  {
    CancelRadix(z, Pow(g, e), rd, P);
    ModSmall(z, P.Val());
  }

  /** mp_mulmod over the digit-wise division. */
  method MulModDigits(a: MpInt, b: MpInt, c: MpInt, d: MpInt) returns (st: Status)
    requires a.Valid() && b.Valid() && c.Valid() && d.Valid()
    modifies d
    ensures st == Invalid <==> old(c.Val()) == 0
    ensures d.Valid() && (st == Okay ==> d.Val() == old(Residue(a.Val() * b.Val(), c.Val())))
  {
    hide MpInt.Wf, Residue;
    var t := new MpInt();
    Multiply(a, b, t, true);
    st := ModDigits(t, c, d);
  }

  /** res = R mod P and M[1] = G * R mod P. */
  method MontgomeryCells(G: MpInt, P: MpInt, rd: Reducer) returns (res: MpInt, one: MpInt)
    requires G.Valid() && rd.Ready(P) && rd.ByMontgomery?
    ensures fresh(res) && fresh(one) && res != one
    ensures Holds(res, G.Val(), 0, P, rd) && Holds(one, G.Val(), 1, P, rd)
  {
    hide Ev, B, MpInt.Wf, Residue, NegInverse, Register;
    ReadyModulus(P, rd);
    res := new MpInt();
    one := new MpInt();
    CalcNormalization(res, P);
    MontgomeryStart(res.Val(), G.Val(), P.Val(), B(P.used));
    var st := MulModDigits(G, res, P, one);
  }

  /** mp_exptmod_fast with redmode 0. */
  method ExptModFast(G: MpInt, X: MpInt, P: MpInt, Y: MpInt) returns (st: Status)
    requires G.Valid() && X.Valid() && P.Valid() && Y.Valid() && !P.neg
    modifies Y
    ensures Y.Valid() && (st == Okay <==> old(P.Mag()) % 2 == 1 && old(P.used) <= 255)
    ensures st == Invalid ==> unchanged(Y)
    ensures st == Okay ==> Y.Val() == old(Pow(G.Val(), X.Mag()) % P.Val())
  {
    hide Ev, B, MpInt.Wf, NegInverse, Register, Pow;
    var mp;
    st, mp := MontgomerySetup(P);
    if st == Invalid {
      return;
    }
    if !(P.used * 2 + 1 < MP_WARRAY && P.used < 256) {
      return Invalid;
    }
    OddIsNonzero(P);
    var rd := ByMontgomery(mp);
    var res, one := MontgomeryCells(G, P, rd);
    PowerByWindows(res, one, X, P, rd, G.Val());
    HoldsSize(res, G.Val(), X.Mag(), P, rd);
    OneTimes(res.Val(), P.Val());
    ghost var v := res.Val();
    Apply(rd, res, P);
    MontgomeryEnd(v, res.Val(), G.Val(), X.Mag(), rd, P);
    Exch(res, Y);
  }

  lemma OddIsNonzero(P: MpInt)
    requires P.Valid() && P.Mag() % 2 == 1
    ensures P.used > 0 && P.Mag() > 0
  {
    if P.used == 0 {
      ModSmall(0, 2);
    }
  }

  lemma OneTimes(v: int, p: int)
    requires 0 <= v <= p
    ensures v <= p * p
  {
    if p > 0 {
      MulLe(1, p, p);
    }
  }

  /** mp_exptmod in the LTM_FAST build: odd moduli go to Montgomery, even ones to Barrett. */
  method ExptModAny(G: MpInt, X: MpInt, P: MpInt, Y: MpInt) returns (st: Status)
    requires G.Valid() && X.Valid() && P.Valid() && Y.Valid()
    modifies Y
    ensures Y.Valid()
    ensures st == Okay <==> old(P.Val() > 0 && X.Val() >= 0 && (P.Val() % 2 == 1 ==> P.used <= 255))
    ensures st == Invalid ==> unchanged(Y)
    ensures st == Okay ==> Y.Val() == old(Pow(G.Val(), X.Mag()) % P.Val())
  {
    hide MpInt.Wf, PowerOut, Ev, Pow;
    if P.neg || X.neg {
      return Invalid;
    }
    ghost var g, e, p := G.Val(), X.Mag(), P.Val();
    LowDigit(P);
    if P.used > 0 && P.dp[0] % 2 == 1 {
      st := ExptModFast(G, X, P, Y);
    } else {
      st := BarrettExptMod(G, X, P, Y, true);
      if st == Okay {
        PowerOutIsResidue(g, e, p);
      }
    }
  }
}
