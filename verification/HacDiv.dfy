/** Division by estimated quotient digits (the LTM_FAST build): algorithm 14.20 of the Handbook of
    Applied Cryptography on a divisor whose top digit is normalized to 27 bits, one bit less than a
    digit has. */
module HacDiv {
  import opened Arith
  import opened Digits
  import opened MpInts
  import opened AddSub
  import opened Shift
  import opened Mul
  import opened Div

  // ---------------------------------------------------------------- multiplication by one digit

  method MulDColumns(a: MpInt, b: Digit, c: MpInt) returns (u: Digit)
    requires a.Wf() && a.used <= |c.dp| && b < BETA
    modifies c`dp
    ensures |c.dp| == old(|c.dp|) && forall k :: a.used <= k < |c.dp| ==> c.dp[k] == old(c.dp[k])
    ensures u < BETA && Digital(c.dp, a.used)
    ensures Ev(c.dp, a.used) + u * B(a.used) == old(a.Mag()) * b
  {
    hide Ev, B;
    ghost var s, n := a.dp, a.used;
    u := 0;
    var ix := 0;
    ZeroColumns(s, c.dp, b);
    while ix < a.used
      invariant ix <= n && u < BETA && |c.dp| == old(|c.dp|)
      invariant |a.dp| == |s| && forall k :: ix <= k < |s| ==> a.dp[k] == s[k]
      invariant forall k :: ix <= k < |c.dp| ==> c.dp[k] == old(c.dp[k])
      invariant Digital(c.dp, ix)
      invariant Ev(c.dp, ix) + u * B(ix) == Ev(s, ix) * b
    {
      ghost var s0, u0 := c.dp, u;
      ProductFits(a.dp[ix], b);
      var r: Word := u + a.dp[ix] * b;
      c.dp := c.dp[ix := r % BETA];
      u := r / BETA;
      MulDColumn(s, s0, c.dp, ix, b, u0, u);
      ix := ix + 1;
    }
  }

  lemma ZeroColumns(s: seq<int>, c: seq<int>, b: int)
    ensures Ev(c, 0) + 0 * B(0) == Ev(s, 0) * b
  {
  }

  lemma MulDColumn(s: seq<int>, s0: seq<int>, s1: seq<int>, ix: nat, b: int, u0: int, u: int)
    requires ix < |s| && ix < |s0| == |s1| && forall k :: 0 <= k < ix ==> s1[k] == s0[k]
    requires Ev(s0, ix) + u0 * B(ix) == Ev(s, ix) * b && u0 + s[ix] * b == s1[ix] + u * BETA
    ensures Ev(s1, ix + 1) + u * B(ix + 1) == Ev(s, ix + 1) * b
  {
    EvTwo(s, ix);
    hide Ev, B;
    Column(s0, s1, ix, u0, s[ix] * b, u);
    ScaledSum(Ev(s, ix), s[ix], B(ix), b);
  }

  lemma ScaledSum(e: int, d: int, p: int, b: int)
    ensures (e + d * p) * b == e * b + (d * b) * p
  {
    assert (d * p) * b == (d * b) * p;
  }

  /** mp_mul_d: c = a * b. */
  method MulD(a: MpInt, b: Digit, c: MpInt)
    requires a.Wf() && c.Wf() && b < BETA
    modifies c
    ensures c.Valid() && c.Mag() == old(a.Mag()) * b && (c.used > 0 ==> c.neg == old(a.neg))
  {
    hide Ev, B;
    ghost var v, d := a.Mag(), a.dp;
    c.Grow(a.used + 1);
    SameValue(d, a.dp, a.used);
    var olduse := c.used;
    c.neg := a.neg;
    var n := a.used;
    var u := MulDColumns(a, b, c);
    FinishMulD(c, n, u, olduse);
  }

  /** The final carry, clearing and clamping. */
  method FinishMulD(c: MpInt, n: nat, u: Digit, olduse: nat)
    requires n < |c.dp| && MP_PREC <= |c.dp| && u < BETA && Digital(c.dp, n) && olduse <= |c.dp|
    requires forall k :: n <= k < |c.dp| && olduse <= k ==> c.dp[k] == 0
    modifies c
    ensures c.Valid() && c.Mag() == old(Ev(c.dp, n)) + u * B(n) && (c.used > 0 ==> c.neg == old(c.neg))
  {
    hide Ev, B;
    ghost var s := c.dp;
    c.dp := c.dp[n := u];
    NewTopDigit(s, c.dp, n, u);
    ghost var s1 := c.dp;
    ClearDigits(c, n + 1, olduse);
    SameValue(s1, c.dp, n + 1);
    c.used := n + 1;
    c.Clamp();
  }

  lemma SameValue(s: seq<int>, t: seq<int>, n: nat)
    requires n <= |s| && n <= |t| && forall k :: 0 <= k < n ==> s[k] == t[k]
    ensures Ev(s, n) == Ev(t, n)
  {
    EvSame(s, t, n);
  }

  lemma NewTopDigit(s: seq<int>, t: seq<int>, n: nat, u: int)
    requires n < |s| && t == s[n := u]
    ensures Ev(t, n + 1) == Ev(s, n) + u * B(n)
  {
    EvSame(s, t, n);
  }

  // ---------------------------------------------------------------- the quotient digit estimate

  /** Digit i, or nothing below the string. */
  function DigitAt(s: seq<Digit>, i: int): Digit
    requires i < |s|
  {
    if i < 0 then 0 else s[i]
  }

  /** The three digits of x from i down, and the two of y from t down, as numbers. */
  ghost function Top3(s: seq<Digit>, i: nat): int
    requires i < |s|
  {
    s[i] * (BETA * BETA) + DigitAt(s, i - 1) * BETA + DigitAt(s, i - 2)
  }

  ghost function Top2(s: seq<Digit>, t: nat): int
    requires t < |s|
  {
    s[t] * BETA + DigitAt(s, t - 1)
  }

  /** Leading digits bracket the number (scaled by one digit, so that one-digit divisors are no special
      case). */
  lemma Top2Bounds(y: MpInt, t: nat)
    requires y.Valid() && y.used == t + 1
    ensures Top2(y.dp, t) * B(t) <= y.Mag() * BETA < (Top2(y.dp, t) + 1) * B(t)
  {
    EvTwo(y.dp, t);
    if t > 0 {
      EvTwo(y.dp, t - 1);
      EvBound(y.dp, t - 1);
      hide Ev, B;
      TwoDigits(Ev(y.dp, t - 1), y.dp[t - 1], y.dp[t], B(t - 1));
    } else {
      NoLowDigits(y.dp);
    }
  }

  lemma NoLowDigits(s: seq<int>)
    ensures Ev(s, 0) == 0 && B(0) == 1
  {
  }

  lemma TwoDigits(e: int, y1: int, y: int, p: int)
    requires 0 <= e < p
    ensures (y * BETA + y1) * (BETA * p) <= (e + y1 * p + y * (BETA * p)) * BETA < (y * BETA + y1 + 1) * (BETA * p)
  {
    MulAssoc(y, BETA, p);
    assert (y * BETA + y1) * p == (y * BETA) * p + y1 * p;
    assert (y * BETA + y1) * (BETA * p) == ((y * BETA + y1) * p) * BETA by { MulAssoc(y * BETA + y1, p, BETA); }
    assert (y * BETA + y1 + 1) * (BETA * p) == (y * BETA + y1) * (BETA * p) + BETA * p;
  }

  lemma Top3Bounds(x: MpInt, i: nat)
    requires x.Valid() && 0 < i < |x.dp| && x.used <= i + 1
    ensures Top3(x.dp, i) * B(i - 1) <= x.Mag() * BETA < (Top3(x.dp, i) + 1) * B(i - 1)
  {
    EvZeros(x.dp, x.used, i + 1);
    EvTwo(x.dp, i);
    EvTwo(x.dp, i - 1);
    if i > 1 {
      EvTwo(x.dp, i - 2);
      EvBound(x.dp, i - 2);
      hide Ev, B;
      ThreeDigits(Ev(x.dp, i - 2), x.dp[i - 2], x.dp[i - 1], x.dp[i], B(i - 2));
    } else {
      NoLowDigits(x.dp);
    }
  }

  lemma ThreeDigits(e: int, x2: int, x1: int, x: int, p: int)
    requires 0 <= e < p
    ensures var h := x * (BETA * BETA) + x1 * BETA + x2;
            h * (BETA * p) <= (e + x2 * p + x1 * (BETA * p) + x * (BETA * (BETA * p))) * BETA < (h + 1) * (BETA * p)
  {
    var h := x * (BETA * BETA) + x1 * BETA + x2;
    assert h * p == x2 * p + x1 * (BETA * p) + x * (BETA * (BETA * p)) by {
      assert h * p == (x * (BETA * BETA)) * p + (x1 * BETA) * p + x2 * p;
      MulAssoc(x1, BETA, p);
      MulAssoc(x, BETA * BETA, p);
    }
    assert h * (BETA * p) == (h * p) * BETA by { MulAssoc(h, p, BETA); }
    assert (h + 1) * (BETA * p) == h * (BETA * p) + BETA * p;
  }

  /** Not too small: one more would exceed the leading digits (or the digit range). */
  ghost predicate HighEnough(q: int, x3: int, y2: int)
  {
    q == BETA - 1 || x3 < (q + 1) * y2
  }

  /** Not too large, up to what the divisor's 26 leading bits absorb. */
  ghost predicate LowEnough(q: int, x3: int, y2: int)
  {
    q * (y2 + 1) <= x3 + 0x400_0000 * BETA
  }

  /** Such an estimate is the true digit or one more. x and y are the scaled partial remainder and
      shifted divisor. */
  lemma EstimateOffByOne(q: int, x: int, y: int, x3: int, y2: int, p: int)
    requires 0 <= q < BETA && p > 0 && HighEnough(q, x3, y2) && LowEnough(q, x3, y2)
    requires x3 * p <= x < (x3 + 1) * p && y2 * p <= y < (y2 + 1) * p
    requires y2 >= 0x400_0000 * BETA && 0 <= x < BETA * y
    ensures (q - 1) * y <= x < (q + 1) * y
  {
    EstimateNotLow(q, x, y, x3, y2, p);
    EstimateNotHigh(q, x, y, x3, y2, p);
  }

  lemma EstimateNotLow(q: int, x: int, y: int, x3: int, y2: int, p: int)
    requires 0 <= q < BETA && p > 0 && HighEnough(q, x3, y2) && x < (x3 + 1) * p && y2 * p <= y && x < BETA * y
    ensures x < (q + 1) * y
  {
    if q < BETA - 1 {
      MulLe(x3 + 1, (q + 1) * y2, p);
      assert ((q + 1) * y2) * p == (q + 1) * (y2 * p) by { MulAssoc(q + 1, y2, p); }
      MulLe(y2 * p, y, q + 1);
      assert (y2 * p) * (q + 1) == (q + 1) * (y2 * p) && y * (q + 1) == (q + 1) * y;
    }
  }

  lemma EstimateNotHigh(q: int, x: int, y: int, x3: int, y2: int, p: int)
    requires 0 <= q && p > 0 && LowEnough(q, x3, y2) && x3 * p <= x && y2 * p <= y < (y2 + 1) * p
    requires y2 >= 0x400_0000 * BETA
    ensures (q - 1) * y <= x
  {
    var c := 0x400_0000 * BETA;
    MulLe(y, (y2 + 1) * p, q);
    assert y * q == q * y;
    assert ((y2 + 1) * p) * q == (q * (y2 + 1)) * p by { MulAssoc(q, y2 + 1, p); }
    MulLe(q * (y2 + 1), x3 + c, p);
    assert (x3 + c) * p == x3 * p + c * p;
    MulLe(c, y2, p);
    assert (q - 1) * y == q * y - y;
  }

  /** The first estimate, from two digits of x and one of y. */
  function FirstEstimate(xi: Digit, x1: Digit, yt: Digit): (q: Digit)
    requires yt > 0 && xi < BETA && x1 < BETA
    ensures q < BETA
  {
    if xi == yt then BETA - 1
    else
      DivModEq(xi * BETA + x1, yt);
      if (xi * BETA + x1) / yt < 0 then MulLe((xi * BETA + x1) / yt, -1, yt); 0
      else if (xi * BETA + x1) / yt > BETA - 1 then BETA - 1 else (xi * BETA + x1) / yt
  }

  lemma FirstEstimateHigh(xi: Digit, x1: Digit, x2: Digit, yt: Digit, y1: Digit)
    requires xi < BETA && x1 < BETA && x2 < BETA && yt >= 0x400_0000 && yt < BETA && y1 < BETA
    ensures var q := FirstEstimate(xi, x1, yt);
            HighEnough(q, xi * (BETA * BETA) + x1 * BETA + x2, yt * BETA + y1)
    ensures xi == 0 ==> FirstEstimate(xi, x1, yt) * yt <= x1
  {
    var q := FirstEstimate(xi, x1, yt);
    var w := xi * BETA + x1;
    DivModEq(w, yt);
    if q < BETA - 1 {
      EstimateExceeds(w, q, yt, y1, x2);
    }
    if xi == 0 && q == BETA - 1 {
      MulLe(q, w / yt, yt);
    }
  }

  lemma EstimateExceeds(w: int, q: int, yt: int, y1: int, x2: int)
    requires yt > 0 && w < q * yt + yt && 0 <= y1 && x2 < BETA && q >= 0
    ensures w * BETA + x2 < (q + 1) * (yt * BETA + y1)
  {
    assert (q + 1) * (yt * BETA + y1) == (q * yt + yt) * BETA + (q + 1) * y1;
    MulLe(0, q + 1, y1);
  }

  /** t1 = q times the two leading digits of y. */
  method LeftSide(t1: MpInt, y: MpInt, t: nat, q: Digit)
    requires t1 != y && t1.Wf() && y.Valid() && y.used == t + 1 && q < BETA
    modifies t1
    ensures t1.Valid() && t1.Mag() == q * Top2(y.dp, t)
  {
    hide Ev, B;
    t1.Zero();
    t1.dp := t1.dp[0 := DigitAt(y.dp, t - 1)];
    t1.dp := t1.dp[1 := y.dp[t]];
    t1.used := 2;
    TwoDigitValue(t1.dp);
    MulD(t1, q, t1);
  }

  lemma TwoDigitValue(s: seq<int>)
    requires |s| >= 2
    ensures Ev(s, 2) == s[1] * BETA + s[0]
  {
    EvTwo(s, 1);
    EvTwo(s, 0);
    assert B(0) == 1;
  }

  lemma ThreeDigitValue(s: seq<int>)
    requires |s| >= 3
    ensures Ev(s, 3) == s[2] * (BETA * BETA) + s[1] * BETA + s[0] && B(2) == BETA * BETA
  {
    TwoDigitValue(s);
    EvTwo(s, 2);
    EvTwo(s, 1);
    EvTwo(s, 0);
    assert B(0) == 1;
  }

  /** t2 = the three leading digits of x, not clamped. */
  method RightSide(t2: MpInt, x: MpInt, i: nat)
    requires t2 != x && t2.Wf() && t2.used <= 3 && x.Valid() && i < |x.dp|
    modifies t2
    ensures t2.Wf() && t2.used == 3 && t2.Mag() == Top3(x.dp, i) && t2.dp[2] == x.dp[i]
  {
    hide Ev, B;
    t2.dp := t2.dp[0 := DigitAt(x.dp, i - 2)];
    t2.dp := t2.dp[1 := DigitAt(x.dp, i - 1)];
    t2.dp := t2.dp[2 := x.dp[i]];
    t2.used := 3;
    ThreeDigitValue(t2.dp);
  }

  /** What the digit-count comparison of the clamped left side with the three-digit right side decides. */
  lemma RefineCompare(q: Digit, x3: int, y2: int, used1: nat, xi: int, cmp: Order, t1: MpInt, t2: MpInt)
    requires t1.Valid() && t2.Wf() && t2.used == 3 && t1.Mag() == q * y2 && t2.Mag() == x3
    requires 0 <= q < BETA && 0 <= y2 < BETA * BETA && xi == t2.dp[2] && used1 == t1.used
    requires used1 == 3 ==> cmp == Compare(t1.Mag(), t2.Mag())
    requires used1 < 3 ==> cmp == Lt
    requires used1 > 3 ==> cmp == Gt
    ensures cmp == Gt ==> x3 < q * y2 && q > 0
    ensures cmp != Gt ==> q * y2 <= x3 || xi == 0
  {
    ThreeDigitValue(t2.dp);
    EvBound(t2.dp, 3);
    MulLe(q, BETA - 1, y2);
    assert B(3) == BETA * B(2);
    UsedAtMost(t1, 3);
    if used1 < 3 {
      EvBound(t1.dp, t1.used);
      BMono(t1.used, 2);
    }
  }

  /** One test of the refinement loop. */
  method TryDigit(t1: MpInt, t2: MpInt, x: MpInt, y: MpInt, i: nat, t: nat, q: Digit) returns (cmp: Order)
    requires t1.Wf() && t2.Wf() && t2.used <= 3 && t1 != t2 && t1 !in {x, y} && t2 !in {x, y} && q < BETA
    requires x.Valid() && y.Valid() && y.used == t + 1 && i < |x.dp|
    modifies t1, t2
    ensures t1.Wf() && t2.Wf() && t2.used == 3
    ensures cmp == Gt ==> Top3(x.dp, i) < q * Top2(y.dp, t) && q > 0
    ensures cmp != Gt ==> q * Top2(y.dp, t) <= Top3(x.dp, i) || x.dp[i] == 0
  {
    hide Ev, B;
    LeftSide(t1, y, t, q);
    RightSide(t2, x, i);
    cmp := CmpMag(t1, t2);
    RefineCompare(q, Top3(x.dp, i), Top2(y.dp, t), t1.used, x.dp[i], cmp, t1, t2);
  }

  /** The refinement loop: the estimate goes down until its product with two divisor digits fits. */
  method EstimateDigit(x: MpInt, y: MpInt, i: nat, t: nat) returns (q: Digit)
    requires x.Valid() && y.Valid() && y.used == t + 1 && 0 < i < |x.dp| && y.dp[t] >= 0x400_0000
    ensures q < BETA && HighEnough(q, Top3(x.dp, i), Top2(y.dp, t)) && LowEnough(q, Top3(x.dp, i), Top2(y.dp, t))
  {
    hide Ev, B, HighEnough, LowEnough, FirstEstimate, Top3, Top2;
    ghost var x3, y2 := Top3(x.dp, i), Top2(y.dp, t);
    var t1 := new MpInt();
    var t2 := new MpInt();
    q := FirstEstimate(x.dp[i], x.dp[i - 1], y.dp[t]);
    LeadingDigits(x, y, i, t);
    ghost var next, first: int := q, q;
    q := (q + 1) % BETA;
    while true
      modifies t1, t2
      invariant t1.Wf() && t2.Wf() && t2.used <= 3
      invariant 0 <= next <= first && next < BETA && q == (next + 1) % BETA && HighEnough(next, x3, y2)
      decreases next
    {
      DigitDecrement(next, q);
      q := Wrap32(q - 1) % BETA;
      var cmp := TryDigit(t1, t2, x, y, i, t, q);
      if cmp != Gt {
        break;
      }
      next := next - 1;
      OneLess(q, x3, y2);
    }
    EstimateRefined(x, y, i, t, q, first);
  }

  lemma LeadingDigits(x: MpInt, y: MpInt, i: nat, t: nat)
    requires x.Valid() && y.Valid() && y.used == t + 1 && 0 < i < |x.dp| && y.dp[t] >= 0x400_0000
    ensures HighEnough(FirstEstimate(x.dp[i], x.dp[i - 1], y.dp[t]), Top3(x.dp, i), Top2(y.dp, t))
  {
    FirstEstimateHigh(x.dp[i], x.dp[i - 1], DigitAt(x.dp, i - 2), y.dp[t], DigitAt(y.dp, t - 1));
  }

  lemma EstimateRefined(x: MpInt, y: MpInt, i: nat, t: nat, q: Digit, first: int)
    requires x.Valid() && y.Valid() && y.used == t + 1 && 0 < i < |x.dp| && y.dp[t] >= 0x400_0000
    requires q <= first && q < BETA && first == FirstEstimate(x.dp[i], x.dp[i - 1], y.dp[t])
    requires q * Top2(y.dp, t) <= Top3(x.dp, i) || x.dp[i] == 0
    ensures LowEnough(q, Top3(x.dp, i), Top2(y.dp, t))
  {
    hide FirstEstimate;
    FirstEstimateHigh(x.dp[i], x.dp[i - 1], DigitAt(x.dp, i - 2), y.dp[t], DigitAt(y.dp, t - 1));
    RefinedLow(q, first, x.dp[i], x.dp[i - 1], DigitAt(x.dp, i - 2), y.dp[t], DigitAt(y.dp, t - 1));
  }

  lemma DigitDecrement(next: int, q: int)
    requires 0 <= next < BETA && q == (next + 1) % BETA
    ensures Wrap32(q - 1) % BETA == next && 0 <= q < BETA
  {
    if next == BETA - 1 {
      DivModUnique(next + 1, BETA, 1, 0);
    } else {
      ModSmall(next + 1, BETA);
    }
  }

  lemma OneLess(q: int, x3: int, y2: int)
    requires x3 < q * y2
    ensures HighEnough(q - 1, x3, y2)
  {
  }

  lemma RefinedLow(q: int, first: int, xi: int, x1: int, x2: int, yt: int, y1: int)
    requires 0 <= q < BETA && q <= first && 0x400_0000 <= yt < BETA && 0 <= y1 < BETA && 0 <= x1 < BETA && 0 <= x2
    requires xi == 0 ==> first * yt <= x1
    requires q * (yt * BETA + y1) <= xi * (BETA * BETA) + x1 * BETA + x2 || xi == 0
    ensures LowEnough(q, xi * (BETA * BETA) + x1 * BETA + x2, yt * BETA + y1)
  {
    var y2, x3 := yt * BETA + y1, xi * (BETA * BETA) + x1 * BETA + x2;
    assert q * (y2 + 1) == q * y2 + q;
    if q * y2 > x3 {
      MulLe(q, first, yt);
      MulLe(0x400_0000, yt, q);
      assert yt * q == q * yt;
      assert q <= 3;
      MulLe(q, 3, y1);
      assert q * y2 == (q * yt) * BETA + q * y1;
    }
  }

  // ---------------------------------------------------------------- the division

  /** Between two quotient digits: Q is the quotient so far, x what is left, below y at place k. */
  ghost predicate Partial(X: int, y: int, Q: int, x: int, k: nat)
  {
    0 <= x < y * B(k) && X == Q * y + x
  }

  /** A divisor whose top digit, digit t, has at least 27 bits. */
  ghost predicate Normalized(y: MpInt, t: nat)
    reads y
  {
    y.Valid() && !y.neg && y.used == t + 1 && y.dp[t] >= 0x400_0000
  }

  lemma NormalizedSize(y: MpInt, t: nat)
    requires Normalized(y, t)
    ensures 0x400_0000 * B(t) <= y.Mag() < B(t + 1) && 0 < y.Mag()
  {
    EvTwo(y.dp, t);
    EvBound(y.dp, t);
    EvBound(y.dp, t + 1);
    MulLe(0x400_0000, y.dp[t], B(t));
  }

  /** The partial remainder has no digits above i. */
  lemma RemainderSize(X: int, Q: int, x: MpInt, y: MpInt, i: nat, t: nat)
    requires x.Valid() && Normalized(y, t) && t < i && Partial(X, y.Mag(), Q, x.Mag(), i - t)
    ensures x.used <= i + 1
  {
    hide Ev;
    NormalizedSize(y, t);
    MulLe(y.Mag(), B(t + 1), B(i - t));
    BAdd(t + 1, i - t);
    UsedAtMost(x, i + 1);
  }

  /** When x has fewer than i digits the quotient digit is zero. */
  lemma ZeroDigit(X: int, Q: int, x: MpInt, y: MpInt, i: nat, t: nat)
    requires x.Valid() && Normalized(y, t) && t < i && Partial(X, y.Mag(), Q, x.Mag(), i - t) && x.used < i
    ensures Partial(X, y.Mag(), Q, x.Mag(), i - t - 1)
  {
    hide Ev, B;
    NormalizedSize(y, t);
    EvBound(x.dp, x.used);
    BMono(x.used, i - 1);
    BAdd(t, i - t - 1);
    MulLe(B(t), 0x400_0000 * B(t), B(i - t - 1));
    MulLe(0x400_0000 * B(t), y.Mag(), B(i - t - 1));
  }

  /** What the estimate says about x and the divisor at its place. */
  lemma DigitOffByOne(X: int, Q: int, x: MpInt, y: MpInt, i: nat, t: nat, q: int)
    requires x.Valid() && Normalized(y, t) && t < i < |x.dp| && Partial(X, y.Mag(), Q, x.Mag(), i - t)
    requires 0 <= q < BETA && HighEnough(q, Top3(x.dp, i), Top2(y.dp, t)) && LowEnough(q, Top3(x.dp, i), Top2(y.dp, t))
    ensures (q - 1) * (y.Mag() * B(i - t - 1)) <= x.Mag() < (q + 1) * (y.Mag() * B(i - t - 1))
  {
    hide Ev, Top3, Top2, HighEnough, LowEnough;
    var k: nat := i - t - 1;
    RemainderSize(X, Q, x, y, i, t);
    Top3Bounds(x, i);
    Top2Bounds(y, t);
    Top2Large(y, t);
    BAdd(t, k);
    hide B;
    ScaledBracket(Top2(y.dp, t), y.Mag(), B(t), B(k));
    BelowScaled(x.Mag(), y.Mag(), B(i - t), B(k)) by { assert B(i - t) == BETA * B(k) by { BAdd(1, k); BOne(); } }
    EstimateOffByOne(q, x.Mag() * BETA, (y.Mag() * B(k)) * BETA, Top3(x.dp, i), Top2(y.dp, t), B(i - 1));
    Unscale(q, x.Mag(), y.Mag() * B(k));
  }

  lemma BOne()
    ensures B(1) == BETA
  {
    assert B(1) == BETA * B(0);
  }

  lemma Top2Large(y: MpInt, t: nat)
    requires Normalized(y, t)
    ensures Top2(y.dp, t) >= 0x400_0000 * BETA
  {
  }

  lemma ScaledBracket(y2: int, y: int, p: int, r: int)
    requires y2 * p <= y * BETA < (y2 + 1) * p && r > 0
    ensures y2 * (p * r) <= (y * r) * BETA < (y2 + 1) * (p * r)
  {
    MulLe(y2 * p, y * BETA, r);
    MulLt(y * BETA, (y2 + 1) * p, r);
    MulAssoc(y2, p, r);
    MulAssoc(y2 + 1, p, r);
    assert (y * BETA) * r == (y * r) * BETA;
  }

  lemma BelowScaled(x: int, y: int, b: int, r: int)
    requires 0 <= x < y * b && b == BETA * r
    ensures 0 <= x * BETA < BETA * ((y * r) * BETA)
  {
    MulAssoc(y, BETA, r);
  }

  lemma Unscale(q: int, x: int, y: int)
    requires (q - 1) * (y * BETA) <= x * BETA < (q + 1) * (y * BETA)
    ensures (q - 1) * y <= x < (q + 1) * y
  {
    MulAssoc(q - 1, y, BETA);
    MulAssoc(q + 1, y, BETA);
  }

  /** x - q * y at place k, with one add-back when that is negative. */
  method SubtractDigit(x: MpInt, y: MpInt, i: nat, k: nat, q0: Digit) returns (q: Digit)
    requires x.Valid() && y.Valid() && x != y && !x.neg && !y.neg && y.used > 0 && q0 < BETA && k < i <= x.used
    requires (q0 - 1) * (y.Mag() * B(k)) <= x.Mag() < (q0 + 1) * (y.Mag() * B(k))
    modifies x
    ensures x.Valid() && !x.neg && old(|x.dp|) <= |x.dp| && q < BETA
    ensures x.Mag() == old(x.Mag()) - q * (y.Mag() * B(k)) && x.Mag() < y.Mag() * B(k)
    ensures q == q0 || q + 1 == q0
  {
    hide Ev, B, MpInt.Wf;
    q := q0;
    ghost var v, yk := x.Mag(), y.Mag() * B(k);
    var t1 := new MpInt();
    MulD(y, q, t1);
    ShiftedProduct(y.Mag(), q, B(k), v);
    ShiftedPositive(t1);
    Lshd(t1, k);
    Sub(x, t1, x);
    if x.neg {
      Copy(y, t1);
      Lshd(t1, k);
      Add(x, t1, x);
      AddedBack(q, yk, v);
      q := Wrap32(q - 1) % BETA;
    }
  }

  lemma ShiftedPositive(t: MpInt)
    requires t.Valid()
    ensures t.used == 0 <==> t.Mag() == 0
    ensures t.Wf()
  {
  }

  lemma ShiftedProduct(y: int, q: int, b: int, v: int)
    requires (q - 1) * (y * b) <= v < (q + 1) * (y * b)
    ensures (y * q) * b == q * (y * b)
    ensures v - q * (y * b) < y * b && v - q * (y * b) + y * b >= 0
  {
    assert (q + 1) * (y * b) == q * (y * b) + y * b;
    assert (q - 1) * (y * b) == q * (y * b) - y * b;
    MulAssoc(q, y, b);
  }

  lemma AddedBack(q: Digit, yk: int, v: int)
    requires v - q * yk < 0 && 0 <= v && q < BETA
    ensures q > 0 && Wrap32(q - 1) % BETA == q - 1 && (q - 1) * yk == q * yk - yk
  {
    if q > 0 {
      ModSmall(q - 1, BETA);
    }
  }

  /** One digit of the quotient. */
  method DivideDigit(x: MpInt, y: MpInt, q: MpInt, i: nat, t: nat, ghost X: int)
    requires x.Valid() && !x.neg && Normalized(y, t) && q.Wf() && x != y && x != q && y != q
    requires t < i < |x.dp| && i - t <= q.used && forall j :: 0 <= j < i - t ==> q.dp[j] == 0
    requires Partial(X, y.Mag(), q.Mag(), x.Mag(), i - t)
    modifies x, q`dp
    ensures x.Valid() && !x.neg && q.Wf() && old(|x.dp|) <= |x.dp|
    ensures forall j :: 0 <= j < i - t - 1 ==> q.dp[j] == 0
    ensures Partial(X, y.Mag(), q.Mag(), x.Mag(), i - t - 1)
  {
    hide Ev, B, Partial, HighEnough, LowEnough, Top3, Top2;
    if i > x.used {
      ZeroDigit(X, q.Mag(), x, y, i, t);
      return;
    }
    var k := i - t - 1;
    ghost var v := x.Mag();
    var digit := EstimateDigit(x, y, i, t);
    DigitOffByOne(X, q.Mag(), x, y, i, t, digit);
    digit := SubtractDigit(x, y, i, k, digit);
    DigitRecorded(q.dp, k, digit, q.used, X, y.Mag(), v, x.Mag());
    q.dp := q.dp[k := digit];
  }

  lemma DigitRecorded(s: seq<int>, k: nat, d: int, n: nat, X: int, y: int, v: int, x: int)
    requires k < n <= |s| && s[k] == 0 && Partial(X, y, Ev(s, n), v, k + 1)
    requires x == v - d * (y * B(k)) && 0 <= x < y * B(k)
    ensures Partial(X, y, Ev(s[k := d], n), x, k)
  {
    EvUpdate(s, k, d, n);
    hide Ev, B;
    MulAssoc(d, B(k), y);
    assert (Ev(s, n) + d * B(k)) * y == Ev(s, n) * y + (d * B(k)) * y;
    assert y * B(k) == B(k) * y;
  }

  /** All digits below the first. */
  method DivideDigits(x: MpInt, y: MpInt, q: MpInt, n: nat, t: nat, ghost X: int)
    requires x.Valid() && !x.neg && Normalized(y, t) && q.Wf() && x != y && x != q && y != q
    requires t <= n < |x.dp| && n - t <= q.used && forall j :: 0 <= j < n - t ==> q.dp[j] == 0
    requires Partial(X, y.Mag(), q.Mag(), x.Mag(), n - t)
    modifies x, q`dp
    ensures x.Valid() && !x.neg && q.Wf() && Partial(X, y.Mag(), q.Mag(), x.Mag(), 0)
  {
    hide Ev, B, Partial;
    var i := n;
    while i >= t + 1
      invariant t <= i <= n && i < |x.dp| && x.Valid() && !x.neg && q.Wf() && Normalized(y, t)
      invariant forall j :: 0 <= j < i - t ==> q.dp[j] == 0
      invariant Partial(X, y.Mag(), q.Mag(), x.Mag(), i - t)
    {
      DivideDigit(x, y, q, i, t, X);
      i := i - 1;
    }
  }

  lemma PowTwo26()
    ensures Pow(2, 26) == 0x400_0000 && Pow(2, 27) == 0x800_0000
  {
    PowTwo28();
    PowStep(2, 28);
    PowStep(2, 27);
  }

  /** A bit length of 27 above a multiple of the digit size puts 27 bits into the top digit. */
  lemma TopDigitBits(y: MpInt, c: nat)
    requires y.Valid() && c % DIGIT_BIT == 27 && Pow(2, c - 1) <= y.Mag() < Pow(2, c)
    ensures y.used > 0 && y.dp[y.used - 1] >= 0x400_0000
  {
    hide Ev, B, Pow;
    var m := c / DIGIT_BIT;
    BitsOfDigits(m);
    PowAdd(2, DIGIT_BIT * m, 26);
    PowAdd(2, DIGIT_BIT * m, 27);
    PowTwo26();
    MulLe(1, 0x400_0000, B(m));
    UsedAtLeast(y, m);
    MulLe(0x800_0000, BETA, B(m));
    assert B(m + 1) == BETA * B(m) by { BAdd(1, m); BOne(); }
    UsedAtMost(y, m + 1);
    LargeTopDigit(y, m);
  }

  lemma LargeTopDigit(y: MpInt, t: nat)
    requires y.Valid() && y.used == t + 1 && 0x400_0000 * B(t) <= y.Mag()
    ensures y.dp[t] >= 0x400_0000
  {
    EvTwo(y.dp, t);
    EvBound(y.dp, t);
    if y.dp[t] < 0x400_0000 {
      MulLe(y.dp[t], 0x400_0000 - 1, B(t));
    }
  }

  /** Copies of |a| and |b|, both shifted so that the divisor's top digit has 27 bits. */
  method NormalizeOperands(a: MpInt, b: MpInt) returns (x: MpInt, y: MpInt, norm: nat)
    requires a.Valid() && b.Valid() && b.used > 0
    ensures fresh(x) && fresh(y) && x != y && x.Valid() && !x.neg && y.used > 0 && Normalized(y, y.used - 1)
    ensures x.Mag() == a.Mag() * Pow(2, norm) && y.Mag() == b.Mag() * Pow(2, norm) && norm < DIGIT_BIT
  {
    hide Ev, B, Pow, MpInt.Wf;
    x := new MpInt();
    y := new MpInt();
    Copy(a, x);
    Copy(b, y);
    x.neg := false;
    y.neg := false;
    norm := Normalize(x, y);
  }

  method Normalize(x: MpInt, y: MpInt) returns (norm: nat)
    requires x != y && x.Valid() && y.Valid() && !x.neg && !y.neg && y.used > 0
    modifies x, y
    ensures x.Valid() && !x.neg && y.used > 0 && Normalized(y, y.used - 1)
    ensures x.Mag() == old(x.Mag()) * Pow(2, norm) && y.Mag() == old(y.Mag()) * Pow(2, norm) && norm < DIGIT_BIT
  {
    hide Ev, B, Pow, MpInt.Wf;
    var c := CountBits(y);
    norm := c % DIGIT_BIT;
    ghost var bits := c;
    if norm < DIGIT_BIT - 1 {
      norm := DIGIT_BIT - 1 - norm;
      bits := c + norm;
      ScaledBits(y.Mag(), c, norm);
      ShiftedSigns(x, y, norm);
      Mul2d(x, norm, x);
      Mul2d(y, norm, y);
    } else {
      norm := 0;
      ScaledBits(y.Mag(), c, 0);
      ShiftByNothing(x.Mag(), y.Mag());
    }
    TopDigitBits(y, bits);
  }

  lemma ShiftByNothing(a: int, b: int)
    ensures a * Pow(2, 0) == a && b * Pow(2, 0) == b
  {
  }

  lemma ShiftedSigns(x: MpInt, y: MpInt, n: nat)
    requires x.Valid() && y.Valid() && !x.neg && !y.neg
    ensures 0 <= x.Val() * Pow(2, n) && 0 <= y.Val() * Pow(2, n)
  {
    MulLe(0, x.Val(), Pow(2, n));
    MulLe(0, y.Val(), Pow(2, n));
  }

  lemma ScaledBits(v: int, c: nat, norm: nat)
    requires c > 0 && Pow(2, c - 1) <= v < Pow(2, c)
    ensures Pow(2, c + norm - 1) <= v * Pow(2, norm) < Pow(2, c + norm)
  {
    PowAdd(2, c - 1, norm);
    PowAdd(2, c, norm);
    MulLe(Pow(2, c - 1), v, Pow(2, norm));
    MulLt(v, Pow(2, c), Pow(2, norm));
  }

  /** The digit at the highest place is found by plain subtraction, at most three times. */
  method FirstDigit(x: MpInt, y: MpInt, q: MpInt, n: nat, t: nat, ghost X: int)
    requires x.Valid() && !x.neg && Normalized(y, t) && q.Wf() && x != y && x != q && y != q
    requires t <= n && x.used == n + 1 && n - t < q.used && x.Mag() == X
    requires forall k :: 0 <= k < |q.dp| ==> q.dp[k] == 0
    modifies x, y, q`dp
    ensures x.Valid() && !x.neg && Normalized(y, t) && y.Mag() == old(y.Mag()) && q.Wf() && n < |x.dp|
    ensures forall k :: 0 <= k < n - t ==> q.dp[k] == 0
    ensures Partial(X, y.Mag(), q.Mag(), x.Mag(), n - t)
  {
    hide Ev, B, MpInt.Wf, Normalized;
    NormalizedValid(y, t);
    ghost var v, m := y.Mag(), n - t;
    NormalizedSize(y, t);
    Lshd(y, n - t);
    FirstDigitRoom(x, v, n, t);
    SubtractTop(x, y, q, n - t, X, v * B(m));
    FirstPartial(X, v, B(m), q.dp[m], x.Mag());
    Rshd(y, n - t);
    ShiftedBack(v, B(m));
    LargeTopDigit(y, t);
    NormalizedAgain(y, t);
  }

  lemma FirstPartial(X: int, v: int, b: int, d: int, x: int)
    requires X == d * (v * b) + x
    ensures X == (d * b) * v + x
  {
    MulAssoc(d, b, v);
  }

  lemma NormalizedValid(y: MpInt, t: nat)
    requires Normalized(y, t)
    ensures y.Valid() && !y.neg && y.used == t + 1
  {
  }

  lemma NormalizedAgain(y: MpInt, t: nat)
    requires y.Valid() && !y.neg && y.used == t + 1 && y.dp[t] >= 0x400_0000
    ensures Normalized(y, t)
  {
  }

  lemma ShiftedBack(v: int, b: int)
    requires b > 0
    ensures (v * b) / b == v
  {
    DivModUnique(v * b, b, v, 0);
  }

  lemma FirstDigitRoom(x: MpInt, v: int, n: nat, t: nat)
    requires x.Valid() && x.used == n + 1 && t <= n && 0x400_0000 * B(t) <= v
    ensures n < |x.dp| && x.Mag() < 4 * (v * B(n - t)) && 0 < v * B(n - t)
  {
    hide Ev;
    MagRange(x);
    BAdd(t, n - t);
    MulLe(0x400_0000 * B(t), v, B(n - t));
    MulAssoc(0x400_0000, B(t), B(n - t));
    MulLt(0, v, B(n - t));
  }

  method SubtractTop(x: MpInt, y: MpInt, q: MpInt, m: nat, ghost X: int, ghost yb: int)
    requires x.Valid() && !x.neg && y.Valid() && !y.neg && q.Wf() && x != y && x != q && y != q
    requires m < q.used && y.Mag() == yb && x.Mag() == X && 0 <= X < 4 * yb && yb > 0
    requires forall k :: 0 <= k < |q.dp| ==> q.dp[k] == 0
    modifies x, q`dp
    ensures x.Valid() && !x.neg && q.Wf() && old(|x.dp|) <= |x.dp| && x.Mag() < yb
    ensures forall k :: 0 <= k < |q.dp| && k != m ==> q.dp[k] == 0
    ensures m < |q.dp| && X == q.dp[m] * yb + x.Mag() && q.Mag() == q.dp[m] * B(m)
  {
    hide Ev, B;
    TimesStep(0, yb);
    OneDigit(q.dp, q.used, m);
    var cmp := Cmp(x, y);
    while cmp != Lt
      invariant x.Valid() && !x.neg && q.Wf() && old(|x.dp|) <= |x.dp| && 0 <= q.dp[m] < 4
      invariant X == q.dp[m] * yb + x.Mag() && cmp == Compare(x.Mag(), yb)
      invariant forall k :: 0 <= k < |q.dp| && k != m ==> q.dp[k] == 0
      decreases x.Mag()
    {
      NextMultiple(q.dp[m], yb, X, x.Mag());
      q.dp := q.dp[m := q.dp[m] + 1];
      Sub(x, y, x);
      cmp := Cmp(x, y);
    }
    OneDigit(q.dp, q.used, m);
  }

  lemma NextMultiple(j: int, yb: int, X: int, x: int)
    requires X == j * yb + x && yb <= x && X < 4 * yb && 0 < yb && 0 <= j
    ensures j + 1 < 4 && (j + 1) * yb + (x - yb) == X
  {
    if j >= 3 {
      MulLe(3, j, yb);
    }
    assert (j + 1) * yb == j * yb + yb;
  }

  lemma OneDigit(s: seq<int>, n: nat, m: nat)
    requires m < n <= |s| && forall k :: 0 <= k < n && k != m ==> s[k] == 0
    ensures Ev(s, n) == s[m] * B(m)
  {
    EvZeros(s, 0, m);
    EvZeros(s, m + 1, n);
  }

  /** Undoing the normalization. */
  lemma Denormalized(a: int, b: int, p: int, q: int, x: int)
    requires 0 < p && 0 < b && 0 <= x < b * p && a * p == q * (b * p) + x
    ensures q == a / b && x / p == a % b && 0 <= x / p
  {
    var r := a - q * b;
    MulAssoc(q, b, p);
    assert r * p == a * p - (q * b) * p;
    MulCancelLt(r, b, p);
    if r < 0 {
      MulLe(r, -1, p);
    }
    DivModUnique(a, b, q, r);
    DivModUnique(x, p, r, 0);
  }

  /** The magnitudes: q is the quotient, x the remainder still shifted by norm bits. */
  method DivideMagnitudes(a: MpInt, b: MpInt) returns (q: MpInt, x: MpInt, norm: nat)
    requires a.Valid() && b.Valid() && 0 < b.Mag() <= a.Mag()
    ensures fresh(q) && fresh(x) && q != x && q.Wf() && !q.neg && x.Valid() && !x.neg
    ensures q.Mag() == a.Mag() / b.Mag() && x.Mag() / Pow(2, norm) == a.Mag() % b.Mag()
  {
    hide Ev, B, Pow, MpInt.Wf, Partial;
    q := new MpInt.Sized(a.used + 2);
    q.used := a.used + 2;
    AllZero(q);
    var y;
    x, y, norm := NormalizeOperands(a, b);
    var n, t := x.used - 1, y.used - 1;
    ghost var X := x.Mag();
    NormalizedRoom(a, b, x, y, norm);
    FirstDigit(x, y, q, n, t, X);
    DivideDigits(x, y, q, n, t, X);
    PartialEnd(X, y.Mag(), q.Mag(), x.Mag());
    Denormalized(a.Mag(), b.Mag(), Pow(2, norm), q.Mag(), x.Mag());
  }

  lemma AllZero(q: MpInt)
    requires q.used <= |q.dp| && MP_PREC <= |q.dp| && forall k :: 0 <= k < |q.dp| ==> q.dp[k] == 0
    ensures q.Wf() && q.Mag() == 0
  {
    EvZeros(q.dp, 0, q.used);
  }

  lemma PartialEnd(X: int, y: int, q: int, x: int)
    requires Partial(X, y, q, x, 0)
    ensures 0 <= x < y && X == q * y + x
  {
    assert B(0) == 1;
  }

  lemma NormalizedRoom(a: MpInt, b: MpInt, x: MpInt, y: MpInt, norm: nat)
    requires a.Valid() && b.Valid() && x.Valid() && y.Valid() && 0 < b.Mag() <= a.Mag() && norm < DIGIT_BIT
    requires x.Mag() == a.Mag() * Pow(2, norm) && y.Mag() == b.Mag() * Pow(2, norm)
    ensures 0 < y.used <= x.used <= a.used + 1
  {
    hide Ev, B, Pow;
    var p := Pow(2, norm);
    MulLe(b.Mag(), a.Mag(), p);
    MulLe(1, p, b.Mag());
    MagOrder(x, y);
    MagRange(a);
    PowTwoBelow(norm);
    MulLt(a.Mag(), B(a.used), p);
    MulLe(p, BETA, B(a.used));
    assert B(a.used + 1) == BETA * B(a.used) by { BAdd(1, a.used); BOne(); }
    UsedAtMost(x, a.used + 1);
  }

  /** mp_div, the HAC 14.20 version: the same contract as the bit-at-a-time one. */
  method DivDigits(a: MpInt, b: MpInt, c: MpInt?, d: MpInt?) returns (st: Status)
    requires a.Valid() && b.Valid() && (c != null ==> c.Valid()) && (d != null ==> d.Valid())
    requires c != null ==> c != d
    modifies c, d
    ensures st == Invalid <==> old(b.Val()) == 0
    ensures c != null ==> c.Valid() && (st == Okay ==> c.Val() == old(Quotient(a.Val(), b.Val())))
    ensures d != null ==> d.Valid() && (st == Okay ==> d.Val() == old(Remainder(a.Val(), b.Val())))
    ensures st == Invalid ==> (c != null ==> unchanged(c)) && (d != null ==> unchanged(d))
  {
    hide MpInt.Wf, Quotient, Remainder;
    if b.used == 0 {
      return Invalid;
    }
    st := Okay;
    ghost var v, w := a.Val(), b.Val();
    var cmp := CmpMag(a, b);
    if cmp == Lt {
      SmallDividend(v, w);
      if d != null {
        Copy(a, d);
      }
      if c != null {
        c.Zero();
      }
      return;
    }
    var sign, neg := a.neg, a.neg != b.neg;
    SignedQuotient(a, b);
    var q, x, norm := DivideMagnitudes(a, b);
    if c != null {
      DeliverQuotient(q, c, neg);
    }
    if d != null {
      DeliverRemainder(x, norm, d, sign);
    }
  }

  method DeliverQuotient(q: MpInt, c: MpInt, neg: bool)
    requires q != c && q.Wf() && q.Mag() > 0
    modifies q, c
    ensures c.Valid() && c.Val() == if neg then -old(q.Mag()) else old(q.Mag())
  {
    hide Ev;
    q.Clamp();
    Exch(q, c);
    c.neg := neg;
  }

  /** The remainder is signed like the dividend and shifted back. */
  method DeliverRemainder(x: MpInt, norm: nat, d: MpInt, sign: bool)
    requires x != d && x.Valid() && !x.neg
    modifies x, d
    ensures d.Valid() && d.Mag() == old(x.Mag()) / Pow(2, norm) && (d.used > 0 ==> d.neg == sign)
  {
    hide Ev, MpInt.Wf, Pow;
    x.neg := x.used != 0 && sign;
    ShiftedZero(x, norm);
    Div2d(x, norm, x, null);
    Exch(x, d);
  }

  lemma ShiftedZero(x: MpInt, norm: nat)
    requires x.Valid()
    ensures x.Mag() / Pow(2, 0) == x.Mag()
    ensures x.used == 0 ==> x.Mag() / Pow(2, norm) == 0
    ensures x.used > 0 ==> x.Mag() > 0
  {
    if x.used == 0 {
      ModSmall(0, Pow(2, norm));
    }
  }

  lemma SignedQuotient(a: MpInt, b: MpInt)
    requires a.Valid() && b.Valid() && 0 < b.Mag() <= a.Mag()
    ensures var q, r := a.Mag() / b.Mag(), a.Mag() % b.Mag();
            q > 0 && Quotient(a.Val(), b.Val()) == (if a.neg != b.neg then -q else q)
              && Remainder(a.Val(), b.Val()) == (if a.neg then -r else r)
  {
    var q := a.Mag() / b.Mag();
    DivModEq(a.Mag(), b.Mag());
    if q <= 0 {
      MulLe(q, 0, b.Mag());
    }
  }

  /** mp_mod over the digit-wise division. */
  method ModDigits(a: MpInt, b: MpInt, c: MpInt) returns (st: Status)
    requires a.Valid() && b.Valid() && c.Valid()
    modifies c
    ensures st == Invalid <==> old(b.Val()) == 0
    ensures c.Valid() && (st == Okay ==> c.Val() == old(Residue(a.Val(), b.Val())))
    ensures st == Invalid ==> unchanged(c)
  {
    hide MpInt.Wf, Remainder;
    var t := new MpInt();
    st := DivDigits(a, b, null, t);
    if st == Okay {
      if t.neg != b.neg {
        AddSub.Add(b, t, c);
      } else {
        Exch(t, c);
      }
    }
  }
}
