/** Digit strings in base 2^28, least significant digit first, and the number their first n digits
    stand for. Every digit loop of the library is specified by these two functions. */
module Digits {
  import opened Arith

  const DIGIT_BIT: nat := 28
  const BETA: int := 0x1000_0000

  /** The length of the column arrays of the fast routines. */
  const MP_WARRAY: nat := 512

  /** One machine word of the target (a digit in transit may use all 32 bits). */
  type Digit = x: int | 0 <= x < 0x1_0000_0000
  /** The double word in which columns are accumulated. */
  type Word = x: int | 0 <= x < 0x1_0000_0000_0000_0000

  /** What is left of a value in one machine word. */
  function Wrap32(v: int): Digit
  {
    v % 0x1_0000_0000
  }

  /** BETA to the n. */
  ghost function B(n: nat): (r: int)
    ensures r > 0
  {
    if n == 0 then 1 else BETA * B(n - 1)
  }

  ghost function Ev(s: seq<int>, n: nat): int
    requires n <= |s|
  {
    if n == 0 then 0 else Ev(s, n - 1) + s[n - 1] * B(n - 1)
  }

  ghost predicate Digital(s: seq<int>, n: nat)
    requires n <= |s|
  {
    forall k :: 0 <= k < n ==> 0 <= s[k] < BETA
  }

  /** A number without its low n digits. */
  ghost function DropLow(x: int, n: nat): int
  {
    x / B(n)
  }

  lemma {:induction false} BAdd(m: nat, n: nat)
    ensures B(m + n) == B(m) * B(n)
  {
    if m > 0 {
      BAdd(m - 1, n);
      MulAssoc(BETA, B(m - 1), B(n));
    }
  }

  lemma {:induction false} BMono(m: nat, n: nat)
    requires m <= n
    ensures B(m) <= B(n)
    decreases n - m
  {
    if m < n {
      BMono(m, n - 1);
    }
  }

  /** The value depends on the counted digits only. */
  lemma {:induction false} EvSame(s: seq<int>, t: seq<int>, n: nat)
    requires n <= |s| && n <= |t|
    requires forall k :: 0 <= k < n ==> s[k] == t[k]
    ensures Ev(s, n) == Ev(t, n)
  {
    if n > 0 {
      EvSame(s, t, n - 1);
    }
  }

  lemma DigitBelow(d: int, p: int)
    requires 0 <= d < BETA && p > 0
    ensures 0 <= d * p <= BETA * p - p
  {
    MulLe(d, BETA - 1, p);
    MulLe(0, d, p);
  }

  lemma {:induction false} EvBound(s: seq<int>, n: nat)
    requires n <= |s| && Digital(s, n)
    ensures 0 <= Ev(s, n) < B(n)
  {
    if n > 0 {
      EvBound(s, n - 1);
      DigitBelow(s[n - 1], B(n - 1));
    }
  }

  lemma EvBoundPrefix(s: seq<int>, k: nat, n: nat)
    requires k <= n <= |s| && Digital(s, n)
    ensures 0 <= Ev(s, k) < B(k)
  {
    EvBound(s, k);
  }

  lemma {:induction false} EvZeros(s: seq<int>, m: nat, n: nat)
    requires m <= n <= |s|
    requires forall k :: m <= k < n ==> s[k] == 0
    ensures Ev(s, n) == Ev(s, m)
  {
    if m < n {
      EvZeros(s, m, n - 1);
    }
  }

  /** A nonzero top digit puts the value between two powers of the base. */
  lemma EvTop(s: seq<int>, n: nat)
    requires 0 < n <= |s| && Digital(s, n) && s[n - 1] > 0
    ensures B(n - 1) <= Ev(s, n) < B(n)
  {
    EvBound(s, n);
    EvBound(s, n - 1);
    MulLe(1, s[n - 1], B(n - 1));
  }

  /** Splitting a column into the digit kept and the carry passed on. */
  lemma Carry(t: int, d: int, u: int, p: int)
    requires t == d + u * BETA
    ensures d * p + u * (BETA * p) == t * p
  {
    MulAssoc(u, BETA, p);
  }

  /** One step of a loop that writes digits upwards: the digit written and the new carry account for
      the old carry plus the column value. */
  lemma Column(s0: seq<int>, s1: seq<int>, i: nat, u0: int, col: int, u: int)
    requires i < |s0| == |s1|
    requires forall k :: 0 <= k < i ==> s1[k] == s0[k]
    requires col + u0 == s1[i] + u * BETA
    ensures Ev(s1, i + 1) + u * B(i + 1) == Ev(s0, i) + u0 * B(i) + col * B(i)
  {
    EvSame(s0, s1, i);
    var p := B(i);
    Carry(col + u0, s1[i], u, p);
    assert (col + u0) * p == col * p + u0 * p;
  }

  /** Digit strings shifted by m places. */
  lemma {:induction false} EvShift(s: seq<int>, t: seq<int>, m: nat, n: nat)
    requires n <= |s| && m + n <= |t|
    requires forall k :: 0 <= k < n ==> t[m + k] == s[k]
    ensures Ev(t, m + n) == Ev(t, m) + B(m) * Ev(s, n)
  {
    if n > 0 {
      EvShift(s, t, m, n - 1);
      BAdd(m, n - 1);
      MulDist(B(m), Ev(s, n - 1), s[n - 1], B(n - 1));
    }
  }

  /** What lies above the first k digits is a multiple of B(k). */
  lemma EvSplit(s: seq<int>, k: nat, n: nat) returns (z: int)
    requires k <= n <= |s|
    ensures Ev(s, n) == Ev(s, k) + B(k) * z
  {
    EvShift(s[k..], s, k, n - k);
    z := Ev(s[k..], n - k);
  }

  /** Comparing equal-length strings from the top: the first difference decides. */
  lemma EvLess(s: seq<int>, t: seq<int>, i: nat, n: nat)
    requires i < n <= |s| && n <= |t| && Digital(s, n) && Digital(t, n)
    requires s[i] < t[i] && forall k :: i < k < n ==> s[k] == t[k]
    ensures Ev(s, n) < Ev(t, n)
  {
    EvBound(s, i);
    EvBound(t, i);
    MulLe(s[i] + 1, t[i], B(i));
    assert (s[i] + 1) * B(i) == s[i] * B(i) + B(i);
    EvAgreeAbove(s, t, i + 1, n);
  }

  lemma {:induction false} EvAgreeAbove(s: seq<int>, t: seq<int>, i: nat, n: nat)
    requires i <= n <= |s| && n <= |t|
    requires forall k :: i <= k < n ==> s[k] == t[k]
    ensures Ev(s, n) - Ev(s, i) == Ev(t, n) - Ev(t, i)
  {
    if i < n {
      EvAgreeAbove(s, t, i, n - 1);
    }
  }
}
