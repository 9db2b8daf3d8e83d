/** Exclusive or of octets and octet strings, bit by bit. */
module Xor {
  import Arith
  import opened Bytes

  /** Bitwise exclusive or of numbers of any width. */
  function XorNum(a: nat, b: nat): (r: nat)
    decreases a + b
  {
    if a == 0 && b == 0 then 0 else (a + b) % 2 + 2 * XorNum(a / 2, b / 2)
  }

  lemma {:induction false} XorNumComm(a: nat, b: nat)
    ensures XorNum(a, b) == XorNum(b, a)
    decreases a + b
  {
    if a != 0 || b != 0 {
      XorNumComm(a / 2, b / 2);
    }
  }

  lemma {:induction false} XorNumAssoc(a: nat, b: nat, c: nat)
    ensures XorNum(XorNum(a, b), c) == XorNum(a, XorNum(b, c))
    decreases a + b + c
  {
    hide XorNum;
    XorHalves(a, b);
    XorHalves(b, c);
    XorHalves(XorNum(a, b), c);
    XorHalves(a, XorNum(b, c));
    Parities(XorNum(a, b), XorNum(b, c), a, b, c);
    if a != 0 || b != 0 || c != 0 {
      XorNumAssoc(a / 2, b / 2, c / 2);
    } else {
      XorNumZero(XorNum(0, 0));
    }
  }

  lemma Parities(x: nat, y: nat, a: nat, b: nat, c: nat)
    requires x % 2 == (a + b) % 2 && y % 2 == (b + c) % 2
    ensures (x + c) % 2 == (a + y) % 2
  {
  }

  lemma {:induction false} XorNumSelf(a: nat)
    ensures XorNum(a, a) == 0
  {
    if a != 0 {
      XorNumSelf(a / 2);
    }
  }

  /** Low bit and upper part of an exclusive or. */
  lemma XorHalves(a: nat, b: nat)
    ensures XorNum(a, b) % 2 == (a + b) % 2 && XorNum(a, b) / 2 == XorNum(a / 2, b / 2)
  {
    XorOnce(a, b);
    hide XorNum;
    LowBitOnTop(XorNum(a / 2, b / 2), (a + b) % 2);
  }

  lemma XorOnce(a: nat, b: nat)
    ensures XorNum(a, b) == (a + b) % 2 + 2 * XorNum(a / 2, b / 2)
  {
    if a == 0 && b == 0 {
      assert XorNum(0, 0) == 0;
    }
  }

  lemma LowBitOnTop(x: nat, r: nat)
    requires r < 2
    ensures (r + 2 * x) % 2 == r && (r + 2 * x) / 2 == x
  {
  }

  lemma {:induction false} XorNumZero(a: nat)
    ensures XorNum(a, 0) == a && XorNum(0, a) == a
  {
    if a != 0 {
      XorNumZero(a / 2);
    }
  }

  lemma XorNumTwice(a: nat, b: nat)
    ensures XorNum(XorNum(a, b), b) == a
  {
    XorNumAssoc(a, b, b);
    XorNumSelf(b);
    XorNumZero(a);
  }

  /** A power of two bounds the exclusive or when it bounds both numbers. */
  lemma {:induction false} XorNumBound(a: nat, b: nat, n: nat)
    requires a < TwoTo(n) && b < TwoTo(n)
    ensures XorNum(a, b) < TwoTo(n)
  {
    if n > 0 {
      XorNumBound(a / 2, b / 2, n - 1);
    }
  }

  function TwoTo(n: nat): (r: nat)
    ensures r > 0
  {
    if n == 0 then 1 else 2 * TwoTo(n - 1)
  }

  function XorByte(a: Byte, b: Byte): (r: Byte)
  {
    assert TwoTo(8) == 256;
    XorNumBound(a, b, 8);
    XorNum(a, b)
  }

  /** Octet-wise exclusive or of equally long strings. */
  function XorBytes(a: seq<Byte>, b: seq<Byte>): (r: seq<Byte>)
    requires |a| == |b|
    ensures |r| == |a| && forall k :: 0 <= k < |a| ==> r[k] == XorByte(a[k], b[k])
  {
    seq(|a|, k requires 0 <= k < |a| => XorByte(a[k], b[k]))
  }

  /** Every bit is the exclusive or of the two bits. */
  lemma {:induction false} XorBits(a: nat, b: nat, n: nat)
    ensures XorNum(a, b) / TwoTo(n) % 2 == (a / TwoTo(n) + b / TwoTo(n)) % 2
  {
    hide XorNum, TwoTo;
    XorHalves(a, b);
    Doubles(n);
    if n > 0 {
      XorBits(a / 2, b / 2, n - 1);
      Arith.DivDiv(a, 2, TwoTo(n - 1));
      Arith.DivDiv(b, 2, TwoTo(n - 1));
      Arith.DivDiv(XorNum(a, b), 2, TwoTo(n - 1));
    }
  }

  lemma Doubles(n: nat)
    ensures TwoTo(n) == if n == 0 then 1 else 2 * TwoTo(n - 1)
  {
  }

  lemma XorByteBits(a: Byte, b: Byte, n: nat)
    ensures var x: nat, y: nat, z: nat := a, b, XorByte(a, b); z / TwoTo(n) % 2 == (x / TwoTo(n) + y / TwoTo(n)) % 2
  {
    hide XorNum, TwoTo;
    XorBits(a, b, n);
  }

  lemma XorByteTwice(a: Byte, b: Byte)
    ensures XorByte(XorByte(a, b), b) == a
  {
    XorNumTwice(a, b);
  }

  lemma XorBytesComm(a: seq<Byte>, b: seq<Byte>)
    requires |a| == |b|
    ensures XorBytes(a, b) == XorBytes(b, a)
  {
    hide XorByte;
    forall k | 0 <= k < |a|
      ensures XorBytes(a, b)[k] == XorBytes(b, a)[k]
    {
      XorByteComm(a[k], b[k]);
    }
  }

  lemma XorByteComm(a: Byte, b: Byte)
    ensures XorByte(a, b) == XorByte(b, a)
  {
    XorNumComm(a, b);
  }

  lemma XorBytesTwice(a: seq<Byte>, b: seq<Byte>)
    requires |a| == |b|
    ensures XorBytes(XorBytes(a, b), b) == a
  {
    hide XorByte;
    forall k | 0 <= k < |a|
      ensures XorBytes(XorBytes(a, b), b)[k] == a[k]
    {
      XorByteTwice(a[k], b[k]);
    }
  }
}
