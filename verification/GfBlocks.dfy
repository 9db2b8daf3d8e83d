/** The field product of GCM on octet strings, and blocks of octets against polynomials. */
module GfBlocks {
  import opened Bytes
  import opened Xor
  import Arith
  import Gf128

  type Block = s: seq<Byte> | |s| == 16 witness Bytes.Zeros(16)

  // ---------------------------------------------------------------- octets as bits

  /** Bit n of an octet, counted from the right. */
  function BitAt(b: nat, n: nat): bool
  {
    if n == 0 then b % 2 == 1 else BitAt(b / 2, n - 1)
  }

  /** The bits of a string, the most significant bit of each octet first. */
  function Bits(s: seq<Byte>): (r: seq<bool>)
    ensures |r| == 8 * |s|
  {
    seq(8 * |s|, i requires 0 <= i < 8 * |s| => BitAt(s[i / 8], 7 - i % 8))
  }

  function Elem(s: Block): Gf128.Element
  {
    Bits(s)
  }

  /** The coefficient of x^i is a bit of octet i / 8, counted from its most significant one. */
  lemma ElemBits(s: Block, i: nat)
    requires i < 128
    ensures Elem(s)[i] <==> s[i / 8] / TwoTo(7 - i % 8) % 2 == 1
  {
    BitIs(s[i / 8], 7 - i % 8);
  }

  lemma {:induction false} BitIs(b: nat, n: nat)
    ensures BitAt(b, n) <==> b / TwoTo(n) % 2 == 1
  {
    if n > 0 {
      BitIs(b / 2, n - 1);
      Arith.DivDiv(b, 2, TwoTo(n - 1));
    }
  }

  lemma {:induction false} BitOfXor(a: nat, b: nat, n: nat)
    ensures BitAt(XorNum(a, b), n) == (BitAt(a, n) != BitAt(b, n))
  {
    XorHalves(a, b);
    hide XorNum;
    if n > 0 {
      BitOfXor(a / 2, b / 2, n - 1);
    } else {
      LowBits(a, b);
    }
  }

  lemma LowBits(a: nat, b: nat)
    ensures (a + b) % 2 == 1 <==> (a % 2 == 1) != (b % 2 == 1)
  {
  }

  lemma BitsOfXor(a: seq<Byte>, b: seq<Byte>)
    requires |a| == |b|
    ensures Bits(XorBytes(a, b)) == Gf128.Add(Bits(a), Bits(b))
  {
    hide XorNum, BitAt;
    forall i | 0 <= i < 8 * |a|
      ensures Bits(XorBytes(a, b))[i] == (Bits(a)[i] != Bits(b)[i])
    {
      BitOfXor(a[i / 8], b[i / 8], 7 - i % 8);
    }
  }

  lemma BitsOfZeros(n: nat)
    ensures Bits(Zeros(n)) == Gf128.Zeros(8 * n)
  {
    forall i | 0 <= i < 8 * n
      ensures !Bits(Zeros(n))[i]
    {
      BitOfZero(7 - i % 8);
    }
  }

  lemma {:induction false} BitOfZero(n: nat)
    ensures !BitAt(0, n)
  {
    if n > 0 {
      BitOfZero(n - 1);
    }
  }

  lemma {:induction false} BitOfHalf(b: nat, m: nat, c: nat, n: nat)
    requires b / 2 < TwoTo(m) && c < 2 && n <= m
    ensures BitAt(b / 2 + TwoTo(m) * c, n) == if n == m then c == 1 else BitAt(b, n + 1)
  {
    if m > 0 {
      var t := TwoTo(m - 1) * c;
      assert TwoTo(m) * c == 2 * t;
      assert (b / 2 + 2 * t) % 2 == (b / 2) % 2 && (b / 2 + 2 * t) / 2 == b / 2 / 2 + t;
      if n > 0 {
        BitOfHalf(b / 2, m - 1, c, n - 1);
      }
    }
  }

  /** The octet that a shift to the right by one bit makes of b after an octet a. */
  function Shifted(a: Byte, b: Byte): Byte
  {
    b / 2 + 128 * (a % 2)
  }

  lemma BitOfShifted(a: Byte, b: Byte, n: nat)
    requires n < 8
    ensures BitAt(Shifted(a, b), n) == if n == 7 then BitAt(a, 0) else BitAt(b, n + 1)
  {
    assert TwoTo(7) == 128;
    BitOfHalf(b, 7, a % 2, n);
  }

  ghost predicate IsShifted(u: seq<Byte>, v: seq<Byte>)
  {
    |u| == |v| && forall k {:trigger v[k]} :: 0 <= k < |u| ==> v[k] == Shifted(if k == 0 then 0 else u[k - 1], u[k])
  }

  lemma BitsOfShifted(u: seq<Byte>, v: seq<Byte>)
    requires |u| == 16 && IsShifted(u, v)
    ensures Bits(v) == [false] + Bits(u)[..127]
  {
    hide BitAt, Shifted;
    forall i | 0 <= i < 128
      ensures Bits(v)[i] == ([false] + Bits(u)[..127])[i]
    {
      var k, j := i / 8, i % 8;
      assert v[k] == Shifted(if k == 0 then 0 else u[k - 1], u[k]);
      BitOfShifted(if k == 0 then 0 else u[k - 1], u[k], 7 - j);
      BitOfZero(0);
      if j > 0 {
        assert (i - 1) / 8 == k && (i - 1) % 8 == j - 1;
      } else if k > 0 {
        assert (i - 1) / 8 == k - 1 && (i - 1) % 8 == 7;
      }
    }
  }

  // ---------------------------------------------------------------- the field product on octets

  method XorBlock(dst: array<Byte>, src: seq<Byte>)
    requires dst.Length == 16 && |src| == 16
    modifies dst
    ensures dst[..] == XorBytes(old(dst[..]), src)
  {
    hide XorByte;
    var k := 0;
    while k < 16
      invariant 0 <= k <= 16
      invariant forall m :: 0 <= m < 16 ==> dst[m] == if m < k then XorByte(old(dst[m]), src[m]) else old(dst[m])
    {
      dst[k] := XorByte(dst[k], src[k]);
      k := k + 1;
    }
  }

  /** One 32-bit word of the shift; the octet before the word has not been shifted yet. */
  method ShiftWord(v: array<Byte>, o: nat)
    requires v.Length == 16 && o <= 12
    modifies v
    ensures forall k :: 0 <= k < 16 && !(o <= k < o + 4) ==> v[k] == old(v[k])
    ensures forall k :: o <= k < o + 4 ==> v[k] == Shifted(if k == 0 then 0 else old(v[k - 1]), old(v[k]))
  {
    hide GetBE32, BE32, Shifted;
    var val := GetBE32(v[o], v[o + 1], v[o + 2], v[o + 3]);
    val := val / 2;
    ghost var carry: Byte := if o == 0 then 0 else v[o - 1];
    ShiftedWord(carry, v[o], v[o + 1], v[o + 2], v[o + 3]);
    if o > 0 && v[o - 1] % 2 == 1 {
      val := val + 0x8000_0000;
    }
    var w := BE32(val);
    v[o], v[o + 1], v[o + 2], v[o + 3] := w[0], w[1], w[2], w[3];
  }

  lemma ShiftedWord(p: Byte, a: Byte, b: Byte, c: Byte, d: Byte)
    ensures BE32(GetBE32(a, b, c, d) / 2 + 0x8000_0000 * (p % 2)) == [Shifted(p, a), Shifted(a, b), Shifted(b, c), Shifted(c, d)]
  {
    var v := GetBE32(a, b, c, d) / 2 + 0x8000_0000 * (p % 2);
    var x, y, z, w := Shifted(p, a), Shifted(a, b), Shifted(b, c), Shifted(c, d);
    assert v == GetBE32(x, y, z, w);
    BE32OfGet(x, y, z, w);
  }

  method ShiftRightBlock(v: array<Byte>)
    requires v.Length == 16
    modifies v
    ensures Bits(v[..]) == [false] + old(Bits(v[..]))[..127]
  {
    hide Shifted, Bits;
    ghost var u := v[..];
    ShiftWord(v, 12);
    ShiftWord(v, 8);
    ShiftWord(v, 4);
    ShiftWord(v, 0);
    BitsOfShifted(u, v[..]);
  }

  /** V times x: a shift, and the polynomial R when a bit falls out. */
  method NextMultiple(v: array<Byte>)
    requires v.Length == 16
    modifies v
    ensures Elem(v[..]) == Gf128.TimesX(old(Elem(v[..])))
  {
    hide BitAt, XorByte;
    ghost var u := Elem(v[..]);
    LastBit(v[..]);
    if v[15] % 2 == 1 {
      ShiftRightBlock(v);
      ghost var w := v[..];
      v[0] := XorByte(v[0], 0xe1);
      Reduction(w, v[..]);
    } else {
      ShiftRightBlock(v);
      Gf128.AddZeros(Elem(v[..]), 128);
    }
  }

  lemma LastBit(v: Block)
    ensures Elem(v)[127] == (v[15] % 2 == 1)
  {
  }

  lemma Reduction(w: Block, v: Block)
    requires v == w[0 := XorByte(w[0], 0xe1)]
    ensures Elem(v) == Gf128.Add(Elem(w), Gf128.R())
  {
    var e: Block := Zeros(16)[0 := 0xe1];
    ReductionBits();
    forall k | 0 <= k < 16
      ensures v[k] == XorBytes(w, e)[k]
    {
      XorNumZero(w[k]);
    }
    assert v == XorBytes(w, e);
    BitsOfXor(w, e);
  }

  lemma ReductionBits()
    ensures Bits(Zeros(16)[0 := 0xe1]) == Gf128.R()
  {
    var e := Zeros(16)[0 := 0xe1];
    OctetE1();
    hide BitAt;
    forall i | 0 <= i < 128
      ensures Bits(e)[i] == Gf128.R()[i]
    {
      BitOfZero(7 - i % 8);
      assert e[i / 8] == if i < 8 then 0xe1 else 0;
    }
  }

  lemma OctetE1()
    ensures BitAt(0xe1, 7) && BitAt(0xe1, 6) && BitAt(0xe1, 5) && BitAt(0xe1, 0)
    ensures !BitAt(0xe1, 4) && !BitAt(0xe1, 3) && !BitAt(0xe1, 2) && !BitAt(0xe1, 1)
  {
    assert BitAt(0xe1, 4) == BitAt(0x70, 3) == BitAt(0x38, 2) == BitAt(0x1c, 1) == BitAt(0x0e, 0);
    assert BitAt(0xe1, 5) == BitAt(0x1c, 2) == BitAt(0x0e, 1) == BitAt(0x07, 0);
    assert BitAt(0xe1, 6) == BitAt(0x0e, 2) == BitAt(0x07, 1) == BitAt(0x03, 0);
    assert BitAt(0xe1, 7) == BitAt(0x07, 2) == BitAt(0x03, 1) == BitAt(0x01, 0);
  }

  lemma ElemOfXor(a: Block, b: Block)
    ensures |XorBytes(a, b)| == 16 && Elem(XorBytes(a, b)) == Gf128.Add(Elem(a), Elem(b))
  {
    BitsOfXor(a, b);
  }

  lemma BitOfElem(x: Block, i: nat, j: nat)
    requires i < 16 && j < 8
    ensures Elem(x)[8 * i + j..] != [] && Elem(x)[8 * i + j..][0] == BitAt(x[i], 7 - j)
    ensures Elem(x)[8 * i + j..][1..] == Elem(x)[8 * i + j + 1..]
  {
  }

  lemma SumNext(z: Gf128.Element, v: Gf128.Element, rest: Gf128.Poly)
    requires rest != []
    ensures Gf128.Add(z, Gf128.Sum(rest, v))
         == Gf128.Add(if rest[0] then Gf128.Add(z, v) else z, Gf128.Sum(rest[1..], Gf128.TimesX(v)))
  {
    hide Gf128.TimesX;
    Gf128.AddAssoc(z, Gf128.Scaled(rest[0], v), Gf128.Sum(rest[1..], Gf128.TimesX(v)));
    Gf128.AddZeros(z, 128);
  }

  method Clear(z: array<Byte>)
    requires z.Length == 16
    modifies z
    ensures z[..] == Zeros(16) && Elem(z[..]) == Gf128.Zeros(128)
  {
    var k := 0;
    while k < 16
      invariant 0 <= k <= 16 && forall m :: 0 <= m < k ==> z[m] == 0
    {
      z[k] := 0;
      k := k + 1;
    }
    assert z[..] == Zeros(16);
    BitsOfZeros(16);
  }

  method CopyTo(z: array<Byte>, y: seq<Byte>)
    requires |y| == 16 == z.Length
    modifies z
    ensures z[..] == y
  {
    var k := 0;
    while k < 16
      invariant 0 <= k <= 16 && forall m :: 0 <= m < k ==> z[m] == y[m]
    {
      z[k] := y[k];
      k := k + 1;
    }
  }

  method GfMult(x: seq<Byte>, y: seq<Byte>, z: array<Byte>)
    requires |x| == 16 && |y| == 16 && z.Length == 16
    modifies z
    ensures Elem(z[..]) == Gf128.Mul(Elem(x), Elem(y))
  {
    hide BitAt, Elem, Gf128.TimesX, Gf128.Add, Gf128.Sum;
    Clear(z);
    var v := new Byte[16];
    CopyTo(v, y);
    ghost var sum := Gf128.Sum(Elem(x), Elem(y));
    Gf128.AddZeros(sum, 128);
    assert Elem(x)[0..] == Elem(x);
    var i := 0;
    while i < 16
      invariant 0 <= i <= 16
      invariant Gf128.Add(Elem(z[..]), Gf128.Sum(Elem(x)[8 * i..], Elem(v[..]))) == sum
    {
      var j := 0;
      while j < 8
        invariant 0 <= j <= 8
        invariant Gf128.Add(Elem(z[..]), Gf128.Sum(Elem(x)[8 * i + j..], Elem(v[..]))) == sum
      {
        ghost var zb, v0 := z[..], Elem(v[..]);
        if BitAt(x[i], 7 - j) {
          XorBlock(z, v[..]);
          ElemOfXor(zb, v[..]);
        }
        BitOfElem(x, i, j);
        SumNext(Elem(zb), v0, Elem(x)[8 * i + j..]);
        NextMultiple(v);
        j := j + 1;
      }
      i := i + 1;
    }
    assert Elem(x)[128..] == [];
    Gf128.SumStep([], Elem(v[..]));
    Gf128.AddZeros(Elem(z[..]), 128);
  }

  // ---------------------------------------------------------------- from polynomials back to octets

  function Octet(bits: seq<bool>): (r: nat)
    ensures r < TwoTo(|bits|)
  {
    if bits == [] then 0 else 2 * Octet(bits[..|bits| - 1]) + (if bits[|bits| - 1] then 1 else 0)
  }

  lemma {:induction false} BitOfOctet(bits: seq<bool>, n: nat)
    requires n < |bits|
    ensures BitAt(Octet(bits), n) == bits[|bits| - 1 - n]
  {
    if n > 0 {
      BitOfOctet(bits[..|bits| - 1], n - 1);
      assert Octet(bits) / 2 == Octet(bits[..|bits| - 1]);
    }
  }

  lemma {:induction false} BitsDetermine(a: nat, b: nat, m: nat)
    requires a < TwoTo(m) && b < TwoTo(m) && forall n :: 0 <= n < m ==> BitAt(a, n) == BitAt(b, n)
    ensures a == b
  {
    if m > 0 {
      assert BitAt(a, 0) == BitAt(b, 0);
      forall n | 0 <= n < m - 1
        ensures BitAt(a / 2, n) == BitAt(b / 2, n)
      {
        assert BitAt(a, n + 1) == BitAt(b, n + 1);
      }
      BitsDetermine(a / 2, b / 2, m - 1);
    }
  }

  /** The block of an element. */
  function OfElem(e: Gf128.Element): (s: Block)
    ensures Elem(s) == e
  {
    assert TwoTo(8) == 256;
    var s := seq<Byte>(16, k requires 0 <= k < 16 => Octet(e[8 * k..8 * k + 8]));
    OfElemBits(e, s);
    s
  }

  lemma OfElemBits(e: Gf128.Element, s: Block)
    requires forall k :: 0 <= k < 16 ==> s[k] == Octet(e[8 * k..8 * k + 8])
    ensures Elem(s) == e
  {
    hide BitAt, Octet;
    forall i | 0 <= i < 128
      ensures Elem(s)[i] == e[i]
    {
      var k := i / 8;
      assert s[k] == Octet(e[8 * k..8 * k + 8]);
      BitOfOctet(e[8 * k..8 * k + 8], 7 - i % 8);
    }
  }

  /** Each block is one element. */
  lemma ElemInjective(s: Block, t: Block)
    requires Elem(s) == Elem(t)
    ensures s == t
  {
    hide BitAt;
    assert TwoTo(8) == 256;
    forall k | 0 <= k < 16
      ensures s[k] == t[k]
    {
      forall n | 0 <= n < 8
        ensures BitAt(s[k], n) == BitAt(t[k], n)
      {
        var i := 8 * k + (7 - n);
        assert i / 8 == k && 7 - i % 8 == n;
        assert Elem(s)[i] == BitAt(s[k], n) && Elem(t)[i] == BitAt(t[k], n);
      }
      BitsDetermine(s[k], t[k], 8);
    }
  }

  lemma OfElemOf(s: Block)
    ensures OfElem(Elem(s)) == s
  {
    ElemInjective(OfElem(Elem(s)), s);
  }
}
