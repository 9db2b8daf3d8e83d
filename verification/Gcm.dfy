/** Galois/counter mode over an abstract block cipher: GHASH as a polynomial in the hash subkey, the
    counter mode, and authenticated encryption with its inverse. Sizes are those of a 32-bit build. */
module Gcm {
  import Arith
  import opened Bytes
  import opened Xor
  import opened GfBlocks
  import Gf128

  /** An encryption function of blocks with its key set up. */
  type Aes = Block -> Block

  // ---------------------------------------------------------------- GHASH

  /** A string in blocks, the last one filled up with zeros. */
  function Blocks(s: seq<Byte>): (r: seq<Block>)
    ensures |r| == (|s| + 15) / 16
    decreases |s|
  {
    if s == [] then []
    else if |s| < 16 then [s + Zeros(16 - |s|)]
    else [s[..16]] + Blocks(s[16..])
  }

  /** Where each octet of the string goes. */
  lemma {:induction false} BlocksAt(s: seq<Byte>, i: nat, j: nat)
    requires i < |Blocks(s)| && j < 16
    ensures Blocks(s)[i][j] == if 16 * i + j < |s| then s[16 * i + j] else 0
    decreases |s|
  {
    if |s| >= 16 && i > 0 {
      BlocksAt(s[16..], i - 1, j);
    }
  }

  /** Y_i = (Y_(i-1) + X_i) * H over all blocks. */
  function Ghash(h: Gf128.Element, y: Gf128.Element, blocks: seq<Block>): Gf128.Element
    decreases |blocks|
  {
    if blocks == [] then y else Ghash(h, Gf128.Mul(Gf128.Add(y, Elem(blocks[0])), h), blocks[1..])
  }

  function Power(h: Gf128.Element, n: nat): Gf128.Element
  {
    if n == 0 then Gf128.One() else Gf128.Mul(h, Power(h, n - 1))
  }

  /** X_1 * H^m + X_2 * H^(m-1) + ... + X_m * H. */
  function Polynomial(h: Gf128.Element, blocks: seq<Block>): Gf128.Element
  {
    if blocks == [] then Gf128.Zeros(128)
    else Gf128.Add(Gf128.Mul(Elem(blocks[0]), Power(h, |blocks|)), Polynomial(h, blocks[1..]))
  }

  lemma {:induction false} GhashIsPolynomial(h: Gf128.Element, y: Gf128.Element, blocks: seq<Block>)
    ensures Ghash(h, y, blocks) == Gf128.Add(Gf128.Mul(y, Power(h, |blocks|)), Polynomial(h, blocks))
    decreases |blocks|
  {
    hide Gf128.Mul, Gf128.Add, Elem, Gf128.One;
    if blocks == [] {
      Gf128.MulOneZero(y);
      Gf128.AddZeros(y, 128);
    } else {
      var x := Elem(blocks[0]);
      var p := Power(h, |blocks| - 1);
      GhashIsPolynomial(h, Gf128.Mul(Gf128.Add(y, x), h), blocks[1..]);
      Gf128.MulAssoc(Gf128.Add(y, x), h, p);
      Gf128.MulBilinear(Power(h, |blocks|), y, x);
      Gf128.AddAssoc(Gf128.Mul(y, Power(h, |blocks|)), Gf128.Mul(x, Power(h, |blocks|)), Polynomial(h, blocks[1..]));
    }
  }

  lemma {:induction false} GhashConcat(h: Gf128.Element, y: Gf128.Element, a: seq<Block>, b: seq<Block>)
    ensures Ghash(h, y, a + b) == Ghash(h, Ghash(h, y, a), b)
    decreases |a|
  {
    hide Gf128.Mul, Gf128.Add, Elem;
    if a == [] {
      assert a + b == b;
    } else {
      assert (a + b)[0] == a[0] && (a + b)[1..] == a[1..] + b;
      GhashConcat(h, Gf128.Mul(Gf128.Add(y, Elem(a[0])), h), a[1..], b);
    }
  }

  /** One block: Y = (Y + X) * H. */
  method GhashBlock(h: seq<Byte>, x: seq<Byte>, y: array<Byte>)
    requires |h| == 16 && |x| == 16 && y.Length == 16
    modifies y
    ensures Elem(y[..]) == Gf128.Mul(Gf128.Add(old(Elem(y[..])), Elem(x)), Elem(h))
  {
    ghost var y0 := y[..];
    XorBlock(y, x);
    ElemOfXor(y0, x);
    var tmp := new Byte[16];
    GfMult(y[..], h, tmp);
    CopyTo(y, tmp[..]);
  }

  method GhashUpdate(h: seq<Byte>, x: seq<Byte>, y: array<Byte>)
    requires |h| == 16 && y.Length == 16
    modifies y
    ensures Elem(y[..]) == Ghash(Elem(h), old(Elem(y[..])), Blocks(x))
  {
    hide Elem, Gf128.Mul, Gf128.Add;
    var m := |x| / 16;
    var i, xpos := 0, 0;
    ghost var all := Ghash(Elem(h), Elem(y[..]), Blocks(x));
    assert x[0..] == x;
    while i < m
      invariant 0 <= i <= m && xpos == 16 * i
      invariant Ghash(Elem(h), Elem(y[..]), Blocks(x[xpos..])) == all
    {
      assert x[xpos..][..16] == x[xpos..xpos + 16] && x[xpos..][16..] == x[xpos + 16..];
      GhashBlock(h, x[xpos..xpos + 16], y);
      xpos := xpos + 16;
      i := i + 1;
    }
    if |x| > xpos {
      var last := |x| - xpos;
      GhashBlock(h, x[xpos..] + Zeros(16 - last), y);
    }
  }

  function BE64(n: nat): (r: seq<Byte>)
    ensures |r| == 8
  {
    BE32(n / TWO32) + BE32(n % TWO32)
  }

  /** A length in bits, computed in 32 bits. */
  function BitLength(n: nat): nat
  {
    n * 8 % TWO32
  }

  function Lengths(a: nat, c: nat): Block
  {
    BE64(BitLength(a)) + BE64(BitLength(c))
  }

  /** The length block is the standard's exactly for strings below 2^29 octets. */
  lemma LengthsExact(a: nat, c: nat)
    requires a < TWO32 && c < TWO32
    ensures Lengths(a, c) == BE64(8 * a) + BE64(8 * c) <==> a < 0x2000_0000 && c < 0x2000_0000
  {
    HighWord(8 * a);
    HighWord(8 * c);
    HighWord(BitLength(a));
    HighWord(BitLength(c));
    var l, s := Lengths(a, c), BE64(8 * a) + BE64(8 * c);
    assert l[3] == BE64(BitLength(a))[3] && l[11] == BE64(BitLength(c))[3];
    assert s[3] == BE64(8 * a)[3] && s[11] == BE64(8 * c)[3];
  }

  lemma HighWord(n: nat)
    requires n < 8 * TWO32
    ensures BE64(n)[3] == n / TWO32 && (n / TWO32 == 0 <==> n < TWO32)
  {
    Arith.ModSmall(n / TWO32, 256);
  }

  /** What is authenticated: the additional data, the ciphertext, each padded, and their lengths. */
  function Authenticated(aad: seq<Byte>, crypt: seq<Byte>): seq<Block>
  {
    Blocks(aad) + Blocks(crypt) + [Lengths(|aad|, |crypt|)]
  }

  method AesGcmGhash(h: seq<Byte>, aad: seq<Byte>, crypt: seq<Byte>, s: array<Byte>)
    requires |h| == 16 && s.Length == 16
    modifies s
    ensures Elem(s[..]) == Polynomial(Elem(h), Authenticated(aad, crypt))
  {
    hide Elem, Ghash, Polynomial, Blocks, Gf128.Mul, Gf128.Add, BE64, BitLength;
    Clear(s);
    GhashUpdate(h, aad, s);
    GhashUpdate(h, crypt, s);
    var lenBuf := BE64(BitLength(|aad|)) + BE64(BitLength(|crypt|));
    GhashUpdate(h, lenBuf, s);
    GhashOfParts(Elem(h), Blocks(aad), Blocks(crypt), Blocks(lenBuf));
    OneBlock(lenBuf);
  }

  lemma OneBlock(b: Block)
    ensures Blocks(b) == [b]
  {
    assert b[..16] == b && b[16..] == [];
  }

  lemma GhashOfParts(h: Gf128.Element, a: seq<Block>, b: seq<Block>, c: seq<Block>)
    ensures Ghash(h, Ghash(h, Ghash(h, Gf128.Zeros(128), a), b), c) == Polynomial(h, a + b + c)
  {
    hide Ghash, Polynomial;
    GhashConcat(h, Gf128.Zeros(128), a, b);
    GhashConcat(h, Gf128.Zeros(128), a + b, c);
    GhashFromZero(h, a + b + c);
  }

  lemma GhashFromZero(h: Gf128.Element, blocks: seq<Block>)
    ensures Ghash(h, Gf128.Zeros(128), blocks) == Polynomial(h, blocks)
  {
    hide Ghash, Polynomial, Power;
    GhashIsPolynomial(h, Gf128.Zeros(128), blocks);
    Gf128.MulOneZero(Power(h, |blocks|));
    Gf128.AddZeros(Polynomial(h, blocks), 128);
  }

  // ---------------------------------------------------------------- counter mode

  /** The last 32 bits plus one. */
  function Inc32(b: Block): Block
  {
    b[..12] + BE32((GetBE32(b[12], b[13], b[14], b[15]) + 1) % TWO32)
  }

  function Gctr(aes: Aes, cb: Block, x: seq<Byte>): (r: seq<Byte>)
    ensures |r| == |x|
    decreases |x|
  {
    if |x| < 16 then XorBytes(x, aes(cb)[..|x|])
    else XorBytes(aes(cb), x[..16]) + Gctr(aes, Inc32(cb), x[16..])
  }

  lemma {:induction false} GctrTwice(aes: Aes, cb: Block, x: seq<Byte>)
    ensures Gctr(aes, cb, Gctr(aes, cb, x)) == x
    decreases |x|
  {
    hide Inc32, XorBytes;
    var y := Gctr(aes, cb, x);
    if |x| < 16 {
      XorBytesTwice(x, aes(cb)[..|x|]);
    } else {
      GctrTwice(aes, Inc32(cb), x[16..]);
      assert y[..16] == XorBytes(aes(cb), x[..16]) && y[16..] == Gctr(aes, Inc32(cb), x[16..]);
      XorBytesComm(aes(cb), x[..16]);
      XorBytesTwice(x[..16], aes(cb));
      XorBytesComm(aes(cb), y[..16]);
      assert x == x[..16] + x[16..];
    }
  }

  /** Octet k is masked with an octet of the key stream block of number k / 16: the encryption of a counter block c
      that differs from the first one in its last four octets only, whose number is k / 16 more modulo 2^32. */
  lemma {:induction false} GctrAt(aes: Aes, cb: Block, x: seq<Byte>, k: nat, c: Block)
    requires k < |x| && c[..12] == cb[..12]
    requires BytesVal(c[12..]) == (BytesVal(cb[12..]) + k / 16) % 0x1_0000_0000
    ensures Gctr(aes, cb, x)[k] == XorByte(x[k], aes(c)[k % 16])
    decreases |x|
  {
    hide Inc32, XorByte, BytesVal;
    if k < 16 {
      CounterBelow(cb);
      SameCounter(cb, c);
      if |x| >= 16 {
        XorByteComm(aes(cb)[k], x[k]);
      }
    } else {
      var next := Inc32(cb);
      IncCounts(cb);
      Arith.CongAdd((BytesVal(cb[12..]) + 1) % TWO32, BytesVal(cb[12..]) + 1, k / 16 - 1, k / 16 - 1, TWO32);
      GctrAt(aes, next, x[16..], k - 16, c);
    }
  }

  lemma CounterBelow(b: Block)
    ensures BytesVal(b[12..]) < TWO32
  {
    ShortValues(b[12..]);
  }

  /** The counter step keeps the first 96 bits and counts modulo 2^32. */
  lemma IncCounts(b: Block)
    ensures Inc32(b)[..12] == b[..12] && BytesVal(Inc32(b)[12..]) == (BytesVal(b[12..]) + 1) % 0x1_0000_0000
  {
    hide BytesVal, BE32, GetBE32;
    var t := b[12..];
    FieldsRead(t);
    assert t[..4] == t;
    var n := (GetBE32(b[12], b[13], b[14], b[15]) + 1) % TWO32;
    FieldsWritten(n);
    Arith.ModMod(GetBE32(b[12], b[13], b[14], b[15]) + 1, TWO32);
    assert Inc32(b)[12..] == BE32(n);
  }

  lemma SameCounter(a: Block, b: Block)
    requires a[..12] == b[..12] && BytesVal(a[12..]) == BytesVal(b[12..])
    ensures a == b
  {
    ValFixed(a[12..]);
    ValFixed(b[12..]);
    assert a == a[..12] + a[12..] && b == b[..12] + b[12..];
  }

  /** The first block of the rest of the input. */
  lemma GctrNext(aes: Aes, cb: Block, x: seq<Byte>, pos: nat, out: seq<Byte>)
    requires pos + 16 <= |x|
    ensures out + Gctr(aes, cb, x[pos..])
         == out + XorBytes(aes(cb), x[pos..pos + 16]) + Gctr(aes, Inc32(cb), x[pos + 16..])
  {
    hide Inc32, XorByte;
    assert x[pos..][..16] == x[pos..pos + 16] && x[pos..][16..] == x[pos + 16..];
  }

  method AesGctr(aes: Aes, icb: seq<Byte>, x: seq<Byte>, y: array<Byte>)
    requires |icb| == 16 && |x| <= y.Length
    modifies y
    ensures y[..|x|] == Gctr(aes, icb, x) && y[|x|..] == old(y[|x|..])
    ensures forall k: nat, c: Block {:trigger y[k], aes(c)} ::
              k < |x| && c[..12] == icb[..12] && BytesVal(c[12..]) == (BytesVal(icb[12..]) + k / 16) % 0x1_0000_0000
              ==> y[k] == XorByte(x[k], aes(c)[k % 16])
  {
    hide Gctr, XorByte, BytesVal;
    CounterMode(aes, icb, x);
    GctrBlocks(aes, icb, x, y);
    assert forall k :: 0 <= k < |x| ==> y[k] == y[..|x|][k];
  }

  method GctrBlocks(aes: Aes, icb: seq<Byte>, x: seq<Byte>, y: array<Byte>)
    requires |icb| == 16 && |x| <= y.Length
    modifies y
    ensures y[..|x|] == Gctr(aes, icb, x) && y[|x|..] == old(y[|x|..])
  {
    hide Inc32, XorBytes, Gctr;
    if |x| == 0 {
      return;
    }
    var n := |x| / 16;
    var cb: Block := icb;
    var i, pos := 0, 0;
    assert x[0..] == x;
    while i < n
      invariant 0 <= i <= n && pos == 16 * i
      invariant y[..pos] + Gctr(aes, cb, x[pos..]) == Gctr(aes, icb, x)
      invariant y[pos..] == old(y[pos..])
    {
      GctrNext(aes, cb, x, pos, y[..pos]);
      WriteXor(y, pos, aes(cb), x[pos..pos + 16]);
      assert old(y[pos..])[16..] == old(y[pos + 16..]);
      cb := Inc32(cb);
      pos := pos + 16;
      i := i + 1;
    }
    var last := |x| - pos;
    if last > 0 {
      var tmp := aes(cb);
      WriteXor(y, pos, x[pos..], tmp[..last]);
    }
    GctrLast(aes, cb, x[pos..]);
    assert old(y[pos..])[last..] == old(y[|x|..]);
  }

  /** All octets at once. */
  lemma CounterMode(aes: Aes, icb: Block, x: seq<Byte>)
    ensures forall k: nat, c: Block {:trigger Gctr(aes, icb, x)[k], aes(c)} ::
              k < |x| && c[..12] == icb[..12] && BytesVal(c[12..]) == (BytesVal(icb[12..]) + k / 16) % 0x1_0000_0000
              ==> Gctr(aes, icb, x)[k] == XorByte(x[k], aes(c)[k % 16])
  {
    hide Gctr, XorByte, BytesVal;
    forall k: nat, c: Block {:trigger Gctr(aes, icb, x)[k], aes(c)}
      | k < |x| && c[..12] == icb[..12] && BytesVal(c[12..]) == (BytesVal(icb[12..]) + k / 16) % 0x1_0000_0000
      ensures Gctr(aes, icb, x)[k] == XorByte(x[k], aes(c)[k % 16])
    {
      GctrAt(aes, icb, x, k, c);
    }
  }

  lemma GctrLast(aes: Aes, cb: Block, x: seq<Byte>)
    requires |x| < 16
    ensures Gctr(aes, cb, x) == XorBytes(x, aes(cb)[..|x|])
  {
  }

  method WriteXor(y: array<Byte>, pos: nat, a: seq<Byte>, b: seq<Byte>)
    requires |a| == |b| && pos + |a| <= y.Length
    modifies y
    ensures y[..pos + |a|] == old(y[..pos]) + XorBytes(a, b)
    ensures y[pos + |a|..] == old(y[pos..])[|a|..]
  {
    hide XorByte;
    var i := 0;
    while i < |a|
      invariant 0 <= i <= |a|
      invariant forall k :: 0 <= k < i ==> y[pos + k] == XorByte(a[k], b[k])
      invariant forall k :: 0 <= k < y.Length && !(pos <= k < pos + i) ==> y[k] == old(y[k])
    {
      y[pos + i] := XorByte(a[i], b[i]);
      i := i + 1;
    }
    forall k | 0 <= k < |a|
      ensures y[pos..pos + |a|][k] == XorBytes(a, b)[k]
    {
      assert y[pos + k] == XorByte(a[k], b[k]);
    }
    assert y[pos..pos + |a|] == XorBytes(a, b);
  }

  // ---------------------------------------------------------------- authenticated encryption

  function Subkey(aes: Aes): Block
  {
    aes(Zeros(16))
  }

  /** The counter block before the first, from an initial value of any length. */
  function J0(aes: Aes, iv: seq<Byte>): Block
  {
    if |iv| == 12 then iv + [0, 0, 0, 1]
    else OfElem(Polynomial(Elem(Subkey(aes)), Blocks(iv) + [BE64(0) + BE64(BitLength(|iv|))]))
  }

  function Tag(aes: Aes, iv: seq<Byte>, aad: seq<Byte>, crypt: seq<Byte>): seq<Byte>
  {
    Gctr(aes, J0(aes, iv), OfElem(Polynomial(Elem(Subkey(aes)), Authenticated(aad, crypt))))
  }

  datatype Sealed = Sealed(crypt: seq<Byte>, tag: seq<Byte>)

  function Seal(aes: Aes, iv: seq<Byte>, plain: seq<Byte>, aad: seq<Byte>): Sealed
  {
    var crypt := Gctr(aes, Inc32(J0(aes, iv)), plain);
    Sealed(crypt, Tag(aes, iv, aad, crypt))
  }

  datatype Opened = Opened(ok: bool, plain: seq<Byte>)

  /** The plaintext is written whether or not the tag is right. */
  function Open(aes: Aes, iv: seq<Byte>, crypt: seq<Byte>, aad: seq<Byte>, tag: seq<Byte>): Opened
  {
    Opened(tag == Tag(aes, iv, aad, crypt), Gctr(aes, Inc32(J0(aes, iv)), crypt))
  }

  /** What was sealed opens to the plaintext, and whatever opens was sealed from what it opens to. */
  lemma SealOpen(aes: Aes, iv: seq<Byte>, plain: seq<Byte>, aad: seq<Byte>, crypt: seq<Byte>, tag: seq<Byte>)
    ensures Seal(aes, iv, plain, aad) == Sealed(crypt, tag) <==> Open(aes, iv, crypt, aad, tag) == Opened(true, plain)
  {
    hide J0, Inc32, Tag, Gctr;
    GctrTwice(aes, Inc32(J0(aes, iv)), plain);
    GctrTwice(aes, Inc32(J0(aes, iv)), crypt);
  }

  /** The length block of two strings: their sizes in bits, each in eight octets. */
  lemma LengthBlock(a: nat, c: nat, n: Block)
    requires BytesVal(n[..8]) == 8 * a % TWO32 && BytesVal(n[8..]) == 8 * c % TWO32
    ensures n == Lengths(a, c) && (a == 0 ==> n == BE64(0) + BE64(BitLength(c)))
  {
    hide BE64, BytesVal;
    WideField(n[..8], BitLength(a));
    WideField(n[8..], BitLength(c));
    assert n == n[..8] + n[8..];
  }

  lemma WideField(s: seq<Byte>, n: nat)
    requires |s| == 8 && BytesVal(s) == n < TWO32
    ensures s == BE64(n)
  {
    hide BytesVal, BE32;
    ValFixed(s);
    FieldsWritten(n);
    Arith.ModSmall(n, TWO32);
    assert BE32(0) == Zeros(4) by {
      ShortZero();
    }
    ZerosInFront(4, BE32(n));
    ValFixed(BE64(n));
  }

  lemma ShortZero()
    ensures BE32(0) == Zeros(4)
  {
  }

  /** The counter block before the first: the vector with a one behind it, or the GHASH of the vector and its size. */
  lemma StartIs(aes: Aes, iv: seq<Byte>, j0: Block, n: Block)
    requires if |iv| == 12 then j0 == iv + [0, 0, 0, 1]
             else BytesVal(n[..8]) == 0 && BytesVal(n[8..]) == 8 * |iv| % 0x1_0000_0000
                  && Elem(j0) == Polynomial(Elem(aes(Zeros(16))), Blocks(iv) + [n])
    ensures j0 == J0(aes, iv)
  {
    hide Elem, Polynomial, Blocks, BE64, BitLength, OfElem, BytesVal, Lengths;
    if |iv| != 12 {
      LengthBlock(0, |iv|, n);
      OfElemOf(j0);
    }
  }

  /** What is sealed, octet by octet: the plaintext masked from the second counter block on, and the GHASH of
      additional data, ciphertext and their sizes masked with the first. */
  lemma SealIs(aes: Aes, iv: seq<Byte>, plain: seq<Byte>, aad: seq<Byte>, j0: Block, n: Block, g: Block, l: Block)
    requires if |iv| == 12 then j0 == iv + [0, 0, 0, 1]
             else BytesVal(n[..8]) == 0 && BytesVal(n[8..]) == 8 * |iv| % 0x1_0000_0000
                  && Elem(j0) == Polynomial(Elem(aes(Zeros(16))), Blocks(iv) + [n])
    requires BytesVal(l[..8]) == 8 * |aad| % 0x1_0000_0000 && BytesVal(l[8..]) == 8 * |plain| % 0x1_0000_0000
    requires Elem(g) == Polynomial(Elem(aes(Zeros(16))), Blocks(aad) + Blocks(Seal(aes, iv, plain, aad).crypt) + [l])
    ensures |Seal(aes, iv, plain, aad).crypt| == |plain| && |Seal(aes, iv, plain, aad).tag| == 16
    ensures forall k: nat, c: Block {:trigger Seal(aes, iv, plain, aad).crypt[k], aes(c)} ::
              k < |plain| && c[..12] == j0[..12]
              && BytesVal(c[12..]) == (BytesVal(j0[12..]) + 1 + k / 16) % 0x1_0000_0000
              ==> Seal(aes, iv, plain, aad).crypt[k] == XorByte(plain[k], aes(c)[k % 16])
    ensures forall k: nat :: k < 16 ==> Seal(aes, iv, plain, aad).tag[k] == XorByte(g[k], aes(j0)[k])
  {
    hide Gctr, Inc32, XorByte, Elem, Polynomial, Blocks, BytesVal, J0, OfElem, Lengths;
    StartIs(aes, iv, j0, n);
    SecondCounter(aes, j0, plain);
    LengthBlock(|aad|, |plain|, l);
    OfElemOf(g);
    CounterBelow(j0);
    CounterMode(aes, j0, g);
    Arith.ModSmall(BytesVal(j0[12..]), TWO32);
    forall k: nat | k < 16
      ensures Gctr(aes, j0, g)[k] == XorByte(g[k], aes(j0)[k])
    {
      GctrAt(aes, j0, g, k, j0);
    }
  }

  lemma SecondCounter(aes: Aes, j0: Block, x: seq<Byte>)
    ensures forall k: nat, c: Block {:trigger Gctr(aes, Inc32(j0), x)[k], aes(c)} ::
              k < |x| && c[..12] == j0[..12] && BytesVal(c[12..]) == (BytesVal(j0[12..]) + 1 + k / 16) % 0x1_0000_0000
              ==> Gctr(aes, Inc32(j0), x)[k] == XorByte(x[k], aes(c)[k % 16])
  {
    hide Gctr, XorByte, BytesVal, Inc32;
    IncCounts(j0);
    var v := BytesVal(j0[12..]);
    forall k: nat, c: Block {:trigger Gctr(aes, Inc32(j0), x)[k], aes(c)}
      | k < |x| && c[..12] == j0[..12] && BytesVal(c[12..]) == (v + 1 + k / 16) % 0x1_0000_0000
      ensures Gctr(aes, Inc32(j0), x)[k] == XorByte(x[k], aes(c)[k % 16])
    {
      Arith.CongAdd((v + 1) % TWO32, v + 1, k / 16, k / 16, TWO32);
      GctrAt(aes, Inc32(j0), x, k, c);
    }
  }

  /** With the 12-octet vector the counter starts at two. */
  lemma FromTwo(aes: Aes, iv: seq<Byte>, x: seq<Byte>)
    requires |iv| == 12
    ensures forall k: nat, c: Block {:trigger Gctr(aes, Inc32(J0(aes, iv)), x)[k], aes(c)} ::
              k < |x| && c[..12] == iv && BytesVal(c[12..]) == (2 + k / 16) % 0x1_0000_0000
              ==> Gctr(aes, Inc32(J0(aes, iv)), x)[k] == XorByte(x[k], aes(c)[k % 16])
  {
    hide Gctr, XorByte, BytesVal, Inc32;
    var j0 := J0(aes, iv);
    assert j0[12..] == [0, 0, 0, 1];
    ShortValues(j0[12..]);
    SecondCounter(aes, j0, x);
  }

  /** What opens: the same masks, and the tag is right if it is the one that would be sealed. */
  lemma OpenIs(aes: Aes, iv: seq<Byte>, crypt: seq<Byte>, aad: seq<Byte>, tag: seq<Byte>, j0: Block, n: Block, g: Block,
               l: Block)
    requires if |iv| == 12 then j0 == iv + [0, 0, 0, 1]
             else BytesVal(n[..8]) == 0 && BytesVal(n[8..]) == 8 * |iv| % 0x1_0000_0000
                  && Elem(j0) == Polynomial(Elem(aes(Zeros(16))), Blocks(iv) + [n])
    requires BytesVal(l[..8]) == 8 * |aad| % 0x1_0000_0000 && BytesVal(l[8..]) == 8 * |crypt| % 0x1_0000_0000
    requires Elem(g) == Polynomial(Elem(aes(Zeros(16))), Blocks(aad) + Blocks(crypt) + [l])
    ensures var plain := Open(aes, iv, crypt, aad, tag).plain;
            && |plain| == |crypt|
            && forall k: nat, c: Block {:trigger plain[k], aes(c)} ::
                 k < |crypt| && c[..12] == j0[..12]
                 && BytesVal(c[12..]) == (BytesVal(j0[12..]) + 1 + k / 16) % 0x1_0000_0000
                 ==> plain[k] == XorByte(crypt[k], aes(c)[k % 16])
    ensures |tag| == 16 ==>
              (Open(aes, iv, crypt, aad, tag).ok <==> forall k: nat :: k < 16 ==> tag[k] == XorByte(g[k], aes(j0)[k]))
  {
    hide Inc32, Gctr, J0, Elem, Polynomial, Blocks, BytesVal, XorByte;
    var t := Open(aes, iv, crypt, aad, tag);
    var s := Seal(aes, iv, t.plain, aad);
    StartIs(aes, iv, j0, n);
    GctrTwice(aes, Inc32(j0), crypt);
    SealIs(aes, iv, t.plain, aad, j0, n, g, l);
    SecondCounter(aes, j0, crypt);
    assert s.crypt == crypt && s.tag == Tag(aes, iv, aad, crypt);
    assert |tag| == 16 && (forall k: nat :: k < 16 ==> tag[k] == s.tag[k]) ==> tag == s.tag;
  }

  method PrepareJ0(aes: Aes, iv: seq<Byte>, h: seq<Byte>, j0: array<Byte>)
    requires h == Subkey(aes) && j0.Length == 16
    modifies j0
    ensures j0[..] == J0(aes, iv)
  {
    hide Elem, Ghash, Polynomial, Blocks, Gf128.Mul, Gf128.Add, BE64, BitLength, OfElem;
    if |iv| == 12 {
      CopyTo(j0, iv + Zeros(4));
      j0[15] := 1;
      assert j0[..] == iv + [0, 0, 0, 1];
    } else {
      Clear(j0);
      GhashUpdate(h, iv, j0);
      var lenBuf := BE64(0) + BE64(BitLength(|iv|));
      GhashUpdate(h, lenBuf, j0);
      OneBlock(lenBuf);
      GhashConcat(Elem(h), Gf128.Zeros(128), Blocks(iv), [lenBuf]);
      GhashFromZero(Elem(h), Blocks(iv) + [lenBuf]);
      OfElemOf(j0[..]);
    }
  }

  method AesGcmAe(aes: Aes, iv: seq<Byte>, plain: seq<Byte>, aad: seq<Byte>, crypt: array<Byte>, tag: array<Byte>)
    requires crypt.Length == |plain| && tag.Length == 16 && crypt != tag
    modifies crypt, tag
    ensures Seal(aes, iv, plain, aad) == Sealed(crypt[..], tag[..])
    ensures |iv| == 12 ==>
              forall k: nat, c: Block {:trigger crypt[k], aes(c)} ::
                k < |plain| && c[..12] == iv && BytesVal(c[12..]) == (2 + k / 16) % 0x1_0000_0000
                ==> crypt[k] == XorByte(plain[k], aes(c)[k % 16])
  {
    hide J0, Inc32, Gctr, Elem, Polynomial, OfElem, Authenticated, XorByte, BytesVal;
    if |iv| == 12 {
      FromTwo(aes, iv, plain);
    }
    var h := aes(Zeros(16));
    var j0 := new Byte[16];
    PrepareJ0(aes, iv, h, j0);
    GcmGctr(aes, j0[..], plain, crypt);
    var s := new Byte[16];
    AesGcmGhash(h, aad, crypt[..], s);
    OfElemOf(s[..]);
    AesGctr(aes, j0[..], s[..], tag);
    assert tag[..16] == tag[..];
    assert forall k :: 0 <= k < |plain| ==> crypt[k] == crypt[..][k];
  }

  method GcmGctr(aes: Aes, j0: seq<Byte>, x: seq<Byte>, out: array<Byte>)
    requires |j0| == 16 && out.Length == |x|
    modifies out
    ensures out[..] == Gctr(aes, Inc32(j0), x)
  {
    hide Inc32;
    if |x| == 0 {
      return;
    }
    AesGctr(aes, Inc32(j0), x, out);
    assert out[..|x|] == out[..];
  }

  method AesGcmAd(aes: Aes, iv: seq<Byte>, crypt: seq<Byte>, aad: seq<Byte>, tag: seq<Byte>, plain: array<Byte>)
    returns (ok: bool)
    requires plain.Length == |crypt| && |tag| == 16
    modifies plain
    ensures Open(aes, iv, crypt, aad, tag) == Opened(ok, plain[..])
    ensures |iv| == 12 ==>
              forall k: nat, c: Block {:trigger plain[k], aes(c)} ::
                k < |crypt| && c[..12] == iv && BytesVal(c[12..]) == (2 + k / 16) % 0x1_0000_0000
                ==> plain[k] == XorByte(crypt[k], aes(c)[k % 16])
  {
    hide J0, Inc32, Gctr, Elem, Polynomial, OfElem, Authenticated, XorByte, BytesVal;
    if |iv| == 12 {
      FromTwo(aes, iv, crypt);
    }
    var h := aes(Zeros(16));
    var j0 := new Byte[16];
    PrepareJ0(aes, iv, h, j0);
    GcmGctr(aes, j0[..], crypt, plain);
    var s, t := new Byte[16], new Byte[16];
    AesGcmGhash(h, aad, crypt, s);
    OfElemOf(s[..]);
    AesGctr(aes, j0[..], s[..], t);
    assert t[..16] == t[..];
    ok := tag == t[..];
    assert forall k :: 0 <= k < |crypt| ==> plain[k] == plain[..][k];
  }
}
