/** What the three streaming hashes have in common: a compression function folded over a padded message,
    and the state after any part of the message. */
module BlockHash {
  import Arith
  import opened Bytes

  const TWO64: nat := 0x1_0000_0000_0000_0000

  type Word = x: nat | x < 0x1_0000_0000

  /** Arithmetic of 32-bit variables. */
  function Wrap(x: nat): Word
  {
    x % TWO32
  }

  /** A compression function of 64-octet blocks on a state of some number of words. */
  datatype Compression = Compression(words: nat, init: seq<Word>, step: (seq<Word>, seq<Byte>) -> seq<Word>)
  {
    ghost predicate Sound()
    {
      |init| == words
      && forall s, b {:trigger step(s, b)} :: |s| == words && |b| == 64 ==> |step(s, b)| == words
    }
  }

  /** There are such functions. */
  lemma SomeCompression(init: seq<Word>)
    ensures Compression(|init|, init, (s, b) => s).Sound()
  {
  }

  ghost function Folded(c: Compression, s: seq<Word>, m: seq<Byte>): (r: seq<Word>)
    requires c.Sound() && |s| == c.words
    ensures |r| == c.words
    decreases |m|
  {
    if |m| < 64 then s else Folded(c, c.step(s, m[..64]), m[64..])
  }

  /** A message, one bit, as few zeros as fill the last block up to eight octets, and the length field. */
  function Padded(m: seq<Byte>, length: seq<Byte>): (r: seq<Byte>)
    requires |length| == 8
    ensures |r| % 64 == 0 && |r| < |m| + 73 && m <= r
  {
    m + [0x80] + Zeros(Fill(|m|)) + length
  }

  function Fill(n: nat): (z: nat)
    ensures z < 64 && (n + 1 + z) % 64 == 56
  {
    (119 - n % 64) % 64
  }

  /** Any fill that leaves room for the length and nothing else has this size or more. */
  lemma FillLeast(n: nat, k: nat)
    requires (n + 1 + k) % 64 == 56
    ensures Fill(n) <= k
  {
  }

  // ---------------------------------------------------------------- part of a message

  function Whole(m: seq<Byte>): nat
  {
    |m| / 64 * 64
  }

  /** The chaining state and the incomplete block. */
  ghost function Chain(c: Compression, m: seq<Byte>): (r: seq<Word>)
    requires c.Sound()
    ensures |r| == c.words
  {
    Folded(c, c.init, m)
  }

  function Rest(m: seq<Byte>): (r: seq<Byte>)
    ensures |r| == |m| % 64
  {
    m[Whole(m)..]
  }

  lemma {:induction false} FoldedLast(c: Compression, s: seq<Word>, m: seq<Byte>, b: seq<Byte>)
    requires c.Sound() && |s| == c.words && |m| % 64 == 0 && |b| == 64
    ensures Folded(c, s, m + b) == c.step(Folded(c, s, m), b)
    decreases |m|
  {
    if |m| == 0 {
      assert m + b == b && b[..64] == b;
    } else {
      assert (m + b)[..64] == m[..64] && (m + b)[64..] == m[64..] + b;
      FoldedLast(c, c.step(s, m[..64]), m[64..], b);
    }
  }

  lemma {:induction false} FoldedWhole(c: Compression, s: seq<Word>, m: seq<Byte>)
    requires c.Sound() && |s| == c.words
    ensures Folded(c, s, m) == Folded(c, s, m[..Whole(m)])
    decreases |m|
  {
    if |m| >= 64 {
      FoldedWhole(c, c.step(s, m[..64]), m[64..]);
      assert m[..Whole(m)][..64] == m[..64];
      assert m[..Whole(m)][64..] == m[64..][..Whole(m[64..])];
    }
  }

  lemma WholeOf(m: seq<Byte>, x: seq<Byte>)
    ensures |m| % 64 + |x| < 64 ==> Whole(m + x) == Whole(m)
    ensures |m| % 64 + |x| == 64 ==> Whole(m + x) == Whole(m) + 64 == |m + x|
  {
  }

  /** Octets that do not fill the block only lengthen the rest. */
  lemma Gathered(c: Compression, m: seq<Byte>, x: seq<Byte>)
    requires c.Sound() && |Rest(m)| + |x| < 64
    ensures Chain(c, m + x) == Chain(c, m) && Rest(m + x) == Rest(m) + x
  {
    hide Whole;
    WholeOf(m, x);
    WholeBelow(m);
    FoldedWhole(c, c.init, m);
    FoldedWhole(c, c.init, m + x);
    assert (m + x)[..Whole(m)] == m[..Whole(m)];
    assert (m + x)[Whole(m)..] == m[Whole(m)..] + x;
  }

  lemma WholeBelow(m: seq<Byte>)
    ensures Whole(m) + |m| % 64 == |m| && Whole(m) % 64 == 0
  {
  }

  /** Octets that fill the block step the chain. */
  lemma Filled(c: Compression, m: seq<Byte>, x: seq<Byte>)
    requires c.Sound() && |Rest(m)| + |x| == 64
    ensures Chain(c, m + x) == c.step(Chain(c, m), Rest(m) + x) && Rest(m + x) == []
  {
    hide Whole;
    WholeOf(m, x);
    WholeBelow(m);
    FoldedWhole(c, c.init, m);
    var b := Rest(m) + x;
    assert m + x == m[..Whole(m)] + b;
    FoldedLast(c, c.init, m[..Whole(m)], b);
  }

  lemma Nothing(c: Compression)
    requires c.Sound()
    ensures Chain(c, []) == c.init && Rest([]) == [] && Counts(0, 0, 0)
  {
  }

  /** The same for the octets of a longer string: the first i fill the block, */
  lemma FilledWith(c: Compression, m: seq<Byte>, data: seq<Byte>, i: nat)
    requires c.Sound() && i <= |data| && |m| % 64 + i == 64
    ensures Chain(c, m + data[..i]) == c.step(Chain(c, m), Rest(m) + data[..i])
  {
    hide Chain, Rest, Compression.Sound;
    Filled(c, m, data[..i]);
  }

  /** the next 64 are a block, */
  lemma BlockStep(c: Compression, m: seq<Byte>, data: seq<Byte>, i: nat)
    requires c.Sound() && i + 64 <= |data| && (|m| + i) % 64 == 0
    ensures Chain(c, m + data[..i + 64]) == c.step(Chain(c, m + data[..i]), data[i..i + 64])
  {
    hide Chain, Whole, Compression.Sound;
    var x := data[i..i + 64];
    Filled(c, m + data[..i], x);
    assert Rest(m + data[..i]) + x == x;
    assert m + data[..i] + x == m + data[..i + 64];
  }

  /** and those left over do not fill another. */
  lemma GatheredRest(c: Compression, m: seq<Byte>, data: seq<Byte>, i: nat)
    requires c.Sound() && i <= |data| && (|m| + i) % 64 + (|data| - i) < 64
    ensures Chain(c, m + data) == Chain(c, m + data[..i]) && Rest(m + data) == Rest(m + data[..i]) + data[i..]
  {
    hide Chain, Rest, Compression.Sound;
    Gathered(c, m + data[..i], data[i..]);
    assert m + data[..i] + data[i..] == m + data;
  }

  /** Padding that fits behind the incomplete block, and padding that needs a block of its own. */
  lemma PaddingInBlock(c: Compression, m: seq<Byte>, length: seq<Byte>)
    requires c.Sound() && |length| == 8 && |m| % 64 < 56
    ensures Chain(c, Padded(m, length)) == c.step(Chain(c, m), Rest(m) + [0x80] + Zeros(55 - |m| % 64) + length)
  {
    hide Chain, Rest, Compression.Sound;
    var z := Zeros(55 - |m| % 64);
    var x := [0x80] + z + length;
    assert Fill(|m|) == |z|;
    assert Padded(m, length) == m + x;
    Filled(c, m, x);
    assert Rest(m) + x == Rest(m) + [0x80] + z + length;
  }

  lemma PaddingInTwo(c: Compression, m: seq<Byte>, length: seq<Byte>)
    requires c.Sound() && |length| == 8 && |m| % 64 >= 56
    ensures Chain(c, Padded(m, length))
         == c.step(c.step(Chain(c, m), Rest(m) + [0x80] + Zeros(63 - |m| % 64)), Zeros(56) + length)
  {
    hide Chain, Rest, Compression.Sound;
    var x, y := [0x80] + Zeros(63 - |m| % 64), Zeros(56) + length;
    assert Zeros(Fill(|m|)) == Zeros(63 - |m| % 64) + Zeros(56);
    assert Padded(m, length) == m + x + y;
    Filled(c, m, x);
    Filled(c, m + x, y);
    assert Rest(m) + x == Rest(m) + [0x80] + Zeros(63 - |m| % 64);
    assert Rest(m + x) + y == y;
  }

  // ---------------------------------------------------------------- counters and words

  /** Two words count the bits of n octets, modulo 2^64. */
  predicate Counts(c0: nat, c1: nat, n: nat)
  {
    c0 < TWO32 && c1 < TWO32 && c0 + TWO32 * c1 == 8 * n % TWO64
  }

  /** The two-word counter of bits after len more octets: the carry is seen as the low word coming out below
      the amount added. */
  lemma Counter(c0: nat, c1: nat, n: nat, len: nat)
    requires Counts(c0, c1, n) && len < TWO32
    ensures var low := Wrap(c0 + Wrap(8 * len));
            var carry := if low < Wrap(8 * len) then 1 else 0;
            && (low < Wrap(8 * len) <==> low < c0) && Wrap(c1) == c1
            && Counts(low, Wrap(Wrap(c1 + carry) + len / 0x2000_0000), n + len)
  {
    var x := Wrap(8 * len);
    var low := Wrap(c0 + x);
    var carry := if low < x then 1 else 0;
    var h := len / 0x2000_0000;
    assert 8 * len == x + TWO32 * h;
    assert c0 + x == low + TWO32 * carry;
    var high := Wrap(Wrap(c1 + carry) + h);
    HighWord(c1, carry, h);
    CounterSum(c0 + TWO32 * c1, n, len, low, high, c1 + carry + h);
  }

  lemma HighWord(c1: nat, carry: nat, h: nat)
    ensures Wrap(Wrap(c1 + carry) + h) == Wrap(c1 + carry + h)
  {
  }

  lemma CounterSum(count: nat, n: nat, len: nat, low: nat, high: nat, h: nat)
    requires count == 8 * n % TWO64 && low < TWO32 && high == h % TWO32 && count + 8 * len == low + TWO32 * h
    ensures low + TWO32 * high == 8 * (n + len) % TWO64
  {
    var q, g := 8 * n / TWO64, h / TWO32;
    Arith.DivModEq(8 * n, TWO64);
    Arith.DivModEq(h, TWO32);
    assert 8 * (n + len) == (q + g) * TWO64 + (low + TWO32 * high);
    Arith.DivModUnique(8 * (n + len), TWO64, q + g, low + TWO32 * high);
  }

  /** The octets of the incomplete block, from the low word of the counter. */
  lemma PendingOf(c0: nat, c1: nat, n: nat)
    requires Counts(c0, c1, n)
    ensures c0 / 8 % 64 == n % 64
  {
    var q := 8 * n / TWO64;
    Arith.DivModEq(8 * n, TWO64);
    SixtyFours(c0, n, 0x80_0000_0000_0000 * q + 0x80_0000 * c1);
  }

  lemma SixtyFours(c0: nat, n: nat, k: nat)
    requires c0 == 8 * n - 512 * k
    ensures c0 / 8 % 64 == n % 64
  {
    assert c0 / 8 == n - 64 * k;
  }

  /** The bits of the whole blocks, modulo 2^64. */
  function WholeBits(m: seq<Byte>): nat
  {
    8 * Whole(m) % TWO64
  }

  lemma LengthStep(m: seq<Byte>, x: seq<Byte>)
    requires |m| % 64 + |x| <= 64
    ensures WholeBits(m + x) == if |m| % 64 + |x| == 64 then (WholeBits(m) + 512) % TWO64 else WholeBits(m)
  {
    WholeOf(m, x);
  }

  lemma AllBits(m: seq<Byte>)
    ensures (WholeBits(m) + |m| % 64 * 8) % TWO64 == 8 * |m| % TWO64
  {
    WholeBelow(m);
  }

  lemma NoRest(m: seq<Byte>)
    requires |m| % 64 == 0
    ensures Rest(m) == []
  {
  }

  /** The length field of a number of bits below 2^64. */
  lemma LengthField(l: nat, n: nat)
    requires l == 8 * n % TWO64
    ensures BitsBE(n) == BE32(l / TWO32) + BE32(l % TWO32)
  {
  }

  function BigEndian(s: seq<Word>): (r: seq<Byte>)
    ensures |r| == 4 * |s|
  {
    if s == [] then [] else BigEndian(s[..|s| - 1]) + BE32(s[|s| - 1])
  }

  function LittleEndian(s: seq<Word>): (r: seq<Byte>)
    ensures |r| == 4 * |s|
  {
    if s == [] then [] else LittleEndian(s[..|s| - 1]) + LE32(s[|s| - 1])
  }

  /** The length field of both SHA functions, most significant octet first, and that of MD5. */
  function BitsBE(n: nat): (r: seq<Byte>)
    ensures |r| == 8
  {
    BE32(8 * n % TWO64 / TWO32) + BE32(8 * n % TWO64 % TWO32)
  }

  function BitsLE(n: nat): (r: seq<Byte>)
    ensures |r| == 8
  {
    LE32(8 * n % TWO64 % TWO32) + LE32(8 * n % TWO64 / TWO32)
  }

  lemma Halves(c0: nat, c1: nat, n: nat)
    requires Counts(c0, c1, n)
    ensures BitsBE(n) == BE32(c1) + BE32(c0) && BitsLE(n) == LE32(c0) + LE32(c1)
  {
    assert 8 * n % TWO64 / TWO32 == c1 && 8 * n % TWO64 % TWO32 == c0;
  }

  /** The two kinds of hash, by how they write words. */
  ghost function ShaDigest(c: Compression, m: seq<Byte>): seq<Byte>
    requires c.Sound()
  {
    BigEndian(Chain(c, Padded(m, BitsBE(|m|))))
  }

  ghost function MdDigest(c: Compression, m: seq<Byte>): seq<Byte>
    requires c.Sound()
  {
    LittleEndian(Chain(c, Padded(m, BitsLE(|m|))))
  }

  /** What a SHA digest is, from the message to its octets: q is the message with a one bit, fewer than 64 zero
      octets and its length in bits, and st has the state before each block of q and the last one. */
  lemma ShaDigestIs(c: Compression, m: seq<Byte>) returns (q: seq<Byte>, st: seq<seq<Word>>)
    requires c.Sound()
    ensures |q| % 64 == 0 && |m| + 9 <= |q| < |m| + 73 && q[..|m|] == m && q[|m|] == 0x80
    ensures forall k :: |m| < k < |q| - 8 ==> q[k] == 0
    ensures BytesVal(q[|q| - 8..]) == 8 * |m| % 0x1_0000_0000_0000_0000
    ensures |st| == |q| / 64 + 1 && st[0] == c.init
    ensures forall i :: 0 <= i < |q| / 64 ==> st[i + 1] == c.step(st[i], q[64 * i..64 * i + 64])
    ensures |st[|q| / 64]| == c.words && |ShaDigest(c, m)| == 4 * c.words
    ensures forall k :: 0 <= k < 4 * c.words ==>
              ShaDigest(c, m)[k] == st[|q| / 64][k / 4] / Arith.Pow(256, 3 - k % 4) % 256
  {
    hide Padded, Fill, BitsBE, Arith.Pow;
    var length := BitsBE(|m|);
    q := Padded(m, length);
    PaddedParts(m, length);
    LengthValueBE(|m|);
    st := StatesOf(c, c.init, q);
    var last := st[|q| / 64];
    forall k | 0 <= k < 4 * c.words
      ensures BigEndian(last)[k] == last[k / 4] / Arith.Pow(256, 3 - k % 4) % 256
    {
      WordsAt(last, k);
    }
  }

  /** The same for MD5, which writes the least significant octet first in both places. */
  lemma MdDigestIs(c: Compression, m: seq<Byte>) returns (q: seq<Byte>, st: seq<seq<Word>>)
    requires c.Sound()
    ensures |q| % 64 == 0 && |m| + 9 <= |q| < |m| + 73 && q[..|m|] == m && q[|m|] == 0x80
    ensures forall k :: |m| < k < |q| - 8 ==> q[k] == 0
    ensures forall r: seq<Byte> {:trigger BytesVal(r)} ::
              (|r| == 8 && forall k :: 0 <= k < 8 ==> r[k] == q[|q| - 1 - k])
              ==> BytesVal(r) == 8 * |m| % 0x1_0000_0000_0000_0000
    ensures |st| == |q| / 64 + 1 && st[0] == c.init
    ensures forall i :: 0 <= i < |q| / 64 ==> st[i + 1] == c.step(st[i], q[64 * i..64 * i + 64])
    ensures |st[|q| / 64]| == c.words && |MdDigest(c, m)| == 4 * c.words
    ensures forall k :: 0 <= k < 4 * c.words ==>
              MdDigest(c, m)[k] == st[|q| / 64][k / 4] / Arith.Pow(256, k % 4) % 256
  {
    hide Padded, Fill, BitsLE, Arith.Pow;
    var length := BitsLE(|m|);
    q := Padded(m, length);
    PaddedParts(m, length);
    forall r: seq<Byte> {:trigger BytesVal(r)} | |r| == 8 && forall k :: 0 <= k < 8 ==> r[k] == q[|q| - 1 - k]
      ensures BytesVal(r) == 8 * |m| % TWO64
    {
      forall k | 0 <= k < 8
        ensures r[k] == length[7 - k]
      {
        assert q[|q| - 8..][7 - k] == q[|q| - 1 - k];
      }
      LengthValueLE(|m|, r);
    }
    st := StatesOf(c, c.init, q);
    var last := st[|q| / 64];
    forall k | 0 <= k < 4 * c.words
      ensures LittleEndian(last)[k] == last[k / 4] / Arith.Pow(256, k % 4) % 256
    {
      WordsAt(last, k);
    }
  }

  lemma PaddedParts(m: seq<Byte>, length: seq<Byte>)
    requires |length| == 8
    ensures var q := Padded(m, length);
            && |m| + 9 <= |q| && q[..|m|] == m && q[|m|] == 0x80 && q[|q| - 8..] == length
            && forall k :: |m| < k < |q| - 8 ==> q[k] == 0
  {
  }

  lemma LengthValueBE(n: nat)
    ensures BytesVal(BitsBE(n)) == 8 * n % TWO64
  {
    TwoWords(8 * n % TWO64 / TWO32, 8 * n % TWO64 % TWO32);
  }

  lemma TwoWords(h: nat, l: nat)
    requires h < TWO32 && l < TWO32
    ensures BytesVal(BE32(h) + BE32(l)) == h * TWO32 + l
  {
    hide *;
    OneWord(h);
    OneWord(l);
    ValueOfTwo(BE32(h), BE32(l));
    FourOctets();
  }

  lemma OneWord(n: nat)
    requires n < TWO32
    ensures BytesVal(BE32(n)) == n
  {
    FieldsWritten(n);
    Arith.ModSmall(n, TWO32);
  }

  lemma FourOctets()
    ensures Arith.Pow(256, 4) == TWO32
  {
    assert Arith.Pow(256, 1) == 256;
    assert Arith.Pow(256, 2) == 0x1_0000;
    Arith.PowStep(256, 3);
    Arith.PowStep(256, 4);
  }

  lemma LengthValueLE(n: nat, r: seq<Byte>)
    requires |r| == 8 && forall k :: 0 <= k < 8 ==> r[k] == BitsLE(n)[7 - k]
    ensures BytesVal(r) == 8 * n % TWO64
  {
    hide BytesVal;
    LengthValueBE(n);
    Backwards(8 * n % TWO64 / TWO32, 8 * n % TWO64 % TWO32, r);
  }

  lemma Backwards(h: nat, l: nat, r: seq<Byte>)
    requires |r| == 8 && forall k :: 0 <= k < 8 ==> r[k] == (LE32(l) + LE32(h))[7 - k]
    ensures r == BE32(h) + BE32(l)
  {
    var a, b := LE32(l), LE32(h);
    assert BE32(l) == [a[3], a[2], a[1], a[0]];
    assert BE32(h) == [b[3], b[2], b[1], b[0]];
    var s := a + b;
    assert r == [s[7], s[6], s[5], s[4], s[3], s[2], s[1], s[0]];
  }

  lemma {:induction false} StatesOf(c: Compression, s: seq<Word>, q: seq<Byte>) returns (st: seq<seq<Word>>)
    requires c.Sound() && |s| == c.words && |q| % 64 == 0
    ensures |st| == |q| / 64 + 1 && st[0] == s && st[|q| / 64] == Folded(c, s, q)
    ensures forall i :: 0 <= i < |q| / 64 ==> st[i + 1] == c.step(st[i], q[64 * i..64 * i + 64])
    decreases |q|
  {
    if q == [] {
      st := [s];
    } else {
      var rest := StatesOf(c, c.step(s, q[..64]), q[64..]);
      st := [s] + rest;
      forall i | 0 <= i < |q| / 64
        ensures st[i + 1] == c.step(st[i], q[64 * i..64 * i + 64])
      {
        if i > 0 {
          assert q[64..][64 * (i - 1)..64 * (i - 1) + 64] == q[64 * i..64 * i + 64];
        }
      }
    }
  }

  lemma {:induction false} WordsAt(s: seq<Word>, k: nat)
    requires k < 4 * |s|
    ensures BigEndian(s)[k] == s[k / 4] / Arith.Pow(256, 3 - k % 4) % 256
    ensures LittleEndian(s)[k] == s[k / 4] / Arith.Pow(256, k % 4) % 256
  {
    hide BE32, LE32, Arith.Pow;
    if k / 4 == |s| - 1 {
      WordOctets(s[k / 4], k % 4);
    } else {
      WordsAt(s[..|s| - 1], k);
    }
  }

  /** The state words as octets, most significant first. */
  method WriteBigEndian(s: seq<Word>) returns (digest: seq<Byte>)
    ensures digest == BigEndian(s)
  {
    digest := [];
    var i := 0;
    while i < |s|
      invariant 0 <= i <= |s| && digest == BigEndian(s[..i])
    {
      assert s[..i + 1][..i] == s[..i];
      digest := digest + BE32(s[i]);
      i := i + 1;
    }
    assert s[..i] == s;
  }

  /** The 64 octets of a context that hold the incomplete block. */
  method CopyInto(buffer: array<Byte>, j: nat, data: seq<Byte>)
    requires j + |data| <= buffer.Length
    modifies buffer
    ensures buffer[..j] == old(buffer[..j]) && buffer[..j + |data|] == old(buffer[..j]) + data
  {
    var k := 0;
    while k < |data|
      invariant 0 <= k <= |data|
      invariant buffer[..j + k] == old(buffer[..j]) + data[..k]
    {
      buffer[j + k] := data[k];
      assert buffer[..j + k + 1] == buffer[..j + k] + [data[k]];
      assert data[..k + 1] == data[..k] + [data[k]];
      k := k + 1;
    }
    assert buffer[..j] == buffer[..j + |data|][..j];
    assert data[..|data|] == data;
  }
}
