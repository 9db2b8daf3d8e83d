/** Octet strings and the nonnegative numbers they stand for, most significant octet first. */
module Bytes {
  import opened Arith

  type Byte = x: int | 0 <= x < 256

  /** Where a 32-bit variable wraps around. */
  const TWO32: nat := 0x1_0000_0000

  function BytesVal(s: seq<Byte>): (v: nat)
  {
    if s == [] then 0 else BytesVal(s[..|s| - 1]) * 256 + s[|s| - 1]
  }

  /** The shortest octet string for a number; zero has none. */
  function ValBytes(v: nat): (s: seq<Byte>)
    ensures s == [] <==> v == 0
  {
    if v == 0 then [] else ValBytes(v / 256) + [v % 256]
  }

  function Zeros(n: nat): (s: seq<Byte>)
    ensures |s| == n && forall k :: 0 <= k < n ==> s[k] == 0
  {
    seq(n, i => 0)
  }

  /** A number in exactly n octets. */
  function Fixed(v: nat, n: nat): (s: seq<Byte>)
    requires |ValBytes(v)| <= n
    ensures |s| == n
  {
    Zeros(n - |ValBytes(v)|) + ValBytes(v)
  }

  /** The size of a number against the powers of 256. */
  lemma {:induction false} ValBytesSize(v: nat, n: nat)
    ensures |ValBytes(v)| <= n <==> v < Pow(256, n)
  {
    if n > 0 && v > 0 {
      ValBytesSize(v / 256, n - 1);
      PowStep(256, n);
    }
  }

  lemma {:induction false} NumberThroughBytes(v: nat)
    ensures BytesVal(ValBytes(v)) == v
  {
    if v > 0 {
      NumberThroughBytes(v / 256);
      assert ValBytes(v)[..|ValBytes(v)| - 1] == ValBytes(v / 256);
    }
  }

  lemma {:induction false} ZerosInFront(k: nat, s: seq<Byte>)
    ensures BytesVal(Zeros(k) + s) == BytesVal(s)
  {
    var z := Zeros(k) + s;
    if s != [] {
      ZerosInFront(k, s[..|s| - 1]);
      assert z[..|z| - 1] == Zeros(k) + s[..|s| - 1];
    } else if k > 0 {
      ZerosInFront(k - 1, s);
      assert z[..|z| - 1] == Zeros(k - 1) + s;
    }
  }

  /** n octets hold exactly the numbers below 256 to the n, each in one way. */
  lemma FixedVal(v: nat, n: nat)
    requires |ValBytes(v)| <= n
    ensures BytesVal(Fixed(v, n)) == v
  {
    ZerosInFront(n - |ValBytes(v)|, ValBytes(v));
    NumberThroughBytes(v);
  }

  lemma {:induction false} ValFixed(s: seq<Byte>)
    ensures |ValBytes(BytesVal(s))| <= |s| && Fixed(BytesVal(s), |s|) == s
  {
    if s != [] {
      var t := s[..|s| - 1];
      ValFixed(t);
      var v := BytesVal(s);
      assert v / 256 == BytesVal(t) && v % 256 == s[|s| - 1];
      assert s == t + [s[|s| - 1]];
      if v == 0 {
        assert Fixed(v, |s|) == Zeros(|s|) == Zeros(|t|) + [0];
      }
    }
  }

  lemma BytesBelow(s: seq<Byte>)
    ensures BytesVal(s) < Pow(256, |s|)
  {
    ValFixed(s);
    ValBytesSize(BytesVal(s), |s|);
  }

  /** The first octet decides first. */
  lemma {:induction false} FirstByte(s: seq<Byte>)
    requires s != []
    ensures BytesVal(s) == s[0] * Pow(256, |s| - 1) + BytesVal(s[1..])
  {
    if |s| > 1 {
      var t := s[..|s| - 1];
      FirstByte(t);
      assert s[1..][..|s| - 2] == t[1..];
      PowStep(256, |s| - 1);
      assert (s[0] * Pow(256, |s| - 2)) * 256 == s[0] * Pow(256, |s| - 1);
    } else {
      assert s[..0] == [] && s[1..] == [];
    }
  }

  // ---------------------------------------------------------------- numbers of fixed width

  function BE16(n: nat): (s: seq<Byte>)
    ensures |s| == 2
  {
    [(n / 256) % 256, n % 256]
  }

  function GetBE16(s: seq<Byte>): nat
    requires |s| >= 2
  {
    var hi: nat, lo: nat := s[0], s[1];
    hi * 256 + lo
  }

  lemma BE16RoundTrip(n: nat)
    requires n < 65536
    ensures GetBE16(BE16(n)) == n
  {
    ModSmall(n / 256, 256);
  }

  function BE24(n: nat): (s: seq<Byte>)
    ensures |s| == 3
  {
    [(n / 65536) % 256, (n / 256) % 256, n % 256]
  }

  function GetBE24(s: seq<Byte>): nat
    requires |s| >= 3
  {
    var a: nat, b: nat, c: nat := s[0], s[1], s[2];
    a * 65536 + b * 256 + c
  }

  function GetBE32(a: Byte, b: Byte, c: Byte, d: Byte): (r: nat)
    ensures r < 0x1_0000_0000
  {
    ((a * 256 + b) * 256 + c) * 256 + d
  }

  function BE32(n: nat): (r: seq<Byte>)
    ensures |r| == 4
  {
    [n / 0x100_0000 % 256, n / 0x1_0000 % 256, n / 256 % 256, n % 256]
  }

  lemma BE32OfGet(a: Byte, b: Byte, c: Byte, d: Byte)
    ensures BE32(GetBE32(a, b, c, d)) == [a, b, c, d]
  {
    var v := GetBE32(a, b, c, d);
    assert v / 256 == (a * 256 + b) * 256 + c && v % 256 == d;
    assert v / 0x1_0000 == a * 256 + b;
    assert v / 0x100_0000 == a;
  }

  function LE32(n: nat): (r: seq<Byte>)
    ensures |r| == 4
  {
    [n % 256, n / 256 % 256, n / 0x1_0000 % 256, n / 0x100_0000 % 256]
  }

  /** The octets of a word, by the power of 256 each stands for. */
  lemma WordOctets(n: nat, k: nat)
    requires k < 4
    ensures BE32(n)[k] == n / Pow(256, 3 - k) % 256 && LE32(n)[k] == n / Pow(256, k) % 256
  {
    assert Pow(256, 1) == 256;
    assert Pow(256, 2) == 0x1_0000;
    PowStep(256, 3);
  }

  /** What is written is the number, as far as it fits; */
  lemma FieldsWritten(n: nat)
    ensures BytesVal(BE16(n)) == n % 0x1_0000 && BytesVal(BE24(n)) == n % 0x100_0000
    ensures BytesVal(BE32(n)) == n % 0x1_0000_0000
  {
    Written(n, BE16(n));
    Written(n, BE24(n));
    Written(n, BE32(n));
    assert Pow(256, 1) == 256;
    assert Pow(256, 2) == 0x1_0000;
    PowStep(256, 3);
    PowStep(256, 4);
  }

  lemma {:induction false} Written(n: nat, s: seq<Byte>)
    requires forall k {:trigger s[k]} :: 0 <= k < |s| ==> s[k] == n / Pow(256, |s| - 1 - k) % 256
    ensures BytesVal(s) == n % Pow(256, |s|)
  {
    if s != [] {
      var t, p := s[..|s| - 1], Pow(256, |s| - 1);
      PowStep(256, |s|);
      assert s[|s| - 1] == n / Pow(256, 0) % 256;
      forall k {:trigger t[k]} | 0 <= k < |t|
        ensures t[k] == n / 256 / Pow(256, |t| - 1 - k) % 256
      {
        var j: nat := |t| - 1 - k;
        DivDiv(n, 256, Pow(256, j));
        PowStep(256, j + 1);
        assert t[k] == s[k];
      }
      Written(n / 256, t);
      LowOctet(n, p);
    }
  }

  lemma LowOctet(n: nat, p: nat)
    requires p > 0
    ensures n % (256 * p) == n / 256 % p * 256 + n % 256
  {
    var m := n / 256;
    DivModEq(m, p);
    MulAssoc(m / p, p, 256);
    MulAssoc(256, p, m / p);
    assert n == m / p * (256 * p) + (m % p * 256 + n % 256);
    DivModUnique(n, 256 * p, m / p, m % p * 256 + n % 256);
  }

  /** what is read is the number of the octets in front. */
  lemma FieldsRead(s: seq<Byte>)
    ensures |s| >= 2 ==> GetBE16(s) == BytesVal(s[..2])
    ensures |s| >= 3 ==> GetBE24(s) == BytesVal(s[..3])
    ensures |s| >= 4 ==> GetBE32(s[0], s[1], s[2], s[3]) == BytesVal(s[..4])
  {
    if |s| >= 2 {
      ShortValues(s[..2]);
    }
    if |s| >= 3 {
      ShortValues(s[..3]);
    }
    if |s| >= 4 {
      ShortValues(s[..4]);
    }
  }

  lemma ShortValues(s: seq<Byte>)
    ensures |s| == 1 ==> BytesVal(s) == s[0]
    ensures |s| == 2 ==> var a: nat, b: nat := s[0], s[1]; BytesVal(s) == a * 256 + b
    ensures |s| == 3 ==> var a: nat, b: nat, c: nat := s[0], s[1], s[2]; BytesVal(s) == a * 65536 + b * 256 + c
    ensures |s| == 4 ==>
              var a: nat, b: nat, c: nat, d: nat := s[0], s[1], s[2], s[3];
              BytesVal(s) == ((a * 256 + b) * 256 + c) * 256 + d
  {
    if 1 <= |s| <= 4 {
      ShortValues(s[..|s| - 1]);
    }
  }

  lemma {:induction false} ValueOfTwo(a: seq<Byte>, b: seq<Byte>)
    ensures BytesVal(a + b) == BytesVal(a) * Pow(256, |b|) + BytesVal(b)
  {
    if b == [] {
      assert a + b == a;
    } else {
      var t := b[..|b| - 1];
      ValueOfTwo(a, t);
      assert (a + b)[..|a + b| - 1] == a + t;
      PowStep(256, |b|);
      MulAssoc(BytesVal(a), Pow(256, |t|), 256);
    }
  }

  // ---------------------------------------------------------------- strings in pieces

  function Concat(chunks: seq<seq<Byte>>): seq<Byte>
  {
    if chunks == [] then [] else chunks[0] + Concat(chunks[1..])
  }

  lemma {:induction false} ConcatLast(chunks: seq<seq<Byte>>, x: seq<Byte>)
    ensures Concat(chunks + [x]) == Concat(chunks) + x
  {
    if chunks == [] {
      assert [x][1..] == [];
    } else {
      assert (chunks + [x])[1..] == chunks[1..] + [x];
      ConcatLast(chunks[1..], x);
    }
  }
}
