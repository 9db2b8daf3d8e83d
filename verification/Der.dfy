/** DER headers: identifier and length octets, parsed and printed. Sizes are those of a 32-bit build. */
module Der {
  import Arith
  import opened Bytes
  import opened Options

  const TAG_BOOLEAN: nat := 0x01
  const TAG_INTEGER: nat := 0x02
  const TAG_BITSTRING: nat := 0x03
  const TAG_OCTETSTRING: nat := 0x04
  const TAG_NULL: nat := 0x05
  const TAG_OID: nat := 0x06
  const TAG_REAL: nat := 0x09
  const TAG_ENUMERATED: nat := 0x0a
  const TAG_UTF8STRING: nat := 0x0c
  const TAG_RELATIVE_OID: nat := 0x0d
  const TAG_TIME: nat := 0x0e
  const TAG_SEQUENCE: nat := 0x10
  const TAG_SET: nat := 0x11

  const CLASS_UNIVERSAL: nat := 0
  const CLASS_PRIVATE: nat := 3

  /** A parsed header; the contents are the length octets from offset. */
  datatype Hdr = Hdr(cls: nat, constructed: bool, tag: nat, length: nat, offset: nat)

  // ---------------------------------------------------------------- validity

  /** The universal types that are never constructed. */
  predicate PrimitiveOnly(tag: nat)
  {
    tag in {TAG_BOOLEAN, TAG_INTEGER, TAG_NULL, TAG_OID, TAG_RELATIVE_OID, TAG_REAL, TAG_ENUMERATED, TAG_BITSTRING,
            TAG_OCTETSTRING, TAG_UTF8STRING, TAG_TIME} || 0x12 <= tag <= 0x1e
  }

  predicate ValidDer(cls: nat, constructed: bool, tag: nat, contents: seq<Byte>)
  {
    cls != CLASS_UNIVERSAL ||
    (&& (tag == TAG_BOOLEAN ==> contents == [0] || contents == [0xff])
     && (tag == TAG_NULL ==> contents == [])
     && (constructed ==> !PrimitiveOnly(tag))
     && (!constructed ==> tag != TAG_SEQUENCE && tag != TAG_SET))
  }

  // ---------------------------------------------------------------- parsing

  /** A tag and the place behind it. */
  datatype Tagged = Tagged(tag: nat, octets: nat, next: nat)

  /** The octets of a long tag, seven bits each, in a 32-bit variable. */
  function LongTag(buf: seq<Byte>, pos: nat, tag: nat, octets: nat): Option<Tagged>
    decreases |buf| - pos
  {
    if pos >= |buf| then None
    else
      var t := tag * 128 % TWO32 + buf[pos] % 128;
      if buf[pos] >= 128 then LongTag(buf, pos + 1, t, octets + 1) else Some(Tagged(t, octets + 1, pos + 1))
  }

  function TagAt(buf: seq<Byte>): Option<Tagged>
    requires buf != []
  {
    if buf[0] % 32 != 31 then Some(Tagged(buf[0] % 32, 0, 1))
    else if |buf| == 1 || buf[1] % 128 == 0 then None
    else
      match LongTag(buf, 1, 0, 0)
      case None => None
      case Some(t) => if (buf[0] / 64 != CLASS_PRIVATE && t.tag < 31) || t.octets * 7 > 32 then None else Some(t)
  }

  /** A length and the place behind it. */
  datatype Sized = Sized(length: nat, next: nat)

  function LengthAt(buf: seq<Byte>, pos: nat): Option<Sized>
  {
    if pos >= |buf| then None
    else if buf[pos] < 128 then Some(Sized(buf[pos], pos + 1))
    else if buf[pos] == 0xff then None
    else
      var n := buf[pos] - 128;
      if n == 0 || pos + 1 == |buf| || buf[pos + 1] == 0 || n > 4 || pos + 1 + n > |buf| then None
      else
        var v := BytesVal(buf[pos + 1..pos + 1 + n]);
        if v < 128 then None else Some(Sized(v, pos + 1 + n))
  }

  function Parsed(buf: seq<Byte>): (r: Option<Hdr>)
    ensures r.Some? ==> r.value.offset + r.value.length <= |buf|
  {
    if buf == [] then None
    else
      match TagAt(buf)
      case None => None
      case Some(t) =>
        match LengthAt(buf, t.next)
        case None => None
        case Some(l) =>
          var cls, constructed := buf[0] / 64, buf[0] / 32 % 2 == 1;
          if l.length > |buf| - l.next then None
          else if !ValidDer(cls, constructed, t.tag, buf[l.next..l.next + l.length]) then None
          else Some(Hdr(cls, constructed, t.tag, l.length, l.next))
  }

  lemma {:induction false} LongTagBounds(buf: seq<Byte>, pos: nat, tag: nat, octets: nat)
    requires pos <= |buf|
    ensures var t := LongTag(buf, pos, tag, octets); t.Some? ==> pos < t.value.next <= |buf| && octets < t.value.octets
    decreases |buf| - pos
  {
    if pos < |buf| && buf[pos] >= 128 {
      LongTagBounds(buf, pos + 1, tag * 128 % TWO32 + buf[pos] % 128, octets + 1);
    }
  }

  // ---------------------------------------------------------------- printing

  /** asn1_put_len. */
  function LengthOctets(len: nat): (r: seq<Byte>)
    requires len < TWO32
  {
    if len <= 0x7f then [len]
    else if len <= 0xff then [0x81, len]
    else if len <= 0xffff then [0x82, len / 256, len % 256]
    else if len <= 0xff_ffff then [0x83, len / 0x1_0000, len / 256 % 256, len % 256]
    else [0x84, len / 0x100_0000, len / 0x1_0000 % 256, len / 256 % 256, len % 256]
  }

  /** asn1_put_hdr, for a class in two bits and a tag in five. */
  function HeaderOctets(cls: nat, constructed: bool, tag: nat, len: nat): (r: seq<Byte>)
    requires cls < 4 && tag < 32 && len < TWO32
  {
    [cls * 64 + (if constructed then 32 else 0) + tag] + LengthOctets(len)
  }

  // ---------------------------------------------------------------- each is the inverse of the other

  lemma Numbers(a: Byte, b: Byte, c: Byte, d: Byte)
    ensures BytesVal([a]) == a
    ensures BytesVal([a, b]) == a * 256 + b
    ensures BytesVal([a, b, c]) == (a * 256 + b) * 256 + c
    ensures BytesVal([a, b, c, d]) == ((a * 256 + b) * 256 + c) * 256 + d
  {
    assert [a][..0] == [] && [a, b][..1] == [a] && [a, b, c][..2] == [a, b] && [a, b, c, d][..3] == [a, b, c];
  }

  /** The length octets are the only way to write a length. */
  lemma LengthIff(buf: seq<Byte>, pos: nat, len: nat, next: nat)
    requires pos <= |buf|
    ensures LengthAt(buf, pos) == Some(Sized(len, next))
        <==> len < TWO32 && next <= |buf| && pos <= next && buf[pos..next] == LengthOctets(len)
  {
    hide BytesVal;
    if LengthAt(buf, pos) == Some(Sized(len, next)) {
      LengthPrinted(buf, pos, len, next);
    }
    if len < TWO32 && pos <= next <= |buf| && buf[pos..next] == LengthOctets(len) {
      LengthParsed(buf, pos, len, next);
    }
  }

  lemma LengthPrinted(buf: seq<Byte>, pos: nat, len: nat, next: nat)
    requires pos <= |buf| && LengthAt(buf, pos) == Some(Sized(len, next))
    ensures len < TWO32 && pos <= next <= |buf| && buf[pos..next] == LengthOctets(len)
  {
    hide BytesVal, LengthOctets;
    var s := buf[pos..next];
    if buf[pos] < 128 {
      ShortLength(len);
    } else {
      var n := buf[pos] - 128;
      var d := buf[pos + 1..pos + 1 + n];
      assert s == [buf[pos]] + d;
      if n == 1 {
        assert d == [d[0]];
        Numbers(d[0], 0, 0, 0);
      }
      LongLength(d);
    }
  }

  lemma ShortLength(len: nat)
    requires len < 128
    ensures LengthOctets(len) == [len]
  {
  }

  /** Up to four octets, the first not zero, are how their value is written if it is not short. */
  lemma LongLength(d: seq<Byte>)
    requires 1 <= |d| <= 4 && d[0] > 0 && (|d| == 1 ==> d[0] >= 128)
    ensures BytesVal(d) < TWO32 && LengthOctets(BytesVal(d)) == [128 + |d|] + d
  {
    hide BytesVal, LengthOctets;
    var c1, c2, c3 := if |d| > 1 then d[1] else 0, if |d| > 2 then d[2] else 0, if |d| > 3 then d[3] else 0;
    LongOf(d, d[0], c1, c2, c3);
  }

  lemma LongOf(s: seq<Byte>, a: Byte, b: Byte, c: Byte, d: Byte)
    requires 1 <= |s| <= 4 && a > 0 && (|s| == 1 ==> a >= 128)
    requires s[0] == a && (|s| > 1 ==> s[1] == b) && (|s| > 2 ==> s[2] == c) && (|s| > 3 ==> s[3] == d)
    ensures BytesVal(s) < TWO32 && LengthOctets(BytesVal(s)) == [128 + |s|] + s
  {
    hide BytesVal, LengthOctets;
    assert s == if |s| == 1 then [a] else if |s| == 2 then [a, b] else if |s| == 3 then [a, b, c] else [a, b, c, d];
    Numbers(a, b, c, d);
    Written(a, b, c, d);
  }

  lemma Written(a: Byte, b: Byte, c: Byte, d: Byte)
    requires a > 0
    ensures a >= 128 ==> LengthOctets(a) == [0x81, a]
    ensures LengthOctets(a * 256 + b) == [0x82, a, b]
    ensures LengthOctets((a * 256 + b) * 256 + c) == [0x83, a, b, c]
    ensures ((a * 256 + b) * 256 + c) * 256 + d < TWO32
    ensures LengthOctets(((a * 256 + b) * 256 + c) * 256 + d) == [0x84, a, b, c, d]
  {
    Splits(a, b, c, d);
  }

  lemma Splits(a: Byte, b: Byte, c: Byte, d: Byte)
    ensures var v := (a * 256 + b) * 256 + c; v / 0x1_0000 == a && v / 256 % 256 == b && v % 256 == c
    ensures var w := ((a * 256 + b) * 256 + c) * 256 + d;
            w / 0x100_0000 == a && w / 0x1_0000 % 256 == b && w / 256 % 256 == c && w % 256 == d
  {
    var v, w := (a * 256 + b) * 256 + c, ((a * 256 + b) * 256 + c) * 256 + d;
    assert v / 256 == a * 256 + b;
    assert w / 256 == v && w / 0x1_0000 == a * 256 + b;
  }

  lemma Joins(len: nat)
    ensures (len / 0x1_0000 * 256 + len / 256 % 256) * 256 + len % 256 == len
    ensures ((len / 0x100_0000 * 256 + len / 0x1_0000 % 256) * 256 + len / 256 % 256) * 256 + len % 256 == len
  {
    assert len / 0x1_0000 == len / 256 / 256 && len / 0x100_0000 == len / 0x1_0000 / 256;
  }

  lemma LengthParsed(buf: seq<Byte>, pos: nat, len: nat, next: nat)
    requires len < TWO32 && pos <= next <= |buf| && buf[pos..next] == LengthOctets(len)
    ensures LengthAt(buf, pos) == Some(Sized(len, next))
  {
    hide BytesVal;
    var s := buf[pos..next];
    assert buf[pos] == s[0];
    if len > 0x7f {
      var n := s[0] - 128;
      var d := buf[pos + 1..pos + 1 + n];
      assert buf[pos + 1] == s[1] && d == s[1..];
      Joins(len);
      if n == 1 {
        assert d == [d[0]];
        Numbers(d[0], 0, 0, 0);
      } else if n == 2 {
        assert d == [d[0], d[1]];
        Numbers(d[0], d[1], 0, 0);
      } else if n == 3 {
        assert d == [d[0], d[1], d[2]];
        Numbers(d[0], d[1], d[2], 0);
      } else {
        assert d == [d[0], d[1], d[2], d[3]];
        Numbers(d[0], d[1], d[2], d[3]);
      }
    }
  }

  lemma Identifier(b: Byte)
    ensures b == b / 64 * 64 + (if b / 32 % 2 == 1 then 32 else 0) + b % 32
  {
  }

  lemma IdentifierParts(cls: nat, constructed: bool, tag: nat)
    requires cls < 4 && tag < 32
    ensures var b := cls * 64 + (if constructed then 32 else 0) + tag;
            b / 64 == cls && (b / 32 % 2 == 1) == constructed && b % 32 == tag
  {
  }

  /** With a short tag, a header is accepted exactly when it is the printed one, its contents are there, and
      they are valid. */
  lemma ParsedIff(buf: seq<Byte>, h: Hdr)
    requires h.cls < 4 && h.tag < 31 && buf != [] && buf[0] % 32 != 31
    ensures Parsed(buf) == Some(h)
        <==> && h.length < TWO32 && h.offset + h.length <= |buf|
             && buf[..h.offset] == HeaderOctets(h.cls, h.constructed, h.tag, h.length)
             && ValidDer(h.cls, h.constructed, h.tag, buf[h.offset..h.offset + h.length])
  {
    hide LengthAt, LengthOctets, ValidDer;
    Identifier(buf[0]);
    IdentifierParts(h.cls, h.constructed, h.tag);
    if h.offset >= 1 {
      LengthIff(buf, 1, h.length, h.offset);
      if h.offset <= |buf| {
        assert buf[..h.offset] == [buf[0]] + buf[1..h.offset];
      }
    }
    if Parsed(buf) == Some(h) {
      LengthNext(buf, 1);
    }
  }

  lemma LengthNext(buf: seq<Byte>, pos: nat)
    ensures var l := LengthAt(buf, pos); l.Some? ==> pos < l.value.next <= |buf|
  {
  }

  /** Printed octets by their numbers: a length below 128 in one octet, any other as the shortest number with its size
      in front; class, form and tag share the first octet. */
  lemma HeaderIs(cls: nat, constructed: bool, tag: nat, len: nat)
    requires cls < 4 && tag < 32 && len < TWO32
    ensures var o := HeaderOctets(cls, constructed, tag, len);
            && |o| >= 2 && o[0] / 64 == cls && (o[0] / 32 % 2 == 1) == constructed && o[0] % 32 == tag
            && if len < 128 then o[1..] == [len]
               else 3 <= |o| <= 6 && o[1] == 128 + (|o| - 2) && o[2] != 0 && BytesVal(o[2..]) == len
  {
    hide LengthOctets, BytesVal;
    IdentifierParts(cls, constructed, tag);
    var o := LengthOctets(len);
    assert HeaderOctets(cls, constructed, tag, len)[1..] == o;
    LengthForm(len);
    if len >= 128 {
      assert HeaderOctets(cls, constructed, tag, len)[2..] == o[1..];
    }
  }

  lemma LengthForm(len: nat)
    requires len < TWO32
    ensures var o := LengthOctets(len);
            if len < 128 then o == [len]
            else 2 <= |o| <= 5 && o[0] == 128 + (|o| - 1) && o[1] != 0 && BytesVal(o[1..]) == len
  {
    hide BytesVal;
    var o := LengthOctets(len);
    Joins(len);
    if 0x7f < len <= 0xff {
      assert o[1..] == [len];
      Numbers(len, 0, 0, 0);
    } else if 0xff < len <= 0xffff {
      assert o[1..] == [len / 256, len % 256];
      Numbers(len / 256, len % 256, 0, 0);
    } else if 0xffff < len <= 0xff_ffff {
      assert o[1..] == [len / 0x1_0000, len / 256 % 256, len % 256];
      Numbers(len / 0x1_0000, len / 256 % 256, len % 256, 0);
    } else if len > 0xff_ffff {
      assert o[1..] == [len / 0x100_0000, len / 0x1_0000 % 256, len / 256 % 256, len % 256];
      Numbers(len / 0x100_0000, len / 0x1_0000 % 256, len / 256 % 256, len % 256);
    }
  }

  /** The contents that fit a universal tag; the other classes take any. */
  lemma ValidIs(cls: nat, constructed: bool, tag: nat, contents: seq<Byte>)
    ensures ValidDer(cls, constructed, tag, contents) <==>
              cls != 0 ||
              (&& (tag == 1 ==> contents == [0] || contents == [255]) && (tag == 5 ==> contents == [])
               && (tag in {1, 2, 3, 4, 5, 6, 9, 10, 12, 13, 14} || 18 <= tag <= 30 ==> !constructed)
               && (tag == 16 || tag == 17 ==> constructed))
  {
  }

  /** A tag in n octets of its own, the last of them below 128: it is accepted with up to four octets, the first not an
      empty group of bits, and outside the private class only if it would not fit the identifier octet. */
  lemma LongTagIs(buf: seq<Byte>, n: nat, v: nat)
    requires 1 <= n < |buf| && buf[0] % 32 == 31 && buf[n] < 128 && forall k :: 1 <= k < n ==> buf[k] >= 128
    requires v < Arith.Pow(128, n)
    requires forall k {:trigger buf[k]} :: 1 <= k <= n ==> v / Arith.Pow(128, n - k) % 128 == buf[k] % 128
    ensures TagAt(buf) == if n <= 4 && buf[1] % 128 != 0 && (buf[0] / 64 == 3 || v >= 31)
                          then Some(Tagged(v, n, n + 1)) else None
  {
    hide Arith.Pow;
    LongTagOctets(buf, 1, 0, 0, n);
    if n <= 4 {
      Arith.DivModUnique(v, Arith.Pow(128, n), 0, v);
      SmallTag(n, v);
      LongTagValue(buf, 1, 0, n, v);
    }
  }

  lemma SmallTag(n: nat, v: nat)
    requires n <= 4 && v < Arith.Pow(128, n)
    ensures v < TWO32
  {
    assert Arith.Pow(128, 2) == 0x4000;
    Arith.PowAdd(128, 2, 2);
    assert Arith.Pow(128, 3) == 0x20_0000;
    assert Arith.Pow(128, 4) == 0x1000_0000;
  }

  lemma {:induction false} LongTagOctets(buf: seq<Byte>, pos: nat, tag: nat, octets: nat, n: nat)
    requires pos <= n < |buf| && buf[n] < 128 && forall k :: pos <= k < n ==> buf[k] >= 128
    ensures var t := LongTag(buf, pos, tag, octets);
            t.Some? && t.value.octets == octets + n - pos + 1 && t.value.next == n + 1
    decreases n - pos
  {
    if pos < n {
      LongTagOctets(buf, pos + 1, tag * 128 % TWO32 + buf[pos] % 128, octets + 1, n);
    }
  }

  lemma {:induction false} LongTagValue(buf: seq<Byte>, pos: nat, tag: nat, n: nat, v: nat)
    requires 1 <= pos <= n < |buf| && buf[n] < 128 && (forall k :: 1 <= k < n ==> buf[k] >= 128) && v < TWO32
    requires forall k {:trigger buf[k]} :: 1 <= k <= n ==> v / Arith.Pow(128, n - k) % 128 == buf[k] % 128
    requires tag == v / Arith.Pow(128, n - pos + 1)
    ensures LongTag(buf, pos, tag, pos - 1) == Some(Tagged(v, n, n + 1))
    decreases n - pos
  {
    hide Arith.Pow;
    var p := Arith.Pow(128, n - pos);
    Arith.PowStep(128, n - pos + 1);
    Arith.DivDiv(v, p, 128);
    assert p * 128 == 128 * p;
    var t := v / p;
    assert tag == t / 128 && t % 128 == buf[pos] % 128 && t == t / 128 * 128 + t % 128;
    QuotientBelow(v, p);
    Arith.ModSmall(tag * 128, TWO32);
    if pos < n {
      LongTagValue(buf, pos + 1, t, n, v);
    } else {
      PowNone();
    }
  }

  lemma PowNone()
    ensures Arith.Pow(128, 0) == 1
  {
  }

  lemma QuotientBelow(v: nat, p: nat)
    requires p > 0
    ensures v / p <= v
  {
    Arith.DivModEq(v, p);
    Arith.MulLe(1, p, v / p);
  }

  /** Without a last octet there is no tag. */
  lemma {:induction false} LongTagOpen(buf: seq<Byte>, pos: nat, tag: nat, octets: nat)
    requires pos <= |buf| && forall k :: pos <= k < |buf| ==> buf[k] >= 128
    ensures LongTag(buf, pos, tag, octets) == None
    decreases |buf| - pos
  {
    if pos < |buf| {
      LongTagOpen(buf, pos + 1, tag * 128 % TWO32 + buf[pos] % 128, octets + 1);
    }
  }

  /** With a long tag of n octets, too, a header is accepted exactly when tag, length and contents are in order. */
  lemma LongParsedIff(buf: seq<Byte>, n: nat, v: nat, h: Hdr)
    requires 1 <= n < |buf| && buf[0] % 32 == 31 && buf[n] < 128 && forall k :: 1 <= k < n ==> buf[k] >= 128
    requires v < Arith.Pow(128, n)
    requires forall k {:trigger buf[k]} :: 1 <= k <= n ==> v / Arith.Pow(128, n - k) % 128 == buf[k] % 128
    ensures Parsed(buf) == Some(h) <==>
              && n <= 4 && buf[1] % 128 != 0 && (h.cls == 3 || v >= 31)
              && h.tag == v && h.cls == buf[0] / 64 && h.constructed == (buf[0] / 32 % 2 == 1)
              && h.length < TWO32 && n + 1 <= h.offset && h.offset + h.length <= |buf|
              && buf[n + 1..h.offset] == LengthOctets(h.length)
              && ValidDer(h.cls, h.constructed, h.tag, buf[h.offset..h.offset + h.length])
  {
    hide LengthAt, LengthOctets, ValidDer, Arith.Pow, TagAt;
    LongTagIs(buf, n, v);
    LengthIff(buf, n + 1, h.length, h.offset);
    LengthNext(buf, n + 1);
  }

  /** A printed header in front of its contents is parsed as it was printed. */
  lemma HeaderRoundTrip(cls: nat, constructed: bool, tag: nat, contents: seq<Byte>, rest: seq<Byte>)
    requires cls < 4 && tag < 31 && |contents| < TWO32 && ValidDer(cls, constructed, tag, contents)
    ensures var o := HeaderOctets(cls, constructed, tag, |contents|);
            Parsed(o + contents + rest) == Some(Hdr(cls, constructed, tag, |contents|, |o|))
  {
    hide LengthOctets, ValidDer, Parsed;
    var o := HeaderOctets(cls, constructed, tag, |contents|);
    var buf := o + contents + rest;
    IdentifierParts(cls, constructed, tag);
    assert buf[0] == o[0];
    assert buf[..|o|] == o && buf[|o|..|o| + |contents|] == contents;
    ParsedIff(buf, Hdr(cls, constructed, tag, |contents|, |o|));
  }

  /** An accepted header with a low tag is the printed one exactly when its tag is written short, and the
      class that lets a low tag be written long is the private one. */
  lemma ReprintIff(buf: seq<Byte>, h: Hdr)
    requires buf != [] && Parsed(buf) == Some(h) && h.tag < 31
    ensures h.cls < 4 && h.length < TWO32
    ensures buf[..h.offset] == HeaderOctets(h.cls, h.constructed, h.tag, h.length) <==> buf[0] % 32 != 31
    ensures buf[0] % 32 == 31 ==> h.cls == CLASS_PRIVATE
  {
    hide LengthAt, LengthOctets, ValidDer, LongTag;
    IdentifierParts(h.cls, h.constructed, h.tag);
    if buf[0] % 32 == 31 {
      LongTagBounds(buf, 1, 0, 0);
    }
    var t := TagAt(buf).value;
    LengthNext(buf, t.next);
    LengthIff(buf, t.next, h.length, h.offset);
    if buf[0] % 32 == 31 {
      assert buf[..h.offset][0] == buf[0];
    } else {
      ParsedIff(buf, h);
    }
  }

  /** Long tags are not canonical in the private class: a tag below 31 is accepted in both forms. */
  lemma PrivateTagTwice()
    ensures Parsed([0xc1, 0]) == Some(Hdr(CLASS_PRIVATE, false, 1, 0, 2))
    ensures Parsed([0xdf, 1, 0]) == Some(Hdr(CLASS_PRIVATE, false, 1, 0, 3))
  {
    assert LongTag([0xdf, 1, 0], 1, 0, 0) == Some(Tagged(1, 1, 2));
  }

  // ---------------------------------------------------------------- the parser

  /** The base-256 value grows by one octet. */
  lemma NextOctet(s: seq<Byte>, k: nat)
    requires k < |s|
    ensures BytesVal(s[..k + 1]) == BytesVal(s[..k]) * 256 + s[k]
  {
    assert s[..k + 1][..k] == s[..k];
  }

  method ReadLongTag(buf: seq<Byte>) returns (t: Option<Tagged>)
    requires |buf| > 1
    ensures t == LongTag(buf, 1, 0, 0)
  {
    var pos: nat, tag: nat, extLen: nat := 1, 0, 0;
    var tmp: Byte := 128;
    while tmp >= 128
      invariant 1 <= pos <= |buf|
      invariant tmp >= 128 ==> LongTag(buf, pos, tag, extLen) == LongTag(buf, 1, 0, 0)
      invariant tmp < 128 ==> LongTag(buf, 1, 0, 0) == Some(Tagged(tag, extLen, pos))
      decreases |buf| - pos, tmp
    {
      if pos >= |buf| {
        return None;
      }
      extLen := extLen + 1;
      tmp := buf[pos];
      pos := pos + 1;
      tag := tag * 128 % TWO32 + tmp % 128;
    }
    return Some(Tagged(tag, extLen, pos));
  }

  method ReadLength(buf: seq<Byte>, pos0: nat) returns (l: Option<Sized>)
    requires pos0 <= |buf|
    ensures l == LengthAt(buf, pos0)
  {
    if pos0 >= |buf| {
      return None;
    }
    var tmp := buf[pos0];
    var pos := pos0 + 1;
    if tmp < 128 {
      return Some(Sized(tmp, pos));
    }
    if tmp == 0xff {
      return None;
    }
    var n := tmp - 128;
    var length := 0;
    if n == 0 || pos == |buf| || buf[pos] == 0 {
      return None;
    }
    if n > 4 {
      return None;
    }
    ghost var rest := buf[pos..];
    var k := 0;
    while k < n
      invariant 0 <= k <= n && pos == pos0 + 1 + k <= |buf| && length == BytesVal(rest[..k])
    {
      if pos >= |buf| {
        return None;
      }
      NextOctet(rest, k);
      LengthFits(rest[..k]);
      length := length * 256 % TWO32 + buf[pos];
      pos := pos + 1;
      k := k + 1;
    }
    assert rest[..n] == buf[pos0 + 1..pos0 + 1 + n];
    if length < 128 {
      return None;
    }
    return Some(Sized(length, pos));
  }

  lemma LengthFits(s: seq<Byte>)
    requires |s| < 4
    ensures BytesVal(s) * 256 < TWO32
  {
    BytesBelow(s);
    assert Arith.Pow(256, 3) == 0x100_0000 by {
      assert Arith.Pow(256, 1) == 256 && Arith.Pow(256, 2) == 0x1_0000;
    }
    PowMonotone(|s|);
  }

  lemma PowMonotone(n: nat)
    requires n < 4
    ensures Arith.Pow(256, n) <= Arith.Pow(256, 3)
  {
    assert Arith.Pow(256, 0) == 1 && Arith.Pow(256, 1) == 256 && Arith.Pow(256, 2) == 0x1_0000;
  }

  /** asn1_get_next. */
  method GetNext(buf: seq<Byte>) returns (hdr: Option<Hdr>)
    requires |buf| < TWO32
    ensures hdr == Parsed(buf)
  {
    hide LongTag, ValidDer, LengthAt;
    if |buf| == 0 {
      return None;
    }
    var identifier := buf[0];
    var cls, constructed := identifier / 64, identifier / 32 % 2 == 1;
    var tag, pos := identifier % 32, 1;
    if identifier % 32 == 31 {
      if pos == |buf| || buf[pos] % 128 == 0 {
        return None;
      }
      LongTagBounds(buf, 1, 0, 0);
      var t := ReadLongTag(buf);
      if t.None? {
        return None;
      }
      tag, pos := t.value.tag, t.value.next;
      if (cls != CLASS_PRIVATE && tag < 31) || t.value.octets * 7 > 32 {
        return None;
      }
    }
    LengthNext(buf, pos);
    var l := ReadLength(buf, pos);
    if l.None? {
      return None;
    }
    pos := l.value.next;
    if l.value.length > (|buf| - pos) % TWO32 {
      return None;
    }
    if !ValidDer(cls, constructed, tag, buf[pos..pos + l.value.length]) {
      return None;
    }
    return Some(Hdr(cls, constructed, tag, l.value.length, pos));
  }
}
