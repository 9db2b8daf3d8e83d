/** Object identifiers in DER: parsing into arcs and printing them, with 32-bit arcs. */
module Oid {
  import Arith
  import opened Bytes
  import opened Der
  import opened Options

  const MAX_OID_LEN: nat := 20

  type Arc = x: nat | x < 0x1_0000_0000

  // ---------------------------------------------------------------- parsing

  /** Seven more bits in a 32-bit variable. */
  function Extended(val: nat, b: Byte): Arc
  {
    val * 128 % TWO32 + b % 128
  }

  /** The values in a body, seven bits an octet, the last octet of each below 128; mid says that a value has
      begun. Values wrap around at 32 bits. */
  function Values(body: seq<Byte>, mid: bool, val: Arc): Option<seq<Arc>>
    decreases |body|
  {
    if body == [] then if mid then None else Some([])
    else
      var v := Extended(val, body[0]);
      if body[0] >= 128 then Values(body[1..], true, v)
      else
        match Values(body[1..], false, 0)
        case None => None
        case Some(s) => Some([v] + s)
  }

  function FirstArc(val: nat): nat
  {
    if val / 40 > 2 then 2 else val / 40
  }

  /** The first value holds two arcs. */
  function Arcs(values: seq<Arc>): (r: seq<Arc>)
    ensures |r| == if values == [] then 0 else |values| + 1
  {
    if values == [] then []
    else [FirstArc(values[0]), values[0] - FirstArc(values[0]) * 40] + values[1..]
  }

  function ParsedOid(body: seq<Byte>): Option<seq<Arc>>
  {
    match Values(body, false, 0)
    case None => None
    case Some(s) => if |s| >= MAX_OID_LEN then None else Some(Arcs(s))
  }

  // ---------------------------------------------------------------- printing

  /** All octets of a value but the last. */
  function Leading(val: nat): (r: seq<Byte>)
  {
    if val == 0 then [] else Leading(val / 128) + [128 + val % 128]
  }

  function ArcOctets(val: nat): (r: seq<Byte>)
    ensures r != [] && r[|r| - 1] == val % 128
  {
    Leading(val / 128) + [val % 128]
  }

  function AllOctets(arcs: seq<Arc>): seq<Byte>
  {
    if arcs == [] then [] else ArcOctets(arcs[0]) + AllOctets(arcs[1..])
  }

  function Joint(x: nat, y: nat): nat
  {
    40 * x + y
  }

  /** The contents: the first two arcs in one octet, whatever they are. */
  function BodyOctets(arcs: seq<Arc>): seq<Byte>
    requires |arcs| >= 2
  {
    [Joint(arcs[0], arcs[1]) % 256] + AllOctets(arcs[2..])
  }

  function OidOctets(arcs: seq<Arc>): seq<Byte>
  {
    if |arcs| < 2 then [] else [6, |BodyOctets(arcs)| % 256] + BodyOctets(arcs)
  }

  // ---------------------------------------------------------------- printed, then parsed

  lemma ValuesStep(b: Byte, rest: seq<Byte>, mid: bool, val: Arc)
    ensures Values([b] + rest, mid, val)
         == if b >= 128 then Values(rest, true, Extended(val, b))
            else match Values(rest, false, 0) { case None => None case Some(s) => Some([Extended(val, b)] + s) }
  {
    assert ([b] + rest)[1..] == rest;
  }

  lemma ExtendedBack(val: Arc)
    ensures Extended(val / 128, val % 128) == val && Extended(val / 128, 128 + val % 128) == val
  {
  }

  lemma {:induction false} ReadLeading(val: nat, rest: seq<Byte>, mid: bool)
    requires val < TWO32 / 128
    ensures Values(Leading(val) + rest, mid, 0) == Values(rest, mid || val > 0, val)
    decreases val
  {
    hide Values, Extended;
    if val == 0 {
      assert Leading(val) + rest == rest;
    } else {
      ValuesStep(128 + val % 128, rest, mid || val / 128 > 0, val / 128);
      ExtendedBack(val);
      var tail := [128 + val % 128] + rest;
      ReadLeading(val / 128, tail, mid);
      assert Leading(val) + rest == Leading(val / 128) + tail;
    }
  }

  lemma ReadArc(val: Arc, rest: seq<Byte>)
    ensures Values(ArcOctets(val) + rest, false, 0)
         == match Values(rest, false, 0) { case None => None case Some(s) => Some([val] + s) }
  {
    hide Values, Extended;
    var tail := [val % 128] + rest;
    ReadLeading(val / 128, tail, false);
    assert ArcOctets(val) + rest == Leading(val / 128) + tail;
    ValuesStep(val % 128, rest, val / 128 > 0, val / 128);
    ExtendedBack(val);
  }

  lemma {:induction false} ReadAll(arcs: seq<Arc>)
    ensures Values(AllOctets(arcs), false, 0) == Some(arcs)
  {
    if arcs != [] {
      ReadAll(arcs[1..]);
      ReadArc(arcs[0], AllOctets(arcs[1..]));
      assert arcs == [arcs[0]] + arcs[1..];
    }
  }

  /** The number of octets that end a value. */
  function Ends(body: seq<Byte>): nat
  {
    if body == [] then 0 else (if body[0] < 128 then 1 else 0) + Ends(body[1..])
  }

  lemma {:induction false} EndsConcat(a: seq<Byte>, b: seq<Byte>)
    ensures Ends(a + b) == Ends(a) + Ends(b)
  {
    if a == [] {
      assert a + b == b;
    } else {
      EndsConcat(a[1..], b);
      assert (a + b)[1..] == a[1..] + b;
    }
  }

  lemma {:induction false} ValuesEnds(body: seq<Byte>, mid: bool, val: Arc)
    ensures var v := Values(body, mid, val); v.Some? ==> |v.value| == Ends(body)
    decreases |body|
  {
    if body != [] {
      var v := Extended(val, body[0]);
      if body[0] >= 128 {
        ValuesEnds(body[1..], true, v);
      } else {
        ValuesEnds(body[1..], false, 0);
      }
    }
  }

  lemma {:induction false} LeadingEnds(val: nat)
    ensures Ends(Leading(val)) == 0
  {
    if val > 0 {
      LeadingEnds(val / 128);
      EndsConcat(Leading(val / 128), [128 + val % 128]);
      assert [128 + val % 128][1..] == [];
    }
  }

  lemma {:induction false} AllEnds(arcs: seq<Arc>)
    ensures Ends(AllOctets(arcs)) == |arcs|
  {
    if arcs != [] {
      AllEnds(arcs[1..]);
      EndsConcat(ArcOctets(arcs[0]), AllOctets(arcs[1..]));
      LeadingEnds(arcs[0] / 128);
      EndsConcat(Leading(arcs[0] / 128), [arcs[0] % 128]);
      assert [arcs[0] % 128][1..] == [];
    }
  }

  /** The first two arcs as X.690 allows them, and small enough for the one octet they are given. */
  predicate Printable(arcs: seq<Arc>)
    requires |arcs| >= 2
  {
    arcs[0] <= 2 && (arcs[0] < 2 ==> arcs[1] < 40) && Joint(arcs[0], arcs[1]) < 128
  }

  lemma FirstOctet(arcs: seq<Arc>)
    requires |arcs| >= 2
    ensures var b := Joint(arcs[0], arcs[1]) % 256;
            Printable(arcs) <==> b < 128 && arcs[0] == FirstArc(b) && arcs[1] == b - FirstArc(b) * 40
  {
    var s := Joint(arcs[0], arcs[1]);
    if s < 128 {
      assert s % 256 == s;
    }
  }

  /** A value in base 128: the octets but the last have the top bit set, and there is no leading zero. */
  lemma ArcIs(val: nat)
    ensures var o := ArcOctets(val);
            && val < Arith.Pow(128, |o|) && (|o| > 1 ==> Arith.Pow(128, |o| - 1) <= val)
            && forall k {:trigger o[k]} :: 0 <= k < |o| ==>
                 o[k] == val / Arith.Pow(128, |o| - 1 - k) % 128 + if k == |o| - 1 then 0 else 128
  {
    hide Arith.Pow, Leading;
    var o, l := ArcOctets(val), Leading(val / 128);
    LeadingSizeIs(val / 128);
    Times128(|l|, val);
    forall k {:trigger o[k]} | 0 <= k < |o|
      ensures o[k] == val / Arith.Pow(128, |o| - 1 - k) % 128 + if k == |o| - 1 then 0 else 128
    {
      if k < |l| {
        assert o[k] == l[k];
        LeadingAt(val / 128, k);
        NextPower(val, |l| - k);
      } else {
        NoPower();
      }
    }
  }

  lemma NoPower()
    ensures Arith.Pow(128, 0) == 1
  {
  }

  lemma NextPower(val: nat, n: nat)
    requires n > 0
    ensures val / Arith.Pow(128, n) == val / 128 / Arith.Pow(128, n - 1)
  {
    Arith.DivDiv(val, 128, Arith.Pow(128, n - 1));
  }

  lemma Times128(n: nat, val: nat)
    requires val / 128 < Arith.Pow(128, n) && (n > 0 ==> Arith.Pow(128, n - 1) <= val / 128)
    ensures val < Arith.Pow(128, n + 1) && (n > 0 ==> Arith.Pow(128, n) <= val)
  {
    hide Arith.Pow;
    Arith.PowStep(128, n + 1);
    if n > 0 {
      Arith.PowStep(128, n);
    }
  }

  lemma {:induction false} LeadingSizeIs(val: nat)
    ensures var n := |Leading(val)|; val < Arith.Pow(128, n) && (n > 0 ==> Arith.Pow(128, n - 1) <= val)
  {
    hide Arith.Pow;
    NoPower();
    if val > 0 {
      LeadingSizeIs(val / 128);
      Times128(|Leading(val / 128)|, val);
    }
  }

  lemma {:induction false} LeadingAt(val: nat, k: nat)
    requires k < |Leading(val)|
    ensures Leading(val)[k] == 128 + val / Arith.Pow(128, |Leading(val)| - 1 - k) % 128
  {
    hide Arith.Pow;
    if val > 0 {
      var m := Leading(val / 128);
      if k < |m| {
        LeadingAt(val / 128, k);
        NextPower(val, |m| - k);
      } else {
        NoPower();
      }
    }
  }

  /** What is printed: header, first octet, and the other arcs one after the other. */
  lemma OidIs(arcs: seq<Arc>)
    requires 2 <= |arcs| <= MAX_OID_LEN
    ensures var o := OidOctets(arcs);
            var x: nat, y: nat := arcs[0], arcs[1];
            && 3 <= |o| < 128 && o[0] == 6 && o[1] == |o| - 2 && o[2] == (40 * x + y) % 256
            && o[3..] == AllOctets(arcs[2..])
  {
    BodySize(arcs);
    hide AllOctets;
    assert OidOctets(arcs)[3..] == BodyOctets(arcs)[1..];
  }

  /** What is read: seven bits an octet into 32 bits, and two arcs out of the first value. */
  lemma ValuesAre(b: Byte, rest: seq<Byte>, mid: bool, val: Arc)
    ensures Values([], mid, val) == if mid then None else Some([])
    ensures var x: nat := b;
            var v := val * 128 % 0x1_0000_0000 + x % 128;
            Values([b] + rest, mid, val)
              == if x >= 128 then Values(rest, true, v)
                 else match Values(rest, false, 0) { case None => None case Some(s) => Some([v] + s) }
  {
    hide Values;
    NoValuesLeft(mid, val);
    ValuesStep(b, rest, mid, val);
  }

  lemma NoValuesLeft(mid: bool, val: Arc)
    ensures Values([], mid, val) == if mid then None else Some([])
  {
  }

  lemma ParsedOidIs(body: seq<Byte>)
    ensures var v := Values(body, false, 0);
            && (ParsedOid(body).Some? <==> v.Some? && |v.value| < 20)
            && (ParsedOid(body).Some? ==>
                  var a := ParsedOid(body).value;
                  if v.value == [] then a == []
                  else |a| == |v.value| + 1 && 40 * a[0] + a[1] == v.value[0] && a[0] <= 2 && (a[0] < 2 ==> a[1] < 40)
                       && a[2..] == v.value[1..])
  {
    hide Values;
  }

  /** An identifier of 2 to 20 arcs comes back from its body exactly when its first two arcs are printable. */
  lemma BodyIff(arcs: seq<Arc>)
    requires 2 <= |arcs| <= MAX_OID_LEN
    ensures ParsedOid(BodyOctets(arcs)) == Some(arcs) <==> Printable(arcs)
  {
    hide Printable, FirstArc;
    var body := BodyOctets(arcs);
    var b := body[0];
    FirstOctet(arcs);
    assert body[1..] == AllOctets(arcs[2..]);
    ReadAll(arcs[2..]);
    if b < 128 {
      assert Values(body, false, 0) == Some([b] + arcs[2..]);
      assert ([b] + arcs[2..])[1..] == arcs[2..];
      var r := Arcs([b] + arcs[2..]);
      assert arcs == [arcs[0], arcs[1]] + arcs[2..];
      assert r[0] == FirstArc(b) && r[1] == b - FirstArc(b) * 40;
      assert r == [r[0], r[1]] + arcs[2..];
    } else {
      ValuesEnds(body, false, 0);
      AllEnds(arcs[2..]);
      assert Ends(body) == |arcs| - 2;
    }
  }

  lemma {:induction false} LeadingSize(val: nat, n: nat)
    requires val < Arith.Pow(128, n)
    ensures |Leading(val)| <= n
    decreases val
  {
    if val > 0 {
      Arith.PowStep(128, n);
      LeadingSize(val / 128, n - 1);
    }
  }

  lemma {:induction false} AllSize(arcs: seq<Arc>)
    ensures |AllOctets(arcs)| <= 5 * |arcs|
  {
    if arcs != [] {
      AllSize(arcs[1..]);
      assert Arith.Pow(128, 2) == 0x4000;
      Arith.PowAdd(128, 2, 2);
      LeadingSize(arcs[0] / 128, 4);
    }
  }

  /** The body never outgrows the short length: 1 + 18 * 5 octets at most. */
  lemma BodySize(arcs: seq<Arc>)
    requires 2 <= |arcs| <= MAX_OID_LEN
    ensures 1 <= |BodyOctets(arcs)| <= 91
    ensures OidOctets(arcs) == HeaderOctets(0, false, TAG_OID, |BodyOctets(arcs)|) + BodyOctets(arcs)
  {
    AllSize(arcs[2..]);
  }

  /** What asn1_get_oid makes of a buffer: the arcs and the place behind them. */
  function GotOid(buf: seq<Byte>): Option<(seq<Arc>, nat)>
  {
    match Parsed(buf)
    case None => None
    case Some(h) =>
      if h.length == 0 || h.cls != CLASS_UNIVERSAL || h.tag != TAG_OID then None
      else
        match ParsedOid(buf[h.offset..h.offset + h.length])
        case None => None
        case Some(arcs) => Some((arcs, h.offset + h.length))
  }

  /** Printed and parsed: the same identifier, and the buffer behind it, exactly for printable first arcs. */
  lemma OidRoundTrip(arcs: seq<Arc>, rest: seq<Byte>)
    requires 2 <= |arcs| <= MAX_OID_LEN
    ensures GotOid(OidOctets(arcs) + rest) == Some((arcs, |OidOctets(arcs)|)) <==> Printable(arcs)
  {
    hide Parsed, ParsedOid, BodyOctets, HeaderOctets, Printable, OidOctets;
    BodySize(arcs);
    BodyIff(arcs);
    var body := BodyOctets(arcs);
    var o := HeaderOctets(0, false, TAG_OID, |body|);
    HeaderRoundTrip(0, false, TAG_OID, body, rest);
    assert OidOctets(arcs) + rest == o + body + rest;
    assert (o + body + rest)[|o|..|o| + |body|] == body;
  }

  // ---------------------------------------------------------------- parsed, then printed

  /** No value starts with an empty group of bits, and none outgrows 32 bits. */
  predicate Canonical(body: seq<Byte>, mid: bool, val: Arc)
    decreases |body|
  {
    body == [] ||
    (&& (mid || body[0] != 0x80)
     && val * 128 < TWO32
     && if body[0] >= 128 then Canonical(body[1..], true, Extended(val, body[0])) else Canonical(body[1..], false, 0))
  }

  lemma CanonicalStep(b: Byte, rest: seq<Byte>, mid: bool, val: Arc)
    ensures Canonical([b] + rest, mid, val)
        <==> && (mid || b != 0x80)
             && val * 128 < TWO32
             && if b >= 128 then Canonical(rest, true, Extended(val, b)) else Canonical(rest, false, 0)
  {
    assert ([b] + rest)[1..] == rest;
  }

  lemma {:induction false} LeadingCanonical(val: nat, rest: seq<Byte>)
    requires val < TWO32 / 128
    ensures Canonical(Leading(val) + rest, false, 0) == Canonical(rest, val > 0, val)
    decreases val
  {
    hide Canonical, Extended;
    if val == 0 {
      assert Leading(val) + rest == rest;
    } else {
      var tail := [128 + val % 128] + rest;
      LeadingCanonical(val / 128, tail);
      CanonicalStep(128 + val % 128, rest, val / 128 > 0, val / 128);
      ExtendedBack(val);
      assert Leading(val) + rest == Leading(val / 128) + tail;
    }
  }

  lemma {:induction false} PrintedCanonical(arcs: seq<Arc>)
    ensures Canonical(AllOctets(arcs), false, 0)
  {
    if arcs != [] {
      var rest := AllOctets(arcs[1..]);
      PrintedCanonical(arcs[1..]);
      hide Canonical, Extended;
      LeadingCanonical(arcs[0] / 128, [arcs[0] % 128] + rest);
      CanonicalStep(arcs[0] % 128, rest, arcs[0] / 128 > 0, arcs[0] / 128);
      assert AllOctets(arcs) == Leading(arcs[0] / 128) + ([arcs[0] % 128] + rest);
    }
  }

  /** One more octet of a value that is not cut off. */
  lemma NextOctet(val: Arc, b: Byte)
    requires val * 128 < TWO32
    ensures b >= 128 && (val > 0 || b != 0x80) ==>
              Extended(val, b) > 0 && Leading(Extended(val, b)) == Leading(val) + [b]
    ensures b < 128 ==> ArcOctets(Extended(val, b)) == Leading(val) + [b]
  {
    var v := Extended(val, b);
    assert v / 128 == val && v % 128 == b % 128;
  }

  /** What a canonical string is parsed to prints as the string, begun values included. */
  lemma {:induction false} CanonicalPrinted(body: seq<Byte>, mid: bool, val: Arc, values: seq<Arc>)
    requires Canonical(body, mid, val) && (mid <==> val > 0) && Values(body, mid, val) == Some(values)
    ensures AllOctets(values) == Leading(val) + body
    decreases |body|
  {
    NothingLeading();
    if body == [] {
      assert values == [];
    } else {
      hide Extended, Leading, ArcOctets, Values, Canonical, AllOctets;
      var b, rest := body[0], body[1..];
      assert body == [b] + rest;
      NextOctet(val, b);
      ValuesStep(b, rest, mid, val);
      CanonicalStep(b, rest, mid, val);
      var v := Extended(val, b);
      assert Leading(val) + [b] + rest == Leading(val) + body;
      if b >= 128 {
        CanonicalPrinted(rest, true, v, values);
      } else {
        var tail := Values(rest, false, 0).value;
        CanonicalPrinted(rest, false, 0, tail);
        AllStep(v, tail);
        assert [] + rest == rest;
      }
    }
  }

  lemma AllStep(v: Arc, tail: seq<Arc>)
    ensures AllOctets([v] + tail) == ArcOctets(v) + AllOctets(tail) && AllOctets([]) == []
  {
    assert ([v] + tail)[1..] == tail;
  }

  lemma NothingLeading()
    ensures Leading(0) == []
  {
  }

  lemma ReprintShort(body: seq<Byte>, values: seq<Arc>)
    requires body != [] && body[0] < 128 && Values(body, false, 0) == Some(values)
    ensures values != [] && values[0] == body[0]
    ensures [values[0] % 256] + AllOctets(values[1..]) == body <==> Canonical(body, false, 0)
  {
    hide Canonical, Values, AllOctets, Extended;
    assert body == [body[0]] + body[1..];
    ValuesStep(body[0], body[1..], false, 0);
    ShortValue(body[0]);
    var tail := Values(body[1..], false, 0).value;
    PrintedShort(body[0], tail);
    assert values[1..] == tail;
    PrintedCanonical(values);
    if Canonical(body, false, 0) {
      CanonicalPrinted(body, false, 0, values);
      NothingLeading();
      assert [] + body == body;
    }
  }

  lemma ShortValue(b: Byte)
    requires b < 128
    ensures Extended(0, b) == b
  {
  }

  lemma PrintedShort(v: Arc, tail: seq<Arc>)
    requires v < 128
    ensures AllOctets([v] + tail) == [v % 256] + AllOctets(tail)
  {
    hide AllOctets;
    AllStep(v, tail);
    assert Leading(0) + [v] == [v];
  }

  lemma ReprintLong(body: seq<Byte>, values: seq<Arc>)
    requires body != [] && body[0] >= 128 && Values(body, false, 0) == Some(values)
    ensures values != [] && [values[0] % 256] + AllOctets(values[1..]) != body
  {
    hide Values;
    ValuesEnds(body, false, 0);
    LastEnds(body, false, 0);
    var printed := [values[0] % 256] + AllOctets(values[1..]);
    AllEnds(values[1..]);
    assert printed[1..] == AllOctets(values[1..]);
    assert printed[0] >= 128 ==> Ends(printed) == |values| - 1;
  }

  /** An accepted body is the printed one exactly when it is canonical and its first value is one octet. */
  lemma ReprintIff(body: seq<Byte>, arcs: seq<Arc>)
    requires body != [] && ParsedOid(body) == Some(arcs)
    ensures |arcs| >= 2 && (BodyOctets(arcs) == body <==> Canonical(body, false, 0) && body[0] < 128)
  {
    hide Canonical, Values, AllOctets, Arcs, Joint;
    var values := Values(body, false, 0).value;
    if body[0] < 128 {
      ReprintShort(body, values);
    } else {
      ReprintLong(body, values);
    }
    ArcsBack(values);
  }

  /** The first value from its two arcs. */
  lemma ArcsBack(values: seq<Arc>)
    requires values != []
    ensures var a := Arcs(values); Joint(a[0], a[1]) == values[0] && a[2..] == values[1..]
  {
  }

  lemma {:induction false} LastEnds(body: seq<Byte>, mid: bool, val: Arc)
    requires body != [] && Values(body, mid, val).Some?
    ensures Ends(body) > 0
    decreases |body|
  {
    if body[0] >= 128 {
      LastEnds(body[1..], true, Extended(val, body[0]));
    }
  }

  /** So not every accepted body is printed again. */
  lemma NotCanonical()
    ensures ParsedOid([42, 0x80, 1]) == ParsedOid([42, 1]) == Some([1, 2, 1])
  {
    hide Values;
    assert Extended(0, 42) == 42 && Extended(0, 0x80) == 0 && Extended(0, 1) == 1;
    ValuesStep(1, [], false, 0);
    ValuesStep(1, [], true, 0);
    NoValues();
    assert [1] + [] == [1];
    ValuesStep(42, [1], false, 0);
    ValuesStep(0x80, [1], false, 0);
    ValuesStep(42, [0x80, 1], false, 0);
    assert [42] + [1] == [42, 1] && [0x80] + [1] == [0x80, 1] && [42] + [0x80, 1] == [42, 0x80, 1];
    assert Values([42, 1], false, 0) == Some([42] + [1]);
    assert Values([42, 0x80, 1], false, 0) == Some([42] + [1]);
    assert Arcs([42, 1]) == [1, 2, 1];
  }

  lemma NoValues()
    ensures Values([], false, 0) == Some([])
  {
  }

  // ---------------------------------------------------------------- the parser and the printer

  /** asn1_parse_oid. */
  method ParseOid(body: seq<Byte>) returns (oid: Option<seq<Arc>>)
    ensures oid == ParsedOid(body)
  {
    hide Values, Extended;
    var pos, arcs: seq<Arc> := 0, [];
    ghost var values: seq<Arc> := [];
    assert body[0..] == body;
    JoinedParts([], [], Values(body, false, 0));
    while pos < |body|
      invariant 0 <= pos <= |body| && |values| < MAX_OID_LEN && arcs == Arcs(values)
      invariant Values(body, false, 0) == Joined(values, Values(body[pos..], false, 0))
    {
      var val;
      var next;
      val, next := ParseValue(body, pos);
      if val.None? {
        return None;
      }
      JoinedParts(values, [val.value], Values(body[next..], false, 0));
      pos := next;
      if |arcs| >= MAX_OID_LEN {
        return None;
      }
      if |arcs| == 0 {
        var x := FirstArc(val.value);
        arcs := [x, val.value - x * 40];
      } else {
        arcs := arcs + [val.value];
      }
      values := values + [val.value];
    }
    NoValues();
    assert body[pos..] == [] && values + [] == values;
    oid := Some(arcs);
  }

  /** Values already read in front of those still to be read. */
  function Joined(values: seq<Arc>, rest: Option<seq<Arc>>): Option<seq<Arc>>
  {
    if rest.None? then None else Some(values + rest.value)
  }

  lemma JoinedParts(a: seq<Arc>, b: seq<Arc>, rest: Option<seq<Arc>>)
    ensures Joined(a, Joined(b, rest)) == Joined(a + b, rest) && Joined([], rest) == rest
    ensures rest.Some? ==> |Joined(a, rest).value| >= |a|
  {
    if rest.Some? {
      assert a + (b + rest.value) == (a + b) + rest.value;
      assert [] + rest.value == rest.value;
    }
  }

  /** One value, the inner loop of asn1_parse_oid. */
  method ParseValue(body: seq<Byte>, pos0: nat) returns (val: Option<Arc>, pos: nat)
    requires pos0 < |body|
    ensures val.None? ==> Values(body[pos0..], false, 0) == None
    ensures val.Some? ==>
              && pos0 < pos <= |body|
              && Values(body[pos0..], false, 0) == Joined([val.value], Values(body[pos..], false, 0))
  {
    hide Values, Extended;
    pos := pos0;
    var v: Arc, tmp: Byte := 0, 128;
    ghost var all := Values(body[pos0..], false, 0);
    while tmp >= 128
      invariant pos0 <= pos <= |body| && (pos > pos0 || tmp >= 128)
      invariant tmp >= 128 ==> Values(body[pos..], pos > pos0, v) == all
      invariant tmp < 128 ==> pos > pos0 && all == Joined([v], Values(body[pos..], false, 0))
      decreases |body| - pos, tmp
    {
      if pos >= |body| {
        Unfinished(v);
        assert body[pos..] == [];
        return None, pos;
      }
      tmp := body[pos];
      ValuesStep(tmp, body[pos + 1..], pos > pos0, v);
      assert body[pos..] == [tmp] + body[pos + 1..];
      v := Extended(v, tmp);
      pos := pos + 1;
    }
    val := Some(v);
  }

  lemma Unfinished(v: Arc)
    ensures Values([], true, v) == None
  {
  }

  /** The octets of one value, last octet first. */
  method SplitArc(bytes: array<Byte>, arc: Arc) returns (idx: nat)
    requires bytes.Length == 8
    modifies bytes
    ensures idx <= 8 && Reverse(bytes[..idx]) == ArcOctets(arc)
  {
    hide Reverse, Power128;
    var val: nat := arc;
    idx := 0;
    PowerZero(arc);
    ReverseNone();
    while val > 0
      invariant 0 <= idx <= 5 && val * Power128(idx) <= arc
      invariant if idx == 0 then val == arc else Leading(val) + Reverse(bytes[..idx]) == ArcOctets(arc)
      decreases val
    {
      ValueBound(val, idx, arc);
      ValueShrinks(val, idx, arc);
      ghost var before := bytes[..idx];
      var b := (if idx > 0 then 0x80 else 0) + val % 128;
      ReverseOne(before, b);
      if idx > 0 {
        assert Leading(val) + Reverse(before) == Leading(val / 128) + ([b] + Reverse(before));
      } else {
        assert before == [] && Leading(val / 128) + [b] == ArcOctets(arc);
      }
      bytes[idx] := b;
      idx := idx + 1;
      assert bytes[..idx] == before + [b];
      val := val / 128;
    }
    if idx == 0 {
      ReverseOne([], 0);
      bytes[idx] := 0;
      idx := 1;
      assert bytes[..1] == [] + [0];
    }
    NothingLeading();
    assert [] + Reverse(bytes[..idx]) == Reverse(bytes[..idx]);
  }

  lemma PowerZero(arc: Arc)
    ensures arc * Power128(0) == arc
  {
  }

  lemma ReverseNone()
    ensures Reverse([]) == []
  {
  }

  /** Puts the octets of one value out, first octet first. */
  method PutArc(buf: seq<Byte>, arc: Arc) returns (r: seq<Byte>)
    ensures r == buf + ArcOctets(arc)
  {
    hide Reverse, ArcOctets;
    var bytes := new Byte[8];
    var idx := SplitArc(bytes, arc);
    r := buf;
    ghost var all := buf + ArcOctets(arc);
    while idx > 0
      invariant 0 <= idx <= 8 && r + Reverse(bytes[..idx]) == all
    {
      idx := idx - 1;
      ReverseOne(bytes[..idx], bytes[idx]);
      assert bytes[..idx + 1] == bytes[..idx] + [bytes[idx]];
      r := r + [bytes[idx]];
    }
    ReverseNone();
    assert bytes[..0] == [] && r + [] == r;
  }

  function Reverse(s: seq<Byte>): (r: seq<Byte>)
    ensures |r| == |s|
  {
    if s == [] then [] else [s[|s| - 1]] + Reverse(s[..|s| - 1])
  }

  lemma ReverseOne(s: seq<Byte>, b: Byte)
    ensures Reverse(s + [b]) == [b] + Reverse(s)
  {
    assert (s + [b])[..|s|] == s;
  }

  function Power128(n: nat): nat
  {
    Arith.Pow(128, n)
  }

  /** A 32-bit value has five groups of seven bits. */
  lemma ValueBound(val: nat, idx: nat, arc: Arc)
    requires val > 0 && idx <= 5 && val * Power128(idx) <= arc
    ensures idx < 5
  {
    if idx == 5 {
      assert Arith.Pow(128, 2) == 0x4000;
      Arith.PowAdd(128, 2, 2);
      Arith.PowStep(128, 5);
      Arith.MulLe(1, val, Power128(5));
    }
  }

  lemma ValueShrinks(val: nat, idx: nat, arc: Arc)
    requires val * Power128(idx) <= arc
    ensures val / 128 * Power128(idx + 1) <= arc
  {
    Arith.PowStep(128, idx + 1);
    var p := Power128(idx);
    Arith.MulAssoc(val / 128, 128, p);
    Arith.MulLe(val / 128 * 128, val, p);
  }

  /** asn1_put_oid: nothing for fewer than two arcs; the length octet is filled in at the end. */
  method PutOid(buf: seq<Byte>, arcs: seq<Arc>) returns (r: seq<Byte>)
    requires |arcs| <= MAX_OID_LEN
    ensures r == buf + OidOctets(arcs)
  {
    r := buf;
    if |arcs| < 2 {
      return;
    }
    r := r + [6];
    var len := |r|;
    r := r + [0];
    r := r + [Joint(arcs[0], arcs[1]) % 256];
    ghost var head, body := r, BodyOctets(arcs);
    hide AllOctets, ArcOctets;
    var i := 2;
    while i < |arcs|
      invariant 2 <= i <= |arcs| && r + AllOctets(arcs[i..]) == head + AllOctets(arcs[2..])
    {
      assert arcs[i..] == [arcs[i]] + arcs[i + 1..];
      AllStep(arcs[i], arcs[i + 1..]);
      r := PutArc(r, arcs[i]);
      i := i + 1;
    }
    AllStep(0, []);
    assert arcs[i..] == [] && r + [] == r;
    LengthFilledIn(buf, r, body);
    r := r[len := (|r| - len - 1) % 256];
  }

  lemma LengthFilledIn(buf: seq<Byte>, r: seq<Byte>, body: seq<Byte>)
    requires body != [] && r == buf + [6] + [0] + [body[0]] + body[1..]
    ensures |r| == |buf| + 2 + |body| && r[|buf| + 1 := |body| % 256] == buf + ([6, |body| % 256] + body)
  {
    var u, w := r[|buf| + 1 := |body| % 256], buf + ([6, |body| % 256] + body);
    forall k | 0 <= k < |r|
      ensures u[k] == w[k]
    {
      if k > |buf| + 1 {
        assert w[k] == body[k - |buf| - 2];
      }
    }
  }

  /** asn1_get_oid. */
  method GetOid(buf: seq<Byte>) returns (r: Option<(seq<Arc>, nat)>)
    requires |buf| < TWO32
    ensures r == GotOid(buf)
  {
    hide Parsed, ParsedOid;
    var hdr := GetNext(buf);
    if hdr.None? {
      return None;
    }
    var h := hdr.value;
    if h.length == 0 || h.cls != CLASS_UNIVERSAL || h.tag != TAG_OID {
      return None;
    }
    var oid := ParseOid(buf[h.offset..h.offset + h.length]);
    r := if oid.None? then None else Some((oid.value, h.offset + h.length));
  }
}
