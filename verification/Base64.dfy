/** Base64 with and without line feeds, and the URL alphabet without padding. Characters are octets; sizes
    are those of a 32-bit build. */
module Base64 {
  import Arith
  import opened Bytes
  import opened Options

  const EQ: Byte := 61 // '='
  const LF: Byte := 10
  const INVALID: Byte := 0x80
  const SIZE_MAX: nat := 0xffff_ffff

  /** The characters for six bits. */
  type Codes = t: seq<Byte> | |t| == 64 witness Zeros(64)

  /** The flags of an encoder. */
  datatype Style = Style(pad: bool, lf: bool)

  // ---------------------------------------------------------------- alphabets

  function Symbol(i: nat, c62: Byte, c63: Byte): Byte
    requires i < 64
  {
    if i < 26 then 65 + i else if i < 52 then 97 + (i - 26) else if i < 62 then 48 + (i - 52)
    else if i == 62 then c62 else c63
  }

  /** The letters, the digits, and two more characters. */
  function Table(c62: Byte, c63: Byte): (t: Codes)
  {
    seq<Byte>(64, i requires 0 <= i < 64 => Symbol(i, c62, c63))
  }

  function StandardTable(): (t: Codes)
  {
    Table(43, 47) // '+', '/'
  }

  function UrlTable(): (t: Codes)
  {
    Table(45, 95) // '-', '_'
  }

  predicate Alphabet(t: Codes)
  {
    && (forall i {:trigger t[i]} :: 0 <= i < 64 ==> t[i] != EQ && t[i] != LF)
    && (forall i, j {:trigger t[i], t[j]} :: 0 <= i < j < 64 ==> t[i] != t[j])
  }

  lemma Alphabets()
    ensures Alphabet(StandardTable()) && Alphabet(UrlTable())
  {
  }

  /** The decoder's table: the index of a character, zero for the padding, and a mark for all others. */
  function LastIndex(t: Codes, v: Byte, n: nat): (r: Byte)
    requires n <= 64
    ensures r == INVALID || r < n
  {
    if n == 0 then INVALID else if t[n - 1] == v then n - 1 else LastIndex(t, v, n - 1)
  }

  function Lookup(t: Codes, v: Byte): (r: Byte)
    ensures r == INVALID || r < 64
  {
    if v == EQ then 0 else LastIndex(t, v, 64)
  }

  lemma {:induction false} IndexFound(t: Codes, i: nat, n: nat)
    requires Alphabet(t) && i < n <= 64
    ensures LastIndex(t, t[i], n) == i
  {
    if i < n - 1 {
      assert t[i] != t[n - 1];
      IndexFound(t, i, n - 1);
    }
  }

  lemma {:induction false} IndexMissing(t: Codes, v: Byte, n: nat)
    requires n <= 64 && forall i {:trigger t[i]} :: 0 <= i < n ==> t[i] != v
    ensures LastIndex(t, v, n) == INVALID
  {
    if n > 0 {
      assert t[n - 1] != v;
      IndexMissing(t, v, n - 1);
    }
  }

  lemma LookupSymbol(t: Codes, i: nat)
    requires Alphabet(t) && i < 64
    ensures Lookup(t, t[i]) == i && t[i] != EQ && Lookup(t, LF) == INVALID
  {
    assert t[i] != EQ;
    IndexFound(t, i, 64);
    IndexMissing(t, LF, 64);
  }

  // ---------------------------------------------------------------- encoding

  /** The four symbols of three octets. */
  function Quad(t: Codes, a: Byte, b: Byte, c: Byte): (r: seq<Byte>)
    ensures |r| == 4
  {
    [t[a / 4], t[a % 4 * 16 + b / 16], t[b % 16 * 4 + c / 64], t[c % 64]]
  }

  /** The last one or two octets. */
  function Tail(t: Codes, s: seq<Byte>, pad: bool): (r: seq<Byte>)
    requires 1 <= |s| <= 2
    ensures |r| == if pad then 4 else |s| + 1
  {
    if |s| == 1 then Quad(t, s[0], 0, 0)[..2] + (if pad then [EQ, EQ] else [])
    else Quad(t, s[0], s[1], 0)[..3] + (if pad then [EQ] else [])
  }

  /** The text of the rest of the input, line characters into a line. */
  function Text(t: Codes, s: seq<Byte>, style: Style, line: nat): seq<Byte>
    decreases |s|
  {
    if |s| >= 3 then
      if style.lf && line + 4 >= 72 then Quad(t, s[0], s[1], s[2]) + [LF] + Text(t, s[3..], style, 0)
      else Quad(t, s[0], s[1], s[2]) + Text(t, s[3..], style, line + 4)
    else if s == [] then if style.lf && line > 0 then [LF] else []
    else Tail(t, s, style.pad) + (if style.lf then [LF] else [])
  }

  /** What the encoder allocates. */
  function OutSize(n: nat, lf: bool): nat
  {
    var l := n * 4 / 3 + 4;
    l + (if lf then l / 72 else 0) + 1
  }

  function Feeds(line: nat, blocks: nat): nat
  {
    (line / 4 + blocks + 17) / 18
  }

  lemma FeedsStep(line: nat, blocks: nat)
    requires line % 4 == 0 && line < 72 && blocks > 0
    ensures Feeds(line, blocks) == if line + 4 >= 72 then 1 + Feeds(0, blocks - 1) else Feeds(line + 4, blocks - 1)
    ensures Feeds(line, 1) == 1 && Feeds(line, 0) == if line > 0 then 1 else 0
  {
  }

  /** Four characters for three octets, the last ones filled up or not. */
  function CharCount(n: nat, pad: bool): nat
  {
    if pad then 4 * ((n + 2) / 3) else (4 * n + 2) / 3
  }

  /** The number of characters, line feeds included, from any place in a line. */
  lemma {:induction false} TextSize(t: Codes, s: seq<Byte>, style: Style, line: nat)
    requires line % 4 == 0 && (style.lf ==> line < 72)
    ensures |Text(t, s, style, line)|
         == CharCount(|s|, style.pad) + if style.lf then Feeds(line, (|s| + 2) / 3) else 0
    decreases |s|
  {
    hide Feeds, Quad, Tail, CharCount;
    CharsStep(|s|, style.pad);
    if style.lf {
      FeedsStep(line, if |s| < 3 then 1 else (|s| + 2) / 3);
    }
    if |s| >= 3 {
      TextSize(t, s[3..], style, if style.lf && line + 4 >= 72 then 0 else line + 4);
    }
  }

  lemma CharsStep(n: nat, pad: bool)
    ensures n >= 3 ==> CharCount(n, pad) == 4 + CharCount(n - 3, pad) && (n + 2) / 3 == 1 + (n - 3 + 2) / 3
    ensures n < 3 ==> CharCount(n, pad) == (if n == 0 then 0 else if pad then 4 else n + 1)
    ensures n < 3 ==> (n + 2) / 3 == (if n == 0 then 0 else 1)
  {
  }

  /** The text and its terminator fit what is allocated. */
  lemma Fits(t: Codes, s: seq<Byte>, style: Style)
    ensures |Text(t, s, style, 0)| + 1 <= OutSize(|s|, style.lf)
  {
    TextSize(t, s, style, 0);
    hide Text;
    SizeBound(|s|);
  }

  lemma SizeBound(n: nat)
    ensures var b := (n + 2) / 3; 4 * b + Feeds(0, b) + 1 <= OutSize(n, true) && 4 * b + 1 <= OutSize(n, false)
  {
    var k := n / 3;
    if n % 3 == 0 {
      assert (n + 2) / 3 == k && n * 4 / 3 == 4 * k;
    } else if n % 3 == 1 {
      assert (n + 2) / 3 == k + 1 && n * 4 / 3 == 4 * k + 1;
    } else {
      assert (n + 2) / 3 == k + 1 && n * 4 / 3 == 4 * k + 2;
    }
  }

  /** One octet with line feeds needs all that is allocated. */
  lemma FitIsTight(t: Codes, s: seq<Byte>)
    requires |s| == 1
    ensures |Text(t, s, Style(true, true), 0)| + 1 == OutSize(1, true)
  {
  }

  // ---------------------------------------------------------------- decoding

  /** The characters that count. */
  function Kept(t: Codes, text: seq<Byte>): (r: seq<Byte>)
    ensures |r| <= |text|
  {
    if text == [] then []
    else
      var last := text[|text| - 1];
      Kept(t, text[..|text| - 1]) + (if Lookup(t, last) != INVALID then [last] else [])
  }

  function Missing(n: nat): (r: nat)
    ensures r < 4 && (n + r) % 4 == 0
  {
    (4 - n % 4) % 4
  }

  function Pads(n: nat): (r: seq<Byte>)
    ensures |r| == n
  {
    seq<Byte>(n, i => EQ)
  }

  function PadCount(s: seq<Byte>): nat
  {
    if s == [] then 0 else PadCount(s[..|s| - 1]) + (if s[|s| - 1] == EQ then 1 else 0)
  }

  /** The octets of four symbols. */
  function Triple(b0: Byte, b1: Byte, b2: Byte, b3: Byte): (r: seq<Byte>)
    requires b0 < 64 && b1 < 64 && b2 < 64 && b3 < 64
    ensures |r| == 3
  {
    [b0 * 4 + b1 / 16, b1 % 16 * 16 + b2 / 4, b2 % 4 * 64 + b3]
  }

  function Octets(t: Codes, k: seq<Byte>): (r: seq<Byte>)
    requires |k| == 4 && forall i {:trigger k[i]} :: 0 <= i < 4 ==> Lookup(t, k[i]) != INVALID
    ensures |r| == 3
  {
    Triple(Lookup(t, k[0]), Lookup(t, k[1]), Lookup(t, k[2]), Lookup(t, k[3]))
  }

  ghost predicate Known(t: Codes, k: seq<Byte>)
  {
    forall i {:trigger k[i]} :: 0 <= i < |k| ==> Lookup(t, k[i]) != INVALID
  }

  /** Groups of four up to the first one with padding, which is the last. */
  ghost function Groups(t: Codes, k: seq<Byte>): Option<seq<Byte>>
    requires |k| % 4 == 0 && Known(t, k)
    decreases |k|
  {
    if k == [] then Some([])
    else
      var o, p := Octets(t, k[..4]), PadCount(k[..4]);
      if p == 0 then Prepended(o, Groups(t, k[4..]))
      else if p <= 2 then Some(o[..3 - p])
      else None
  }

  function Prepended(o: seq<Byte>, rest: Option<seq<Byte>>): Option<seq<Byte>>
  {
    if rest.None? then None else Some(o + rest.value)
  }

  ghost function Decoded(t: Codes, text: seq<Byte>): Option<seq<Byte>>
  {
    var k := Kept(t, text);
    KeptKnown(t, text, Missing(|k|));
    if k == [] then None else Groups(t, k + Pads(Missing(|k|)))
  }

  lemma {:induction false} KeptKnown(t: Codes, text: seq<Byte>, n: nat)
    ensures Known(t, Kept(t, text)) && Known(t, Kept(t, text) + Pads(n))
  {
    if text != [] {
      KeptKnown(t, text[..|text| - 1], n);
    }
  }

  // ---------------------------------------------------------------- the round trip

  lemma {:induction false} KeptConcat(t: Codes, a: seq<Byte>, b: seq<Byte>)
    ensures Kept(t, a + b) == Kept(t, a) + Kept(t, b)
    decreases |b|
  {
    hide Lookup;
    if b == [] {
      assert a + b == a;
    } else {
      assert (a + b)[..|a + b| - 1] == a + b[..|b| - 1];
      KeptConcat(t, a, b[..|b| - 1]);
    }
  }

  lemma KeptOne(t: Codes, c: Byte)
    ensures Kept(t, [c]) == if Lookup(t, c) != INVALID then [c] else []
  {
    assert [c][..0] == [];
  }

  lemma {:induction false} KeptAll(t: Codes, k: seq<Byte>)
    requires Known(t, k)
    ensures Kept(t, k) == k
  {
    hide Lookup;
    if k != [] {
      assert Lookup(t, k[|k| - 1]) != INVALID;
      forall i {:trigger k[i]} | 0 <= i < |k| - 1
        ensures Lookup(t, k[..|k| - 1][i]) != INVALID
      {
        assert k[..|k| - 1][i] == k[i];
      }
      KeptAll(t, k[..|k| - 1]);
      assert k == k[..|k| - 1] + [k[|k| - 1]];
    }
  }

  /** The symbols alone, without line feeds. */
  function Symbols(t: Codes, s: seq<Byte>, pad: bool): seq<Byte>
    decreases |s|
  {
    if |s| >= 3 then Quad(t, s[0], s[1], s[2]) + Symbols(t, s[3..], pad)
    else if s == [] then []
    else Tail(t, s, pad)
  }

  lemma QuadKnown(t: Codes, a: Byte, b: Byte, c: Byte)
    requires Alphabet(t)
    ensures var q := Quad(t, a, b, c);
            && Known(t, q) && PadCount(q) == 0 && Octets(t, q) == [a, b, c]
            && PadCount(q[..2]) == 0 && PadCount(q[..3]) == 0
            && Lookup(t, q[0]) == a / 4 && Lookup(t, q[1]) == a % 4 * 16 + b / 16
            && Lookup(t, q[2]) == b % 16 * 4 + c / 64 && Lookup(t, q[3]) == c % 64
  {
    hide Lookup;
    LookupSymbol(t, a / 4);
    LookupSymbol(t, a % 4 * 16 + b / 16);
    LookupSymbol(t, b % 16 * 4 + c / 64);
    LookupSymbol(t, c % 64);
    var q := Quad(t, a, b, c);
    assert q[..1][..0] == [] && PadCount(q[..1]) == 0;
    assert q[..2][..1] == q[..1] && PadCount(q[..2]) == 0;
    assert q[..3][..2] == q[..2] && PadCount(q[..3]) == 0;
    assert q[..|q| - 1] == q[..3];
    Regrouped(a, b, c);
  }

  lemma Regrouped(a: Byte, b: Byte, c: Byte)
    ensures Triple(a / 4, a % 4 * 16 + b / 16, b % 16 * 4 + c / 64, c % 64) == [a, b, c]
  {
    assert (a % 4 * 16 + b / 16) / 16 == a % 4;
    assert (a % 4 * 16 + b / 16) % 16 == b / 16;
    assert (b % 16 * 4 + c / 64) / 4 == b % 16;
    assert (b % 16 * 4 + c / 64) % 4 == c / 64;
  }

  lemma TailKnown(t: Codes, s: seq<Byte>, pad: bool)
    requires Alphabet(t) && 1 <= |s| <= 2
    ensures Known(t, Tail(t, s, pad)) && Tail(t, s, pad) != []
  {
    hide Lookup, Alphabet;
    QuadKnown(t, s[0], if |s| == 2 then s[1] else 0, 0);
    EqKnown(t);
    var r := Tail(t, s, pad);
    forall i | 0 <= i < |r|
      ensures Lookup(t, r[i]) != INVALID
    {
      assert r[i] == EQ || r[i] == Quad(t, s[0], if |s| == 2 then s[1] else 0, 0)[i];
    }
  }

  lemma EqKnown(t: Codes)
    ensures Lookup(t, EQ) == 0
  {
  }

  /** Decoding starts by dropping the line feeds. */
  lemma {:induction false} KeptText(t: Codes, s: seq<Byte>, style: Style, line: nat)
    requires Alphabet(t)
    ensures Kept(t, Text(t, s, style, line)) == Symbols(t, s, style.pad)
    decreases |s|
  {
    hide Kept, Lookup, Quad, Tail, Alphabet;
    LookupSymbol(t, 0);
    KeptOne(t, LF);
    KeptNone(t);
    if |s| >= 3 {
      var q := Quad(t, s[0], s[1], s[2]);
      QuadKnown(t, s[0], s[1], s[2]);
      KeptAll(t, q);
      if style.lf && line + 4 >= 72 {
        KeptText(t, s[3..], style, 0);
        KeptConcat(t, q + [LF], Text(t, s[3..], style, 0));
        KeptConcat(t, q, [LF]);
      } else {
        KeptText(t, s[3..], style, line + 4);
        KeptConcat(t, q, Text(t, s[3..], style, line + 4));
      }
    } else if s != [] {
      TailKnown(t, s, style.pad);
      var r := Tail(t, s, style.pad);
      KeptAll(t, r);
      KeptConcat(t, r, [LF]);
      assert r + [] == r;
    }
  }

  lemma KeptNone(t: Codes)
    ensures Kept(t, []) == []
  {
  }

  lemma {:induction false} SymbolsKnown(t: Codes, s: seq<Byte>, pad: bool)
    requires Alphabet(t)
    ensures Known(t, Symbols(t, s, pad)) && (s != [] ==> Symbols(t, s, pad) != [])
    decreases |s|
  {
    hide Lookup, Quad, Tail, Alphabet;
    if |s| >= 3 {
      QuadKnown(t, s[0], s[1], s[2]);
      SymbolsKnown(t, s[3..], pad);
    } else if s != [] {
      TailKnown(t, s, pad);
    }
  }

  /** The last group, with the padding it was printed with or that the decoder adds. */
  lemma TailGroup(t: Codes, s: seq<Byte>, pad: bool)
    requires Alphabet(t) && 1 <= |s| <= 2
    ensures var k := Tail(t, s, pad) + Pads(Missing(|Tail(t, s, pad)|));
            |k| == 4 && Known(t, k) && PadCount(k) == 3 - |s| && Octets(t, k)[..|s|] == s
  {
    hide Lookup, Alphabet, Triple, PadCount, Quad;
    var b := if |s| == 2 then s[1] else 0;
    QuadKnown(t, s[0], b, 0);
    EqKnown(t);
    Regrouped(s[0], b, 0);
    var q := Quad(t, s[0], b, 0);
    var k := Tail(t, s, pad) + Pads(Missing(|Tail(t, s, pad)|));
    if |s| == 1 {
      assert k == q[..2] + [EQ] + [EQ];
      PadAppend(q[..2], EQ);
      PadAppend(q[..2] + [EQ], EQ);
      assert k[0] == q[0] && k[1] == q[1] && k[2] == EQ && k[3] == EQ;
    } else {
      assert k == q[..3] + [EQ];
      PadAppend(q[..3], EQ);
      assert k[0] == q[0] && k[1] == q[1] && k[2] == q[2] && k[3] == EQ;
    }
    assert Octets(t, k) == [s[0], b, 0];
  }

  lemma PadAppend(s: seq<Byte>, c: Byte)
    ensures PadCount(s + [c]) == PadCount(s) + if c == EQ then 1 else 0
  {
    assert (s + [c])[..|s|] == s;
  }

  lemma {:induction false} GroupsBack(t: Codes, s: seq<Byte>, pad: bool)
    requires Alphabet(t)
    ensures var k := Symbols(t, s, pad);
            var all := k + Pads(Missing(|k|));
            Known(t, all) && Groups(t, all) == Some(s)
    decreases |s|
  {
    hide Lookup, Quad, Tail, Alphabet, Octets, PadCount, Missing;
    var k := Symbols(t, s, pad);
    var all := k + Pads(Missing(|k|));
    if |s| >= 3 {
      var q, r := Quad(t, s[0], s[1], s[2]), Symbols(t, s[3..], pad);
      QuadKnown(t, s[0], s[1], s[2]);
      GroupsBack(t, s[3..], pad);
      MissingFour(|r|);
      assert all == q + (r + Pads(Missing(|r|)));
      assert all[..4] == q && all[4..] == r + Pads(Missing(|r|));
      assert s == [s[0], s[1], s[2]] + s[3..];
      assert Known(t, all);
    } else if s == [] {
      MissingFour(0);
      assert all == [];
    } else {
      TailGroup(t, s, pad);
      assert all[..4] == all;
    }
  }

  lemma MissingFour(n: nat)
    ensures Missing(4 + n) == Missing(n) && Missing(0) == 0
  {
  }

  /** Every non-empty input comes back, for every encoder. */
  lemma RoundTrip(t: Codes, s: seq<Byte>, style: Style)
    requires Alphabet(t) && s != []
    ensures Decoded(t, Text(t, s, style, 0)) == Some(s)
  {
    hide Alphabet, Groups, Known, Symbols, Text;
    KeptText(t, s, style, 0);
    SymbolsKnown(t, s, style.pad);
    GroupsBack(t, s, style.pad);
  }

  /** The three encoders with their decoders: with line feeds, without, and the URL form without padding. */
  lemma AllEncoders(s: seq<Byte>)
    requires s != []
    ensures Decoded(StandardTable(), Text(StandardTable(), s, Style(true, true), 0)) == Some(s)
    ensures Decoded(StandardTable(), Text(StandardTable(), s, Style(true, false), 0)) == Some(s)
    ensures Decoded(UrlTable(), Text(UrlTable(), s, Style(false, false), 0)) == Some(s)
  {
    hide Text, Decoded, Alphabet, StandardTable, UrlTable;
    Alphabets();
    RoundTrip(StandardTable(), s, Style(true, true));
    RoundTrip(StandardTable(), s, Style(true, false));
    RoundTrip(UrlTable(), s, Style(false, false));
  }

  // ---------------------------------------------------------------- text and octets written out

  /** The two alphabets: capital and small letters, digits, and two more characters. */
  lemma TablesAre(i: nat)
    requires i < 64
    ensures i < 26 ==> StandardTable()[i] == UrlTable()[i] == 'A' as int + i
    ensures 26 <= i < 52 ==> StandardTable()[i] == UrlTable()[i] == 'a' as int + (i - 26)
    ensures 52 <= i < 62 ==> StandardTable()[i] == UrlTable()[i] == '0' as int + (i - 52)
    ensures i == 62 ==> StandardTable()[i] == '+' as int && UrlTable()[i] == '-' as int
    ensures i == 63 ==> StandardTable()[i] == '/' as int && UrlTable()[i] == '_' as int
  {
  }

  /** Without line feeds, symbol k is the one for bits 6 k to 6 k + 5 of the input, zeros behind its end, as long as there
      are input bits in it, and then come padding characters. */
  lemma SymbolAt(t: Codes, s: seq<Byte>, pad: bool, line: nat, k: nat)
    requires k < |Text(t, s, Style(pad, false), line)|
    ensures var i := k / 4 * 3;
            var a: nat := if i < |s| then s[i] else 0;
            var b: nat := if i + 1 < |s| then s[i + 1] else 0;
            var c: nat := if i + 2 < |s| then s[i + 2] else 0;
            Text(t, s, Style(pad, false), line)[k]
              == if k < (4 * |s| + 2) / 3 then t[((a * 256 + b) * 256 + c) / Arith.Pow(64, 3 - k % 4) % 64] else 61
  {
    hide Text;
    PlainText(t, s, pad, line);
    SymbolsAt(t, s, pad, k);
  }

  lemma {:induction false} PlainText(t: Codes, s: seq<Byte>, pad: bool, line: nat)
    ensures Text(t, s, Style(pad, false), line) == Symbols(t, s, pad)
    decreases |s|
  {
    hide Quad, Tail;
    if |s| >= 3 {
      PlainText(t, s[3..], pad, line + 4);
    } else if s != [] {
      assert Tail(t, s, pad) + [] == Tail(t, s, pad);
    }
  }

  lemma {:induction false} SymbolsAt(t: Codes, s: seq<Byte>, pad: bool, k: nat)
    requires k < |Symbols(t, s, pad)|
    ensures var i := k / 4 * 3;
            var a: nat := if i < |s| then s[i] else 0;
            var b: nat := if i + 1 < |s| then s[i + 1] else 0;
            var c: nat := if i + 2 < |s| then s[i + 2] else 0;
            Symbols(t, s, pad)[k]
              == if k < (4 * |s| + 2) / 3 then t[((a * 256 + b) * 256 + c) / Arith.Pow(64, 3 - k % 4) % 64] else 61
    decreases |s|
  {
    hide Quad, Arith.Pow;
    if |s| >= 3 && k >= 4 {
      SymbolsAt(t, s[3..], pad, k - 4);
      assert k / 4 * 3 == (k - 4) / 4 * 3 + 3 && k % 4 == (k - 4) % 4;
      assert (4 * |s[3..]| + 2) / 3 == (4 * |s| + 2) / 3 - 4;
    } else {
      var a: Byte := s[0];
      var b: Byte := if |s| > 1 then s[1] else 0;
      var c: Byte := if |s| > 2 then s[2] else 0;
      if k < 4 {
        QuadAt(t, a, b, c, k);
      }
    }
  }

  lemma QuadAt(t: Codes, a: Byte, b: Byte, c: Byte, k: nat)
    requires k < 4
    ensures var x: nat, y: nat, z: nat := a, b, c;
            Quad(t, a, b, c)[k] == t[((x * 256 + y) * 256 + z) / Arith.Pow(64, 3 - k) % 64]
  {
    hide Arith.Pow;
    SixBits(a, b, c);
    PowersOf64();
  }

  lemma SixBits(a: Byte, b: Byte, c: Byte)
    ensures var x: nat, y: nat, z: nat := a, b, c;
            var v := (x * 256 + y) * 256 + z;
            && v / 0x4_0000 % 64 == x / 4 && v / 0x1000 % 64 == x % 4 * 16 + y / 16
            && v / 64 % 64 == y % 16 * 4 + z / 64 && v % 64 == z % 64
  {
    var x: nat, y: nat, z: nat := a, b, c;
    var v := (x * 256 + y) * 256 + z;
    assert v / 64 == (x * 256 + y) * 4 + z / 64;
    assert v / 0x1000 == v / 64 / 64 == x * 16 + y / 16;
    assert v / 0x4_0000 == v / 0x1000 / 64 == x / 4;
  }

  lemma PowersOf64()
    ensures Arith.Pow(64, 0) == 1 && Arith.Pow(64, 1) == 64 && Arith.Pow(64, 2) == 0x1000 && Arith.Pow(64, 3) == 0x4_0000
  {
  }

  /** With line feeds the same symbols are there, 72 to a line, and a line feed behind each line and at the end. */
  lemma LinesAre(t: Codes, s: seq<Byte>, pad: bool, line: nat)
    requires line % 4 == 0 && line < 72
    ensures var x, y := Text(t, s, Style(pad, true), line), Symbols(t, s, pad);
            && |x| == |y| + (line + |y| + 71) / 72
            && forall k: nat {:trigger x[k]} :: k < |x| ==>
                 if (line + k) % 73 == 72 || k == |x| - 1 then x[k] == 10
                 else 0 <= k - (line + k) / 73 < |y| && x[k] == y[k - (line + k) / 73]
  {
    hide Text, Symbols;
    LinesBroken(t, s, pad, line);
  }

  /** The symbols y with line feeds, from a place in a line. */
  ghost predicate Broken(x: seq<Byte>, y: seq<Byte>, line: nat)
  {
    && |x| == |y| + (line + |y| + 71) / 72
    && forall k: nat {:trigger x[k]} :: k < |x| ==>
         if (line + k) % 73 == 72 || k == |x| - 1 then x[k] == 10
         else 0 <= k - (line + k) / 73 < |y| && x[k] == y[k - (line + k) / 73]
  }

  lemma {:induction false} LinesBroken(t: Codes, s: seq<Byte>, pad: bool, line: nat)
    requires line % 4 == 0 && line < 72
    ensures Broken(Text(t, s, Style(pad, true), line), Symbols(t, s, pad), line)
    decreases |s|
  {
    hide Text, Symbols, Quad, Broken;
    LineStep(t, s, pad, line);
    var x, y := Text(t, s, Style(pad, true), line), Symbols(t, s, pad);
    if |s| >= 3 {
      var next := if line + 4 >= 72 then 0 else line + 4;
      LinesBroken(t, s[3..], pad, next);
      var q, x1, y1 := Quad(t, s[0], s[1], s[2]), Text(t, s[3..], Style(pad, true), next), Symbols(t, s[3..], pad);
      if line + 4 >= 72 {
        NewLine(q, x, y, x1, y1);
      } else {
        SameLine(q, x, y, x1, y1, line);
      }
    } else if s != [] {
      OneLine(x, y, line);
    } else {
      NoLine(x, line);
    }
  }

  lemma NoLine(x: seq<Byte>, line: nat)
    requires line < 72 && x == if line > 0 then [10] else []
    ensures Broken(x, [], line)
  {
  }

  lemma LineStep(t: Codes, s: seq<Byte>, pad: bool, line: nat)
    ensures var x, y := Text(t, s, Style(pad, true), line), Symbols(t, s, pad);
            if |s| >= 3 then
              var q := Quad(t, s[0], s[1], s[2]);
              && y == q + Symbols(t, s[3..], pad)
              && x == if line + 4 >= 72 then q + [10] + Text(t, s[3..], Style(pad, true), 0)
                      else q + Text(t, s[3..], Style(pad, true), line + 4)
            else if s == [] then y == [] && x == if line > 0 then [10] else []
            else 0 < |y| <= 4 && x == y + [10]
  {
    hide Quad, Tail;
  }

  lemma OneLine(x: seq<Byte>, y: seq<Byte>, line: nat)
    requires 0 < |y| <= 4 && x == y + [10] && line <= 68
    ensures Broken(x, y, line)
  {
  }

  lemma NewLine(q: seq<Byte>, x: seq<Byte>, y: seq<Byte>, x1: seq<Byte>, y1: seq<Byte>)
    requires |q| == 4 && x == q + [10] + x1 && y == q + y1 && Broken(x1, y1, 0)
    ensures Broken(x, y, 68)
  {
    forall k: nat {:trigger x[k]} | k < |x|
      ensures if (68 + k) % 73 == 72 || k == |x| - 1 then x[k] == 10
              else 0 <= k - (68 + k) / 73 < |y| && x[k] == y[k - (68 + k) / 73]
    {
      if k >= 5 {
        assert x[k] == x1[k - 5];
        assert (68 + k) % 73 == (k - 5) % 73 && (68 + k) / 73 == (k - 5) / 73 + 1;
      }
    }
  }

  lemma SameLine(q: seq<Byte>, x: seq<Byte>, y: seq<Byte>, x1: seq<Byte>, y1: seq<Byte>, line: nat)
    requires |q| == 4 && x == q + x1 && y == q + y1 && line < 68 && Broken(x1, y1, line + 4)
    ensures Broken(x, y, line)
  {
    forall k: nat {:trigger x[k]} | k < |x|
      ensures if (line + k) % 73 == 72 || k == |x| - 1 then x[k] == 10
              else 0 <= k - (line + k) / 73 < |y| && x[k] == y[k - (line + k) / 73]
    {
      if k >= 4 {
        assert x[k] == x1[k - 4];
      }
    }
  }

  /** The decoder's table: a symbol has its index, the padding counts as zero, and any other character is passed over. */
  lemma LookupIs(t: Codes, v: Byte)
    requires Alphabet(t)
    ensures Lookup(t, v) == 0x80 <==> v != 61 && v !in t
    ensures v == 61 ==> Lookup(t, v) == 0
    ensures v in t ==> Lookup(t, v) < 64 && t[Lookup(t, v)] == v
  {
    if v in t {
      var i: nat :| i < 64 && t[i] == v;
      LookupSymbol(t, i);
    } else {
      IndexMissing(t, v, 64);
    }
  }

  lemma KeptIs(t: Codes, a: seq<Byte>, c: Byte)
    requires Alphabet(t)
    ensures Kept(t, []) == [] && Kept(t, a + [c]) == Kept(t, a) + if c == 61 || c in t then [c] else []
  {
    hide Lookup, Alphabet;
    LookupIs(t, c);
    assert (a + [c])[..|a|] == a;
  }

  /** What counts is filled up to whole groups with padding. */
  lemma DecodedIs(t: Codes, text: seq<Byte>, k: seq<Byte>)
    requires Kept(t, text) <= k && |k| % 4 == 0 && |k| < |Kept(t, text)| + 4
    requires forall i :: |Kept(t, text)| <= i < |k| ==> k[i] == 61
    ensures Known(t, k) && Decoded(t, text) == if Kept(t, text) == [] then None else Groups(t, k)
  {
    hide Kept, Groups, Known;
    var kept := Kept(t, text);
    KeptKnown(t, text, Missing(|kept|));
    assert |k| - |kept| == Missing(|kept|);
    assert k == kept + Pads(Missing(|kept|));
  }

  /** A group is four indexes of six bits each; padding in it ends the text and says how much of the three octets
      counts. */
  lemma GroupIs(t: Codes, k: seq<Byte>, i0: nat, i1: nat, i2: nat, i3: nat)
    requires Alphabet(t) && |k| >= 4 && |k| % 4 == 0 && Known(t, k) && i0 < 64 && i1 < 64 && i2 < 64 && i3 < 64
    requires if k[0] == 61 then i0 == 0 else t[i0] == k[0]
    requires if k[1] == 61 then i1 == 0 else t[i1] == k[1]
    requires if k[2] == 61 then i2 == 0 else t[i2] == k[2]
    requires if k[3] == 61 then i3 == 0 else t[i3] == k[3]
    ensures Known(t, k[4..])
    ensures var v := ((i0 * 64 + i1) * 64 + i2) * 64 + i3;
            var o := [v / 0x1_0000, v / 256 % 256, v % 256];
            var p := (if k[0] == 61 then 1 else 0) + (if k[1] == 61 then 1 else 0) + (if k[2] == 61 then 1 else 0)
                     + (if k[3] == 61 then 1 else 0);
            Groups(t, k) == if p > 2 then None else if p > 0 then Some(o[..3 - p])
                            else if Groups(t, k[4..]).None? then None else Some(o + Groups(t, k[4..]).value)
  {
    hide Lookup, Alphabet;
    assert Known(t, k[4..]) by {
      forall i {:trigger k[4..][i]} | 0 <= i < |k| - 4
        ensures Lookup(t, k[4..][i]) != INVALID
      {
        assert k[4..][i] == k[i + 4];
      }
    }
    EqKnown(t);
    IndexOf(t, k[0], i0);
    IndexOf(t, k[1], i1);
    IndexOf(t, k[2], i2);
    IndexOf(t, k[3], i3);
    PadsInGroup(k[..4]);
    ThreeOctets(i0, i1, i2, i3);
  }

  lemma IndexOf(t: Codes, v: Byte, i: nat)
    requires Alphabet(t) && i < 64 && (if v == 61 then i == 0 else t[i] == v)
    ensures Lookup(t, v) == i
  {
    hide Lookup;
    EqKnown(t);
    LookupSymbol(t, i);
  }

  lemma EmptyPads()
    ensures PadCount([]) == 0
  {
  }

  lemma PadsInGroup(g: seq<Byte>)
    requires |g| == 4
    ensures PadCount(g) == (if g[0] == 61 then 1 else 0) + (if g[1] == 61 then 1 else 0) + (if g[2] == 61 then 1 else 0)
                           + (if g[3] == 61 then 1 else 0)
  {
    hide PadCount;
    EmptyPads();
    PadAppend([], g[0]);
    PadAppend([g[0]], g[1]);
    PadAppend([g[0], g[1]], g[2]);
    PadAppend([g[0], g[1], g[2]], g[3]);
    assert [] + [g[0]] == [g[0]] && [g[0]] + [g[1]] == [g[0], g[1]] && [g[0], g[1]] + [g[2]] == [g[0], g[1], g[2]];
    assert g == [g[0], g[1], g[2]] + [g[3]];
  }

  lemma ThreeOctets(i0: nat, i1: nat, i2: nat, i3: nat)
    requires i0 < 64 && i1 < 64 && i2 < 64 && i3 < 64
    ensures var v := ((i0 * 64 + i1) * 64 + i2) * 64 + i3;
            v / 0x1_0000 < 256 && Triple(i0, i1, i2, i3) == [v / 0x1_0000, v / 256 % 256, v % 256]
  {
    var v := ((i0 * 64 + i1) * 64 + i2) * 64 + i3;
    assert v / 64 == (i0 * 64 + i1) * 64 + i2;
    assert v % 256 == i2 % 4 * 64 + i3;
    assert v / 256 == (i0 * 64 + i1) * 16 + i2 / 4;
    assert v / 0x1_0000 == v / 256 / 256 == i0 * 4 + i1 / 16;
    assert v / 256 % 256 == i1 % 16 * 16 + i2 / 4;
  }

  // ---------------------------------------------------------------- the encoder

  /** base64_gen_encode: a buffer with the text and a terminating zero, or nothing for sizes that could
      overflow. */
  method Encode(src: seq<Byte>, t: Codes, style: Style) returns (out: array?<Byte>, outLen: nat)
    requires |src| <= SIZE_MAX
    ensures out == null <==> |src| >= SIZE_MAX / 4
    ensures out != null ==>
              && fresh(out) && out.Length == OutSize(|src|, style.lf) <= SIZE_MAX && outLen < out.Length
              && out[..outLen] == Text(t, src, style, 0) && out[outLen] == 0
  {
    hide Text;
    if |src| >= SIZE_MAX / 4 {
      return null, 0;
    }
    var olen := |src| * 4 / 3 + 4;
    if style.lf {
      olen := olen + olen / 72;
    }
    olen := olen + 1;
    assert olen >= |src|;
    out := new Byte[olen];
    Fits(t, src, style);
    outLen := EncodeInto(src, t, style, out);
  }

  /** Writing the text into a buffer that has room for it. */
  method EncodeInto(src: seq<Byte>, t: Codes, style: Style, out: array<Byte>) returns (outLen: nat)
    requires |Text(t, src, style, 0)| + 1 <= out.Length
    modifies out
    ensures outLen < out.Length && out[..outLen] == Text(t, src, style, 0) && out[outLen] == 0
  {
    hide Quad, Tail, Text;
    ghost var text := Text(t, src, style, 0);
    var inp, pos, lineLen: nat := 0, 0, 0;
    assert src[0..] == src && out[..0] == [] && [] + text == text;
    while |src| - inp >= 3
      invariant 0 <= inp <= |src| && pos < out.Length
      invariant out[..pos] + Text(t, src[inp..], style, lineLen) == text
    {
      ghost var front := out[..pos];
      TextQuad(t, src, inp, style, lineLen, front);
      Lengths(front, Text(t, src[inp..], style, lineLen), text);
      WriteQuad(t, src[inp], src[inp + 1], src[inp + 2], out, pos);
      pos := pos + 4;
      inp := inp + 3;
      lineLen := lineLen + 4;
      if style.lf && lineLen >= 72 {
        pos := WriteAll(out, pos, [LF]);
        lineLen := 0;
      }
      Lengths(out[..pos], Text(t, src[inp..], style, lineLen), text);
    }
    TextEnd(t, src[inp..], style, lineLen);
    Lengths(out[..pos], Text(t, src[inp..], style, lineLen), text);
    if |src| - inp > 0 {
      var tail := Tail(t, src[inp..], style.pad);
      pos := WriteAll(out, pos, tail);
      lineLen := lineLen + 4;
    }
    if style.lf && lineLen > 0 {
      pos := WriteAll(out, pos, [LF]);
    }
    assert out[..pos] == text;
    out[pos] := 0;
    outLen := pos;
  }

  /** The end of the text, behind all whole groups of three. */
  lemma TextEnd(t: Codes, s: seq<Byte>, style: Style, line: nat)
    requires |s| < 3
    ensures Text(t, s, style, line)
         == (if s == [] then [] else Tail(t, s, style.pad)) + (if style.lf && (line > 0 || s != []) then [LF] else [])
  {
    hide Tail;
  }

  lemma Lengths(a: seq<Byte>, b: seq<Byte>, all: seq<Byte>)
    requires a + b == all
    ensures |a| + |b| == |all|
  {
  }

  /** One round of the encoder's loop on the text. */
  lemma TextQuad(t: Codes, src: seq<Byte>, inp: nat, style: Style, line: nat, front: seq<Byte>)
    requires inp + 3 <= |src|
    ensures var q := Quad(t, src[inp], src[inp + 1], src[inp + 2]);
            var full := style.lf && line + 4 >= 72;
            front + Text(t, src[inp..], style, line)
              == front + q + (if full then [LF] else []) + Text(t, src[inp + 3..], style, if full then 0 else line + 4)
  {
    hide Quad;
    assert src[inp..][3..] == src[inp + 3..];
  }

  method WriteQuad(t: Codes, a: Byte, b: Byte, c: Byte, out: array<Byte>, pos: nat)
    requires pos + 4 <= out.Length
    modifies out
    ensures out[..pos + 4] == old(out[..pos]) + Quad(t, a, b, c)
  {
    out[pos] := t[a / 4];
    out[pos + 1] := t[a % 4 * 16 + b / 16];
    out[pos + 2] := t[b % 16 * 4 + c / 64];
    out[pos + 3] := t[c % 64];
  }

  method WriteAll(out: array<Byte>, pos0: nat, s: seq<Byte>) returns (pos: nat)
    requires pos0 + |s| <= out.Length
    modifies out
    ensures pos == pos0 + |s| && out[..pos] == old(out[..pos0]) + s
  {
    var i := 0;
    while i < |s|
      invariant 0 <= i <= |s| && out[..pos0 + i] == old(out[..pos0]) + s[..i]
    {
      out[pos0 + i] := s[i];
      i := i + 1;
      assert out[..pos0 + i] == out[..pos0 + i - 1] + [s[i - 1]];
      assert s[..i] == s[..i - 1] + [s[i - 1]];
    }
    assert s[..i] == s;
    pos := pos0 + i;
  }

  // ---------------------------------------------------------------- the decoder

  method DecodingTable(t: Codes) returns (dtable: array<Byte>)
    ensures fresh(dtable) && dtable.Length == 256 && forall v: Byte {:trigger dtable[v]} :: dtable[v] == Lookup(t, v)
  {
    dtable := new Byte[256](_ => INVALID);
    var i := 0;
    while i < 64
      invariant 0 <= i <= 64
      invariant forall v: Byte {:trigger dtable[v]} :: dtable[v] == LastIndex(t, v, i)
    {
      dtable[t[i]] := i;
      i := i + 1;
    }
    dtable[EQ] := 0;
  }

  /** The kept characters among the first i of the text and the padding behind it. */
  ghost function Seen(t: Codes, src: seq<Byte>, i: nat): seq<Byte>
  {
    if i <= |src| then Kept(t, src[..i]) else Kept(t, src) + Pads(i - |src|)
  }

  lemma SeenNext(t: Codes, src: seq<Byte>, i: nat)
    ensures var val := if i >= |src| then EQ else src[i];
            Seen(t, src, i + 1) == Seen(t, src, i) + (if Lookup(t, val) != INVALID then [val] else [])
  {
    EqKnown(t);
    hide Lookup;
    if i < |src| {
      assert src[..i + 1][..i] == src[..i];
    } else {
      assert src[..|src|] == src;
      assert Pads(i + 1 - |src|) == Pads(i - |src|) + [EQ];
    }
  }

  lemma SeenEnds(t: Codes, src: seq<Byte>, extra: nat)
    ensures Seen(t, src, 0) == [] && Seen(t, src, |src| + extra) == Kept(t, src) + Pads(extra)
  {
    hide Kept;
    KeptNone(t);
    assert src[..|src|] == src && src[..0] == [];
    assert Kept(t, src) + Pads(0) == Kept(t, src);
  }

  lemma {:induction false} SeenPrefix(t: Codes, src: seq<Byte>, i: nat, n: nat)
    requires i <= n
    ensures Seen(t, src, i) <= Seen(t, src, n)
    decreases n - i
  {
    hide Seen;
    if i < n {
      SeenNext(t, src, i);
      SeenPrefix(t, src, i + 1, n);
    }
  }

  ghost function GroupsFrom(t: Codes, k: seq<Byte>, g: nat): Option<seq<Byte>>
    requires |k| % 4 == 0 && Known(t, k) && 4 * g <= |k|
  {
    KnownRest(t, k, 4 * g);
    Groups(t, k[4 * g..])
  }

  /** The decoder between two characters: groups done, and the symbols of the group begun. */
  ghost predicate Between(t: Codes, k: seq<Byte>, g: nat, done: seq<Byte>, block: seq<Byte>, pad: nat)
    requires |k| % 4 == 0 && Known(t, k)
  {
    var n := |block|;
    && n < 4 && 4 * g + n <= |k| && |done| == 3 * g
    && pad == PadCount(k[4 * g..4 * g + n])
    && (forall j {:trigger block[j]} :: 0 <= j < n ==> block[j] == Lookup(t, k[4 * g + j]))
    && Groups(t, k) == Prepended(done, GroupsFrom(t, k, g))
  }

  lemma BetweenStart(t: Codes, k: seq<Byte>)
    requires |k| % 4 == 0 && Known(t, k)
    ensures Between(t, k, 0, [], [], 0)
  {
    hide Lookup, Groups;
    assert k[0..] == k;
    assert Groups(t, k).Some? ==> [] + Groups(t, k).value == Groups(t, k).value;
  }

  /** A symbol that does not complete the group. */
  lemma BetweenSymbol(t: Codes, k: seq<Byte>, g: nat, done: seq<Byte>, block: seq<Byte>, pad: nat)
    requires |k| % 4 == 0 && Known(t, k) && Between(t, k, g, done, block, pad)
    requires |block| < 3 && 4 * g + |block| < |k|
    ensures var v := k[4 * g + |block|];
            Between(t, k, g, done, block + [Lookup(t, v)], if v == EQ then pad + 1 else pad)
  {
    hide Lookup, Groups, Known, GroupsFrom;
    PadNext(k, 4 * g, |block|);
  }

  lemma PadNext(k: seq<Byte>, lo: nat, n: nat)
    requires lo + n < |k|
    ensures PadCount(k[lo..lo + n + 1]) == PadCount(k[lo..lo + n]) + if k[lo + n] == EQ then 1 else 0
  {
    assert k[lo..lo + n + 1][..n] == k[lo..lo + n];
  }

  lemma FourMore(k: seq<Byte>, i: nat)
    requires i + 4 <= |k|
    ensures k[i..][..4] == k[i..i + 4] && k[i..][4..] == k[i + 4..]
  {
  }

  /** The symbol that completes it: the group's octets, and whether anything may follow. */
  lemma GroupComplete(t: Codes, k: seq<Byte>, g: nat, done: seq<Byte>, block: seq<Byte>, pad: nat)
    requires |k| % 4 == 0 && Known(t, k) && Between(t, k, g, done, block, pad)
    requires |block| == 3 && 4 * g + 3 < |k|
    ensures var v := k[4 * g + 3];
            var b := block + [Lookup(t, v)];
            var p := if v == EQ then pad + 1 else pad;
            && (forall j {:trigger b[j]} :: 0 <= j < 4 ==> b[j] < 64)
            && var o := Triple(b[0], b[1], b[2], b[3]);
            && (p == 0 ==> Between(t, k, g + 1, done + o, [], 0))
            && (p > 0 ==> Groups(t, k) == if p <= 2 then Some(done + o[..3 - p]) else None)
  {
    hide Lookup, Triple, Groups;
    PadNext(k, 4 * g, 3);
    var q := k[4 * g..4 * g + 4];
    KnownRest(t, k, 4 * g);
    GroupsStep(t, k[4 * g..]);
    FourMore(k, 4 * g);
    var v := k[4 * g + 3];
    var b := block + [Lookup(t, v)];
    forall j {:trigger b[j]} | 0 <= j < 4
      ensures b[j] == Lookup(t, q[j]) && b[j] < 64
    {
      assert k[4 * g + j] == q[j] && Lookup(t, k[4 * g + j]) != INVALID;
      if j < 3 {
        assert block[j] == Lookup(t, k[4 * g + j]);
      }
    }
    var o := Octets(t, q);
    assert k[4 * (g + 1)..4 * (g + 1)] == [];
    NoPads();
    hide PadCount;
    if PadCount(q) == 0 {
      PrependedTwice(done, o, GroupsFrom(t, k, g + 1));
    }
  }

  lemma GroupsStep(t: Codes, k: seq<Byte>)
    requires |k| % 4 == 0 && Known(t, k) && k != []
    ensures Known(t, k[4..]) && forall i {:trigger k[i]} :: 0 <= i < 4 ==> Lookup(t, k[..4][i]) != INVALID
    ensures var o, p := Octets(t, k[..4]), PadCount(k[..4]);
            Groups(t, k) == if p == 0 then Prepended(o, Groups(t, k[4..])) else if p <= 2 then Some(o[..3 - p]) else None
  {
    hide Lookup;
    KnownRest(t, k, 4);
  }

  lemma NoPads()
    ensures PadCount([]) == 0
  {
  }

  lemma KnownRest(t: Codes, k: seq<Byte>, n: nat)
    requires n <= |k| && Known(t, k)
    ensures Known(t, k[n..])
  {
    hide Lookup;
  }

  lemma PrependedTwice(a: seq<Byte>, b: seq<Byte>, rest: Option<seq<Byte>>)
    ensures Prepended(a, Prepended(b, rest)) == Prepended(a + b, rest)
  {
    if rest.Some? {
      assert a + (b + rest.value) == (a + b) + rest.value;
    }
  }

  method CountKept(src: seq<Byte>, t: Codes, dtable: array<Byte>) returns (count: nat)
    requires dtable.Length == 256 && forall v: Byte {:trigger dtable[v]} :: dtable[v] == Lookup(t, v)
    ensures count == |Kept(t, src)|
  {
    hide Lookup;
    count := 0;
    var i := 0;
    while i < |src|
      invariant 0 <= i <= |src| && count == |Kept(t, src[..i])|
    {
      assert src[..i + 1][..i] == src[..i];
      if dtable[src[i]] != INVALID {
        count := count + 1;
      }
      i := i + 1;
    }
    assert src[..i] == src;
  }

  /** base64_gen_decode: the counting pass, and the loop over what it has counted. */
  method Decode(src: seq<Byte>, t: Codes) returns (r: Option<seq<Byte>>)
    ensures r == Decoded(t, src)
  {
    var dtable := DecodingTable(t);
    hide Lookup, Groups, Known, Kept;
    var count := CountKept(src, t, dtable);
    if count == 0 {
      return None;
    }
    var extraPad := (4 - count % 4) % 4;
    KeptKnown(t, src, extraPad);
    r := DecodeGroups(src, t, dtable, extraPad, (count + extraPad) / 4 * 3);
  }

  /** The decoding loop: a completed group gives three octets, and padding ends the text. */
  method DecodeGroups(src: seq<Byte>, t: Codes, dtable: array<Byte>, extraPad: nat, size: nat) returns (r: Option<seq<Byte>>)
    requires dtable.Length == 256 && forall v: Byte {:trigger dtable[v]} :: dtable[v] == Lookup(t, v)
    requires (|Kept(t, src)| + extraPad) % 4 == 0 && size == (|Kept(t, src)| + extraPad) / 4 * 3
    requires Known(t, Kept(t, src) + Pads(extraPad))
    ensures r == Groups(t, Kept(t, src) + Pads(extraPad))
  {
    hide Lookup, Between, Groups, Known, Seen, Kept, Triple;
    var out := new Byte[size];
    var block := new Byte[4];
    ghost var k := Kept(t, src) + Pads(extraPad);
    var n := |src| + extraPad;
    SeenEnds(t, src, extraPad);
    BetweenStart(t, k);
    ghost var g := 0;
    var i, pos, pad, count: nat := 0, 0, 0, 0;
    assert out[..0] == [] && block[..0] == [];
    while i < n
      modifies out, block
      invariant 0 <= i <= n && 0 <= count < 4 && pos == 3 * g && 4 * g + count == |Seen(t, src, i)|
      invariant pos <= out.Length && Between(t, k, g, out[..pos], block[..count], pad)
    {
      var val := if i >= |src| then EQ else src[i];
      SeenNext(t, src, i);
      SeenPrefix(t, src, i + 1, n);
      var tmp := dtable[val];
      i := i + 1;
      if tmp != INVALID {
        ghost var b := block[..count];
        assert k[4 * g + count] == val;
        if count == 3 {
          GroupComplete(t, k, g, out[..pos], b, pad);
        } else {
          BetweenSymbol(t, k, g, out[..pos], b, pad);
        }
        if val == EQ {
          pad := pad + 1;
        }
        block[count] := tmp;
        count := count + 1;
        assert block[..count] == b + [tmp];
        if count == 4 {
          ghost var done := out[..pos];
          Emit(block, out, pos);
          pos := pos + 3;
          g := g + 1;
          count := 0;
          assert block[..0] == [];
          if pad > 0 {
            if pad == 1 {
              pos := pos - 1;
            } else if pad == 2 {
              pos := pos - 2;
            } else {
              return None;
            }
            return Some(out[..pos]);
          }
        }
      }
    }
    AllDone(t, k, g, out[..pos], block[..count], pad);
    r := Some(out[..pos]);
  }

  method Emit(block: array<Byte>, out: array<Byte>, pos: nat)
    requires block.Length == 4 && out != block && pos + 3 <= out.Length
    requires block[0] < 64 && block[1] < 64 && block[2] < 64 && block[3] < 64
    modifies out
    ensures var o := Triple(block[0], block[1], block[2], block[3]);
            && out[..pos + 3] == old(out[..pos]) + o
            && out[..pos + 2] == old(out[..pos]) + o[..2]
            && out[..pos + 1] == old(out[..pos]) + o[..1]
  {
    out[pos] := block[0] * 4 + block[1] / 16;
    out[pos + 1] := block[1] % 16 * 16 + block[2] / 4;
    out[pos + 2] := block[2] % 4 * 64 + block[3];
  }

  lemma AllDone(t: Codes, k: seq<Byte>, g: nat, done: seq<Byte>, block: seq<Byte>, pad: nat)
    requires |k| % 4 == 0 && Known(t, k) && Between(t, k, g, done, block, pad) && 4 * g + |block| == |k|
    ensures Groups(t, k) == Some(done)
  {
    hide Lookup, Groups, Known;
    assert k[4 * g..] == [];
    NoGroups(t);
    assert done + [] == done;
  }

  lemma NoGroups(t: Codes)
    ensures Known(t, []) && Groups(t, []) == Some([])
  {
  }
}
