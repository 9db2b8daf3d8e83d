/** Reading and writing multi-precision integers as octet strings. */
module BinIO {
  import opened Arith
  import opened Bytes
  import opened Digits
  import opened MpInts
  import opened Shift

  /** The digit sum's low octet is the low octet of digit 0. */
  lemma LowOctet(s: seq<int>, n: nat)
    requires 0 < n <= |s|
    ensures Ev(s, n) % 256 == s[0] % 256
  {
    var z := EvSplit(s, 1, n);
    assert Ev(s, 1) == Ev(s, 0) + s[0] * B(0) && B(1) == BETA * B(0);
    ModAddMultiple(s[0], 0x10_0000 * z, 256);
    assert B(1) * z == (0x10_0000 * z) * 256;
  }

  /** Room for one more octet at the bottom: the count of digits still covers the number. */
  ghost predicate Covers(v: int, used: nat)
  {
    0 <= v && v * 256 < B(used)
  }

  lemma CoversNext(v: int, d: Byte, clamped: nat, before: nat)
    requires Covers(v, before) && v * 256 < B(clamped)
    requires clamped > 0 ==> B(clamped - 1) <= v * 256
    requires clamped == 0 ==> v == 0
    ensures clamped <= before && Covers(v * 256 + d, clamped + 1)
  {
    if clamped > before {
      BMono(before, clamped - 1);
    }
    assert clamped > 0 ==> B(clamped) == 256 * (0x10_0000 * B(clamped - 1));
  }

  /** One octet of mp_read_unsigned_bin. */
  method AppendOctet(a: MpInt, d: Byte)
    requires a.Wf() && !a.neg && Covers(a.Mag(), a.used)
    modifies a
    ensures a.Wf() && !a.neg && Covers(a.Mag(), a.used) && a.Mag() == old(a.Mag()) * 256 + d
  {
    hide Ev, B, Covers;
    ghost var v, before := a.Mag(), a.used;
    assert Pow(2, 8) == 256;
    Mul2d(a, 8, a);
    ClampedSize(a, v);
    CoversNext(v, d, a.used, before);
    ghost var s, n := a.dp, a.used;
    RoomAtBottom(a, v, d);
    a.dp := a.dp[0 := a.dp[0] + d];
    a.used := a.used + 1;
    BottomOctet(s, a.dp, n, d);
  }

  lemma ClampedSize(a: MpInt, v: int)
    requires a.Valid() && !a.neg && a.Mag() == v * 256
    ensures v * 256 < B(a.used) && (a.used > 0 ==> B(a.used - 1) <= v * 256)
    ensures a.used == 0 ==> v == 0
  {
    if a.used > 0 {
      MagRange(a);
    }
  }

  lemma RoomAtBottom(a: MpInt, v: int, d: Byte)
    requires a.Valid() && a.Mag() == v * 256
    ensures a.dp[0] + d < BETA
  {
    if a.used > 0 {
      LowOctet(a.dp, a.used);
    }
  }

  lemma BottomOctet(s: seq<int>, t: seq<int>, n: nat, d: int)
    requires n < |s| && |t| == |s| && t == s[0 := s[0] + d] && s[n] == 0
    ensures Ev(t, n + 1) == Ev(s, n) + d
  {
    EvAgreeAbove(s, t, 1, n + 1);
    assert Ev(s, 1) == Ev(s, 0) + s[0] * B(0) && Ev(t, 1) == Ev(t, 0) + t[0] * B(0);
  }

  /** mp_read_unsigned_bin. */
  method ReadUnsignedBin(a: MpInt, b: seq<Byte>)
    requires a.Wf()
    modifies a
    ensures a.Valid() && !a.neg && a.Val() == BytesVal(b)
  {
    hide Ev;
    a.Grow(2);
    a.Zero();
    var i := 0;
    while i < |b|
      invariant i <= |b| && a.Wf() && !a.neg && Covers(a.Mag(), a.used)
      invariant a.Mag() == BytesVal(b[..i])
    {
      AppendOctet(a, b[i]);
      assert b[..i + 1][..i] == b[..i];
      i := i + 1;
    }
    assert b[..i] == b;
    a.Clamp();
  }

  /** mp_unsigned_bin_size. */
  method UnsignedBinSize(a: MpInt) returns (size: nat)
    requires a.Valid()
    ensures size == |ValBytes(a.Mag())|
  {
    hide MpInt.Valid;
    size := CountBits(a);
    BitsToOctets(a.Mag(), size);
    size := size / 8 + if size % 8 != 0 then 1 else 0;
  }

  lemma BitsToOctets(v: nat, r: nat)
    requires r == 0 <==> v == 0
    requires r > 0 ==> Pow(2, r - 1) <= v < Pow(2, r)
    ensures |ValBytes(v)| == r / 8 + if r % 8 != 0 then 1 else 0
  {
    if r > 0 {
      var n := (r - 1) / 8 + 1;
      OctetPower(n);
      OctetPower(n - 1);
      PowMono(8 * (n - 1), r - 1);
      PowMono(r, 8 * n);
      ValBytesSize(v, n);
      ValBytesSize(v, n - 1);
    }
  }

  lemma OctetPower(n: nat)
    ensures Pow(256, n) == Pow(2, 8 * n)
  {
    assert Pow(2, 8) == 256;
    PowMul(2, 8, n);
  }

  lemma PowMono(m: nat, n: nat)
    requires m <= n
    ensures Pow(2, m) <= Pow(2, n)
  {
    PowAdd(2, m, n - m);
    MulLe(1, Pow(2, n - m), Pow(2, m));
  }

  /** A buffer with v written at position pos. */
  ghost function Spliced(buf: seq<Byte>, pos: nat, v: seq<Byte>): (s: seq<Byte>)
    requires pos + |v| <= |buf|
    ensures |s| == |buf|
  {
    buf[..pos] + v + buf[pos + |v|..]
  }

  ghost function Reversed(v: seq<Byte>): (s: seq<Byte>)
    ensures |s| == |v| && forall k :: 0 <= k < |v| ==> s[k] == v[|v| - 1 - k]
  {
    seq(|v|, i requires 0 <= i < |v| => v[|v| - 1 - i])
  }

  /** bn_reverse, on the part of the buffer that starts at pos. */
  method Reverse(s: array<Byte>, pos: nat, len: nat)
    requires pos + len <= s.Length
    modifies s
    ensures s[..] == old(Spliced(s[..], pos, Reversed(s[pos..pos + len])))
  {
    ghost var s0 := s[..];
    var ix, iy: int := pos, pos + len - 1;
    while ix < iy
      invariant pos <= ix && iy == 2 * pos + len - 1 - ix && ix <= iy + 2
      invariant forall k :: pos <= k < ix ==> s[k] == s0[2 * pos + len - 1 - k]
      invariant forall k :: iy < k < pos + len ==> s[k] == s0[2 * pos + len - 1 - k]
      invariant forall k :: ix <= k <= iy ==> s[k] == s0[k]
      invariant forall k :: 0 <= k < s.Length && !(pos <= k < pos + len) ==> s[k] == s0[k]
    {
      s[ix], s[iy] := s[iy], s[ix];
      ix := ix + 1;
      iy := iy - 1;
    }
    IsReversed(s0, s[..], pos, len);
  }

  lemma IsReversed(s0: seq<Byte>, s: seq<Byte>, pos: nat, len: nat)
    requires pos + len <= |s0| == |s|
    requires forall k :: pos <= k < pos + len ==> s[k] == s0[2 * pos + len - 1 - k]
    requires forall k :: 0 <= k < |s| && !(pos <= k < pos + len) ==> s[k] == s0[k]
    ensures s == Spliced(s0, pos, Reversed(s0[pos..pos + len]))
  {
  }

  /** mp_to_unsigned_bin: the octets of |a| at position pos of the buffer. */
  method ToUnsignedBin(a: MpInt, b: array<Byte>, pos: nat)
    requires a.Valid() && pos + |ValBytes(a.Mag())| <= b.Length
    modifies b
    ensures b[..] == old(Spliced(b[..], pos, ValBytes(a.Mag())))
  {
    hide Ev, B, MpInt.Wf, Spliced, Reversed;
    ghost var buf, v := b[..], ValBytes(a.Mag());
    var t := new MpInt();
    Copy(a, t);
    var x := LowFirst(t, b, pos);
    Reverse(b, pos, x);
    SpliceReversed(buf, pos, v);
  }

  lemma SpliceReversed(buf: seq<Byte>, pos: nat, v: seq<Byte>)
    requires pos + |v| <= |buf|
    ensures var s := Spliced(buf, pos, Reversed(v));
            Spliced(s, pos, Reversed(s[pos..pos + |v|])) == Spliced(buf, pos, v)
  {
    hide Spliced;
    SpliceTwice(buf, pos, Reversed(v), v);
    assert Reversed(Reversed(v)) == v;
  }

  lemma SpliceTwice(buf: seq<Byte>, pos: nat, v: seq<Byte>, w: seq<Byte>)
    requires pos + |v| <= |buf| && |w| == |v|
    ensures Spliced(buf, pos, v)[pos..pos + |v|] == v
    ensures Spliced(Spliced(buf, pos, v), pos, w) == Spliced(buf, pos, w)
  {
  }

  /** The loop of mp_to_unsigned_bin: octets come out least significant first. */
  method LowFirst(t: MpInt, b: array<Byte>, pos: nat) returns (x: nat)
    requires t.Valid() && pos + |ValBytes(t.Mag())| <= b.Length
    modifies t, b
    ensures x == old(|ValBytes(t.Mag())|)
    ensures b[..] == old(Spliced(b[..], pos, Reversed(ValBytes(t.Mag()))))
  {
    hide Ev, B, MpInt.Wf, Pow, ValBytes, Spliced, Reversed;
    ghost var v := ValBytes(t.Mag());
    ghost var buf := b[..];
    assert Pow(2, 8) == 256 by { OctetPower(1); PowStep(256, 1); PowZero256(); }
    x := 0;
    NoOctets(buf, pos, v);
    while t.used != 0
      invariant t.Valid() && x + |ValBytes(t.Mag())| == |v| && ValBytes(t.Mag()) == v[..|v| - x]
      invariant b[..] == Spliced(buf, pos, Reversed(v[|v| - x..]))
      decreases |v| - x
    {
      LastOctet(t.Mag());
      LowOctetOf(t);
      OneMoreOctet(buf, pos, v, x);
      b[pos + x] := t.dp[0] % 256;
      x := x + 1;
      Div2d(t, 8, t, null);
    }
    LastOctet(t.Mag());
    assert v[|v| - x..] == v;
  }

  lemma NoOctets(buf: seq<Byte>, pos: nat, v: seq<Byte>)
    requires pos <= |buf|
    ensures v[|v|..] == [] && buf == Spliced(buf, pos, Reversed([]))
  {
  }

  lemma OneMoreOctet(buf: seq<Byte>, pos: nat, v: seq<Byte>, x: nat)
    requires pos + |v| <= |buf| && x < |v|
    ensures Spliced(buf, pos, Reversed(v[|v| - x - 1..]))
         == Spliced(buf, pos, Reversed(v[|v| - x..]))[pos + x := v[|v| - x - 1]]
  {
    assert Reversed(v[|v| - x - 1..]) == Reversed(v[|v| - x..]) + [v[|v| - x - 1]];
  }

  lemma LowOctetOf(t: MpInt)
    requires t.Valid() && t.used > 0
    ensures |t.dp| > 0 && t.dp[0] % 256 == t.Mag() % 256
  {
    LowOctet(t.dp, t.used);
  }

  lemma PowZero256()
    ensures Pow(256, 0) == 1
  {
  }

  lemma LastOctet(v: nat)
    ensures v > 0 ==> var s := ValBytes(v);
              s != [] && s[|s| - 1] == v % 256 && ValBytes(v / 256) == s[..|s| - 1]
    ensures v == 0 ==> ValBytes(v) == []
  {
  }
}
