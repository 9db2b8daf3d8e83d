/** PKCS #1 v1.5 encryption blocks around the RSA operations. */
module Pkcs1 {
  import opened Arith
  import opened Bytes
  import opened Options
  import opened Rsa

  // ---------------------------------------------------------------- what the blocks are

  /** The padding octets of each block type; zero octets of the random source become 1. */
  function Padding(blockType: int, n: nat, rnd: seq<Byte>): (ps: seq<Byte>)
    requires blockType == 2 ==> |rnd| == n
    ensures |ps| == n
    ensures blockType == 2 ==> forall k :: 0 <= k < n ==> ps[k] != 0
    ensures blockType == 1 ==> forall k :: 0 <= k < n ==> ps[k] == 0xff
  {
    seq(n, i requires 0 <= i < n =>
      if blockType == 0 then 0 else if blockType == 1 then 0xff
      else if blockType == 2 && rnd[i] != 0 then rnd[i] else 1)
  }

  /** EB = 00 || BT || PS || 00 || D. */
  function Block(blockType: Byte, ps: seq<Byte>, d: seq<Byte>): (eb: seq<Byte>)
    ensures |eb| == |ps| + |d| + 3
  {
    [0, blockType] + ps + [0] + d
  }

  predicate BlockFits(blockType: int, modlen: nat, outlen: nat, inlen: nat)
  {
    12 <= modlen <= outlen && inlen <= modlen - 11 && (blockType == 0 || blockType == 1 || blockType == 2)
  }

  /** A block type 2 that the private decryption accepts, and its data. */
  ghost predicate IsEncrypted(eb: seq<Byte>, d: seq<Byte>)
  {
    exists ps: seq<Byte> :: eb == Block(2, ps, d) && |ps| >= 8 && forall k :: 0 <= k < |ps| ==> ps[k] != 0
  }

  /** A block type 1 that the public decryption accepts, and its data. */
  ghost predicate IsSigned(eb: seq<Byte>, d: seq<Byte>)
  {
    exists ps: seq<Byte> ::
      eb == Block(1, ps, d) && |ps| >= 8 && |d| >= 16 && forall k :: 0 <= k < |ps| ==> ps[k] == 0xff
  }

  // ---------------------------------------------------------------- stripping the padding

  predicate Skipped(b: Byte, signed: bool)
  {
    if signed then b == 0xff else b != 0
  }

  /** Where the run of padding octets that starts at i ends. */
  function RunEnd(s: seq<Byte>, i: nat, signed: bool): (j: nat)
    requires i <= |s|
    ensures i <= j <= |s| && (forall k :: i <= k < j ==> Skipped(s[k], signed))
    ensures j < |s| ==> !Skipped(s[j], signed)
    decreases |s| - i
  {
    if i < |s| && Skipped(s[i], signed) then RunEnd(s, i + 1, signed) else i
  }

  lemma {:induction false} RunEndIs(s: seq<Byte>, i: nat, signed: bool, j: nat)
    requires i <= j < |s| && (forall k :: i <= k < j ==> Skipped(s[k], signed)) && !Skipped(s[j], signed)
    ensures RunEnd(s, i, signed) == j
    decreases j - i
  {
    if i < j {
      RunEndIs(s, i + 1, signed, j);
    }
  }

  function StripEncrypted(eb: seq<Byte>): Option<seq<Byte>>
  {
    if |eb| < 2 || eb[0] != 0 || eb[1] != 2 then None
    else
      var pos := RunEnd(eb, 2, false);
      if pos == |eb| || pos - 2 < 8 then None else Some(eb[pos + 1..])
  }

  function StripSigned(eb: seq<Byte>): Option<seq<Byte>>
  {
    if |eb| < 27 || eb[0] != 0 || eb[1] != 1 || eb[2] != 0xff then None
    else
      var pos := RunEnd(eb, 3, true);
      if pos - 2 < 8 || pos + 16 >= |eb| || eb[pos] != 0 then None else Some(eb[pos + 1..])
  }

  /** In a block the padding run ends at the separator. */
  lemma RunInBlock(blockType: Byte, ps: seq<Byte>, d: seq<Byte>, start: nat, signed: bool)
    requires 2 <= start <= |ps| + 2 && (forall k :: 0 <= k < |ps| ==> Skipped(ps[k], signed)) && !Skipped(0, signed)
    ensures RunEnd(Block(blockType, ps, d), start, signed) == |ps| + 2
    ensures Block(blockType, ps, d)[|ps| + 3..] == d
  {
    var eb := Block(blockType, ps, d);
    assert forall k :: 2 <= k < |ps| + 2 ==> eb[k] == ps[k - 2];
    RunEndIs(eb, start, signed, |ps| + 2);
  }

  /** Octets with a zero at pos are a block with everything before it as padding. */
  lemma BlockAt(eb: seq<Byte>, pos: nat)
    requires 2 <= pos < |eb| && eb[0] == 0 && eb[pos] == 0
    ensures eb == Block(eb[1], eb[2..pos], eb[pos + 1..])
  {
  }

  /** Stripping accepts exactly the well-formed blocks and returns their data. */
  lemma StripEncryptedIff(eb: seq<Byte>, d: seq<Byte>)
    ensures StripEncrypted(eb) == Some(d) <==> IsEncrypted(eb, d)
  {
    hide RunEnd;
    if StripEncrypted(eb) == Some(d) {
      var pos := RunEnd(eb, 2, false);
      BlockAt(eb, pos);
    }
    if IsEncrypted(eb, d) {
      var ps: seq<Byte> :| eb == Block(2, ps, d) && |ps| >= 8 && forall k :: 0 <= k < |ps| ==> ps[k] != 0;
      RunInBlock(2, ps, d, 2, false);
    }
  }

  /** The same octet by octet: the data is behind the first zero after at least eight octets of padding. */
  lemma StripEncryptedIs(eb: seq<Byte>, d: seq<Byte>)
    ensures StripEncrypted(eb) == Some(d) <==>
              && |eb| >= |d| + 11 && eb[0] == 0 && eb[1] == 2
              && var n := |eb| - |d| - 1; (forall k :: 2 <= k < n ==> eb[k] != 0) && eb[n] == 0 && eb[n + 1..] == d
  {
    hide StripEncrypted, IsEncrypted, Block;
    StripEncryptedIff(eb, d);
    if IsEncrypted(eb, d) {
      var ps := EncryptedParts(eb, d);
      BlockParts(2, ps, d);
    }
    var n := |eb| - |d| - 1;
    if n >= 10 && eb[0] == 0 && eb[1] == 2 && (forall k :: 2 <= k < n ==> eb[k] != 0) && eb[n] == 0 && eb[n + 1..] == d {
      BlockAt(eb, n);
      PartsEncrypted(eb[2..n], d);
    }
  }

  lemma EncryptedParts(eb: seq<Byte>, d: seq<Byte>) returns (ps: seq<Byte>)
    requires IsEncrypted(eb, d)
    ensures eb == Block(2, ps, d) && |ps| >= 8 && forall k :: 0 <= k < |ps| ==> ps[k] != 0
  {
    ps :| eb == Block(2, ps, d) && |ps| >= 8 && forall k :: 0 <= k < |ps| ==> ps[k] != 0;
  }

  lemma PartsEncrypted(ps: seq<Byte>, d: seq<Byte>)
    requires |ps| >= 8 && forall k :: 0 <= k < |ps| ==> ps[k] != 0
    ensures IsEncrypted(Block(2, ps, d), d)
  {
  }

  lemma BlockParts(blockType: Byte, ps: seq<Byte>, d: seq<Byte>)
    ensures var eb, n := Block(blockType, ps, d), |ps| + 2;
            && |eb| == n + 1 + |d| && eb[0] == 0 && eb[1] == blockType && eb[2..n] == ps && eb[n] == 0 && eb[n + 1..] == d
            && forall k :: 2 <= k < n ==> eb[k] == ps[k - 2]
  {
  }

  lemma StripSignedIs(eb: seq<Byte>, d: seq<Byte>)
    ensures StripSigned(eb) == Some(d) <==>
              && |eb| >= |d| + 11 && |d| >= 16 && eb[0] == 0 && eb[1] == 1
              && var n := |eb| - |d| - 1; (forall k :: 2 <= k < n ==> eb[k] == 0xff) && eb[n] == 0 && eb[n + 1..] == d
  {
    hide StripSigned, IsSigned, Block;
    StripSignedIff(eb, d);
    if IsSigned(eb, d) {
      var ps := SignedParts(eb, d);
      BlockParts(1, ps, d);
    }
    var n := |eb| - |d| - 1;
    if n >= 10 && |d| >= 16 && eb[0] == 0 && eb[1] == 1 && (forall k :: 2 <= k < n ==> eb[k] == 0xff) && eb[n] == 0
       && eb[n + 1..] == d {
      BlockAt(eb, n);
      PartsSigned(eb[2..n], d);
    }
  }

  lemma SignedParts(eb: seq<Byte>, d: seq<Byte>) returns (ps: seq<Byte>)
    requires IsSigned(eb, d)
    ensures eb == Block(1, ps, d) && |ps| >= 8 && |d| >= 16 && forall k :: 0 <= k < |ps| ==> ps[k] == 0xff
  {
    ps :| eb == Block(1, ps, d) && |ps| >= 8 && |d| >= 16 && forall k :: 0 <= k < |ps| ==> ps[k] == 0xff;
  }

  lemma PartsSigned(ps: seq<Byte>, d: seq<Byte>)
    requires |ps| >= 8 && |d| >= 16 && forall k :: 0 <= k < |ps| ==> ps[k] == 0xff
    ensures IsSigned(Block(1, ps, d), d)
  {
  }

  lemma StripSignedIff(eb: seq<Byte>, d: seq<Byte>)
    ensures StripSigned(eb) == Some(d) <==> IsSigned(eb, d)
  {
    hide StripSigned, IsSigned;
    if StripSigned(eb) == Some(d) {
      StrippedIsSigned(eb, d);
    }
    if IsSigned(eb, d) {
      SignedIsStripped(eb, d);
    }
  }

  lemma StrippedIsSigned(eb: seq<Byte>, d: seq<Byte>)
    requires StripSigned(eb) == Some(d)
    ensures IsSigned(eb, d)
  {
    hide RunEnd, Block, IsSigned;
    var pos := RunEnd(eb, 3, true);
    BlockAt(eb, pos);
    assert forall k :: 0 <= k < pos - 2 ==> eb[2..pos][k] == 0xff;
    PartsSigned(eb[2..pos], d);
  }

  lemma SignedIsStripped(eb: seq<Byte>, d: seq<Byte>)
    requires IsSigned(eb, d)
    ensures StripSigned(eb) == Some(d)
  {
    hide RunEnd;
    var ps: seq<Byte> :|
      eb == Block(1, ps, d) && |ps| >= 8 && |d| >= 16 && forall k :: 0 <= k < |ps| ==> ps[k] == 0xff;
    RunInBlock(1, ps, d, 3, true);
  }

  // ---------------------------------------------------------------- the procedures

  method Fill(out: array<Byte>, pos: nat, v: seq<Byte>)
    requires pos + |v| <= out.Length
    modifies out
    ensures out[pos..pos + |v|] == v
    ensures forall k :: 0 <= k < out.Length && !(pos <= k < pos + |v|) ==> out[k] == old(out[k])
  {
    var i := 0;
    while i < |v|
      invariant 0 <= i <= |v| && forall k :: pos <= k < pos + i ==> out[k] == v[k - pos]
      invariant forall k :: 0 <= k < out.Length && !(pos <= k < pos + i) ==> out[k] == old(out[k])
    {
      out[pos + i] := v[i];
      i := i + 1;
    }
  }

  /** The random padding with its zero octets replaced, in place. */
  method RandomPadding(out: array<Byte>, pos: nat, rnd: seq<Byte>)
    requires pos + |rnd| <= out.Length
    modifies out
    ensures out[pos..pos + |rnd|] == Padding(2, |rnd|, rnd)
    ensures forall k :: 0 <= k < out.Length && !(pos <= k < pos + |rnd|) ==> out[k] == old(out[k])
  {
    Fill(out, pos, rnd);
    ghost var filled := out[..];
    assert forall k :: 0 <= k < |rnd| ==> filled[pos..pos + |rnd|][k] == rnd[k];
    var i := pos;
    while i < pos + |rnd|
      invariant pos <= i <= pos + |rnd|
      invariant forall k :: pos <= k < i ==> out[k] == if filled[k] == 0 then 1 else filled[k]
      invariant forall k :: 0 <= k < out.Length && !(pos <= k < i) ==> out[k] == filled[k]
    {
      if out[i] == 0 {
        out[i] := 1;
      }
      i := i + 1;
    }
  }

  /** pkcs1_generate_encryption_block; rnd is what the random source delivers when it is asked. */
  method GenerateEncryptionBlock(blockType: Byte, modlen: nat, inp: seq<Byte>, out: array<Byte>, outlen: nat,
                                 rnd: seq<Byte>)
    returns (ok: bool)
    requires outlen <= out.Length
    requires BlockFits(2, modlen, outlen, |inp|) ==> |rnd| == modlen - |inp| - 3
    modifies out
    ensures ok <==> BlockFits(blockType, modlen, outlen, |inp|)
    ensures ok ==> out[..modlen] == Block(blockType, Padding(blockType, modlen - |inp| - 3, rnd), inp)
    ensures ok ==> out[modlen..] == old(out[modlen..])
    ensures !ok ==> forall k :: 2 <= k < out.Length ==> out[k] == old(out[k])
  {
    if modlen < 12 || modlen > outlen || |inp| > modlen - 11 {
      return false;
    }
    ghost var rest := out[modlen..];
    out[0] := 0;
    out[1] := blockType;
    var psLen := modlen - |inp| - 3;
    ok := WritePadding(blockType, out, psLen, rnd);
    if ok {
      ghost var ps := out[2..2 + psLen];
      out[2 + psLen] := 0;
      Fill(out, 3 + psLen, inp);
      assert out[..modlen] == [0, blockType] + ps + [0] + inp;
    }
  }

  /** The switch over the block type. */
  method WritePadding(blockType: Byte, out: array<Byte>, psLen: nat, rnd: seq<Byte>) returns (ok: bool)
    requires 2 + psLen <= out.Length && |rnd| == psLen
    modifies out
    ensures ok <==> blockType == 0 || blockType == 1 || blockType == 2
    ensures ok ==> out[2..2 + psLen] == Padding(blockType, psLen, rnd)
    ensures !ok ==> unchanged(out)
    ensures forall k :: 0 <= k < out.Length && !(2 <= k < 2 + psLen) ==> out[k] == old(out[k])
  {
    ok := true;
    if blockType == 0 {
      Fill(out, 2, seq(psLen, i => 0));
    } else if blockType == 1 {
      Fill(out, 2, seq(psLen, i => 0xff));
    } else if blockType == 2 {
      RandomPadding(out, 2, rnd);
    } else {
      ok := false;
    }
  }

  /** What pkcs1_encrypt delivers. */
  function Encrypted(k: Key, blockType: Byte, usePrivate: bool, d: seq<Byte>, room: nat, rnd: seq<Byte>): Option<seq<Byte>>
    requires BlockFits(2, ModLen(k), room, |d|) ==> |rnd| == ModLen(k) - |d| - 3
  {
    if !BlockFits(blockType, ModLen(k), room, |d|) then None
    else
      var eb := Block(blockType, Padding(blockType, ModLen(k) - |d| - 3, rnd), d);
      match RsaOutcome(k, BytesVal(eb), room, usePrivate)
      case Done(c) => Some(c)
      case _ => None
  }

  /** pkcs1_encrypt: the block is built in the output buffer and transformed in place. */
  method Encrypt(blockType: Byte, key: RsaKey, usePrivate: bool, inp: seq<Byte>, out: array<Byte>, outlen: nat,
                 rnd: seq<Byte>)
    returns (ok: bool, len: nat)
    requires key.Valid() && outlen <= out.Length
    requires BlockFits(2, ModLen(key.Values()), outlen, |inp|) ==> |rnd| == ModLen(key.Values()) - |inp| - 3
    modifies out
    ensures key.Valid() && key.Values() == old(key.Values())
    ensures var r := old(Encrypted(key.Values(), blockType, usePrivate, inp, outlen, rnd));
            && (ok <==> r.Some?)
            && (ok ==> len == ModLen(key.Values()) <= outlen && out[..len] == r.value && out[len..] == old(out[len..]))
  {
    hide RsaKey.Valid, RsaKey.Values, RsaOutcome, Padding, Block, BytesVal;
    ModulusOf(key);
    len := outlen;
    var modlen := BinIO.UnsignedBinSize(key.n);
    ok := GenerateEncryptionBlock(blockType, modlen, inp, out, outlen, rnd);
    if ok {
      OutcomeShape(key.Values(), BytesVal(out[..modlen]), outlen, usePrivate);
      ok, len := RsaExptMod(out, modlen, out, outlen, key, usePrivate);
    }
  }

  /** The two in-place unpaddings share their last step: data moves to the front of the buffer. */
  method MoveToFront(out: array<Byte>, pos: nat, len: nat)
    requires pos + len <= out.Length
    modifies out
    ensures out[..len] == old(out[pos..pos + len])
  {
    ghost var s := out[..];
    var i := 0;
    while i < len
      invariant 0 <= i <= len && forall k :: 0 <= k < i ==> out[k] == s[pos + k]
      invariant forall k :: i <= k < out.Length ==> out[k] == s[k]
    {
      out[i] := out[pos + i];
      i := i + 1;
    }
  }

  method ScanRun(out: array<Byte>, start: nat, end: nat, signed: bool) returns (pos: nat)
    requires start <= end <= out.Length
    ensures pos == RunEnd(out[..end], start, signed)
  {
    pos := start;
    while pos < end && Skipped(out[pos], signed)
      invariant start <= pos <= end && RunEnd(out[..end], start, signed) == RunEnd(out[..end], pos, signed)
    {
      pos := pos + 1;
    }
  }

  /** What the private decryption delivers. */
  function Decrypted(k: Key, c: nat, room: nat): Option<seq<Byte>>
  {
    match RsaOutcome(k, c, room, true)
    case Done(eb) => StripEncrypted(eb)
    case _ => None
  }

  /** What the public decryption delivers. */
  function Verified(k: Key, c: nat, room: nat): Option<seq<Byte>>
  {
    match RsaOutcome(k, c, room, false)
    case Done(eb) => StripSigned(eb)
    case _ => None
  }

  lemma OutcomeShape(k: Key, m: nat, room: nat, usePrivate: bool)
    ensures var o := RsaOutcome(k, m, room, usePrivate);
            o.Done? ==> |o.output| == ModLen(k) <= room
  {
  }

  /** pkcs1_v15_private_key_decrypt. */
  method PrivateKeyDecrypt(key: RsaKey, inp: array<Byte>, inlen: nat, out: array<Byte>, outlen: nat)
    returns (ok: bool, len: nat)
    requires key.Valid() && inlen <= inp.Length && outlen <= out.Length
    modifies out
    ensures key.Valid() && key.Values() == old(key.Values())
    ensures var r := old(Decrypted(key.Values(), BytesVal(inp[..inlen]), outlen));
            (ok <==> r.Some?) && (ok ==> len <= outlen && out[..len] == r.value)
  {
    hide RsaKey.Valid, RsaKey.Values, RsaOutcome, BytesVal, RunEnd, ModLen;
    OutcomeShape(key.Values(), BytesVal(inp[..inlen]), outlen, true);
    ok, len := RsaExptMod(inp, inlen, out, outlen, key, true);
    if !ok {
      return;
    }
    ghost var eb := out[..len];
    ok := false;
    if len < 2 || out[0] != 0 || out[1] != 2 {
      return;
    }
    var pos := ScanRun(out, 2, len, false);
    if pos == len {
      return;
    }
    if pos - 2 < 8 {
      return;
    }
    pos := pos + 1;
    assert out[pos..len] == eb[pos..];
    len := len - pos;
    MoveToFront(out, pos, len);
    ok := true;
  }

  /** pkcs1_decrypt_public_key. */
  method DecryptPublicKey(key: RsaKey, crypt: array<Byte>, cryptLen: nat, plain: array<Byte>, plainLen: nat)
    returns (ok: bool, len: nat)
    requires key.Valid() && cryptLen <= crypt.Length && plainLen <= plain.Length
    modifies plain
    ensures key.Valid() && key.Values() == old(key.Values())
    ensures var r := old(Verified(key.Values(), BytesVal(crypt[..cryptLen]), plainLen));
            && (ok <==> r.Some?) && (!ok ==> len == plainLen)
            && (ok ==> len <= plainLen && plain[..len] == r.value)
  {
    hide RsaKey.Valid, RsaKey.Values, RsaOutcome, BytesVal, RunEnd, ModLen;
    OutcomeShape(key.Values(), BytesVal(crypt[..cryptLen]), plainLen, false);
    var n;
    ok, n := RsaExptMod(crypt, cryptLen, plain, plainLen, key, false);
    len := plainLen;
    if !ok {
      return;
    }
    ghost var eb := plain[..n];
    ok := false;
    if n < 3 + 8 + 16 || plain[0] != 0 || plain[1] != 1 {
      return;
    }
    if plain[2] != 0xff {
      return;
    }
    var pos := ScanRun(plain, 3, n, true);
    if pos - 2 < 8 {
      return;
    }
    if pos + 16 >= n || plain[pos] != 0 {
      return;
    }
    pos := pos + 1;
    assert plain[pos..n] == eb[pos..];
    len := n - pos;
    MoveToFront(plain, pos, len);
    ok := true;
  }

  // ---------------------------------------------------------------- round trips through RSA

  /** A block starts with a zero octet, so as a number it is below the modulus. */
  lemma BlockBelowModulus(k: Key, eb: seq<Byte>)
    requires |eb| == ModLen(k) > 0 && eb[0] == 0
    ensures BytesVal(eb) < k.n
  {
    FirstByte(eb);
    assert 0 * Pow(256, |eb| - 1) == 0;
    BytesBelow(eb[1..]);
    ValBytesSize(k.n, |eb| - 1);
  }

  /** A block goes through both RSA operations unchanged, in either order. */
  lemma BlockThroughRsa(k: Key, eb: seq<Byte>, room: nat, usePrivate: bool)
    requires GoodKey(k) && |eb| == ModLen(k) <= room && |eb| > 0 && eb[0] == 0
    ensures RsaOutcome(k, BytesVal(eb), room, usePrivate).Done?
    ensures var c := RsaOutcome(k, BytesVal(eb), room, usePrivate).output;
            |c| == ModLen(k) && RsaOutcome(k, BytesVal(c), room, !usePrivate) == Done(eb)
  {
    hide GoodKey, RsaOutcome;
    BlockBelowModulus(k, eb);
    RoundTrip(k, BytesVal(eb), room, usePrivate);
    OutcomeShape(k, BytesVal(eb), room, usePrivate);
    ValFixed(eb);
  }

  /** Encryption with block type 2 succeeds for every message of up to modlen - 11 octets and for no
      longer one, and the private decryption returns the message. */
  lemma EncryptionRoundTrip(k: Key, d: seq<Byte>, room: nat, rnd: seq<Byte>)
    requires GoodKey(k) && 12 <= ModLen(k) <= room
    requires |d| <= ModLen(k) - 11 ==> |rnd| == ModLen(k) - |d| - 3
    ensures var c := Encrypted(k, 2, false, d, room, rnd);
            && (c.Some? <==> |d| <= ModLen(k) - 11)
            && (c.Some? ==> |c.value| == ModLen(k) && Decrypted(k, BytesVal(c.value), room) == Some(d))
  {
    hide GoodKey, RsaOutcome, StripEncrypted, BytesVal, ModLen;
    if |d| <= ModLen(k) - 11 {
      var ps := Padding(2, ModLen(k) - |d| - 3, rnd);
      var eb := Block(2, ps, d);
      BlockThroughRsa(k, eb, room, false);
      StripEncryptedIff(eb, d);
    }
  }

  /** What is encrypted or signed: whenever there is room for eleven octets besides the data, the other operation shows
      the block, with zeros, ones bits or the random octets (a one for each zero among them) as its padding. */
  lemma EncryptedIs(k: Key, blockType: Byte, usePrivate: bool, d: seq<Byte>, room: nat, rnd: seq<Byte>)
    requires GoodKey(k) && (|d| + 11 <= ModLen(k) ==> |rnd| == ModLen(k) - |d| - 3)
    ensures var c, n := Encrypted(k, blockType, usePrivate, d, room, rnd), ModLen(k) - |d| - 1;
            && (c.Some? <==> 12 <= ModLen(k) <= room && |d| + 11 <= ModLen(k) && blockType <= 2)
            && (c.Some? ==>
                  var o := RsaOutcome(k, BytesVal(c.value), room, !usePrivate);
                  && o.Done? && |o.output| == ModLen(k) && o.output[0] == 0 && o.output[1] == blockType
                  && (forall i :: 2 <= i < n ==>
                        o.output[i] == if blockType == 0 then 0 else if blockType == 1 then 0xff
                                       else if rnd[i - 2] == 0 then 1 else rnd[i - 2])
                  && o.output[n] == 0 && o.output[n + 1..] == d)
  {
    hide GoodKey, RsaOutcome, BytesVal, ModLen;
    if 12 <= ModLen(k) <= room && |d| + 11 <= ModLen(k) && blockType <= 2 {
      var ps := Padding(blockType, ModLen(k) - |d| - 3, rnd);
      BlockParts(blockType, ps, d);
      BlockThroughRsa(k, Block(blockType, ps, d), room, usePrivate);
    }
  }

  /** A signature block of type 1 comes back exactly when its data has at least 16 octets. */
  lemma SignatureRoundTrip(k: Key, d: seq<Byte>, room: nat, rnd: seq<Byte>)
    requires GoodKey(k) && 12 <= ModLen(k) <= room && |d| <= ModLen(k) - 11
    requires |rnd| == ModLen(k) - |d| - 3
    ensures var c := Encrypted(k, 1, true, d, room, rnd);
            && c.Some? && |c.value| == ModLen(k)
            && (Verified(k, BytesVal(c.value), room) == Some(d) <==> |d| >= 16)
            && (|d| < 16 ==> Verified(k, BytesVal(c.value), room) == None)
  {
    hide GoodKey, RsaOutcome, StripSigned, BytesVal, ModLen;
    var ps := Padding(1, ModLen(k) - |d| - 3, rnd);
    var eb := Block(1, ps, d);
    BlockThroughRsa(k, eb, room, true);
    StripSignedIff(eb, d);
    if |d| < 16 {
      ShortSignature(ps, d);
    }
  }

  lemma ShortSignature(ps: seq<Byte>, d: seq<Byte>)
    requires |d| < 16 && |ps| >= 8 && forall k :: 0 <= k < |ps| ==> ps[k] == 0xff
    ensures StripSigned(Block(1, ps, d)) == None
  {
    RunInBlock(1, ps, d, 3, true);
  }
}
