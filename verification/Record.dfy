/** The TLS record layer: framing, MAC, padding and encryption of a record, and their undoing, as functions
    of the connection state; tlsv1_record_send and tlsv1_record_receive compute them. */
module Record {
  import Arith
  import opened Bytes
  import opened Cipher
  import opened Options

  const HEADER_LEN: nat := 5
  const VERSION_1: nat := 0x0301
  const VERSION_1_1: nat := 0x0302
  const VERSION_1_2: nat := 0x0303

  const CT_CHANGE_CIPHER_SPEC: Byte := 20
  const CT_ALERT: Byte := 21
  const CT_HANDSHAKE: Byte := 22
  const CT_APPLICATION_DATA: Byte := 23

  const ALERT_UNEXPECTED_MESSAGE: Byte := 10
  const ALERT_BAD_RECORD_MAC: Byte := 20
  const ALERT_DECRYPTION_FAILED: Byte := 21
  const ALERT_RECORD_OVERFLOW: Byte := 22
  const ALERT_PROTOCOL_VERSION: Byte := 70
  const ALERT_INTERNAL_ERROR: Byte := 80

  datatype MacAlg = HmacMd5 | HmacSha1 | HmacSha256

  function MacLen(alg: MacAlg): (n: nat)
    ensures n <= 32
  {
    match alg
    case HmacMd5 => 16
    case HmacSha1 => 20
    case HmacSha256 => 32
  }

  /** The cryptographic primitives, as functions: block ciphers by key, and HMAC. */
  datatype Primitives = Primitives(
    aes: seq<Byte> -> Keyed, tripleDes: seq<Byte> -> Keyed, hmac: (MacAlg, seq<Byte>, seq<Byte>) -> seq<Byte>)
  {
    ghost predicate Sound()
    {
      && (forall k {:trigger aes(k)} :: |k| == 16 || |k| == 24 || |k| == 32 ==> aes(k).Invertible(16))
      && (forall k {:trigger tripleDes(k)} :: |k| == 24 ==> tripleDes(k).Invertible(8))
      && (forall a, k, m {:trigger hmac(a, k, m)} :: |hmac(a, k, m)| == MacLen(a))
    }
  }

  /** What both directions share. */
  datatype Params = Params(prim: Primitives, version: nat, ivSize: nat, macAlg: MacAlg)

  /** One direction of a connection: no cipher means the null cipher suite is active. */
  datatype Direction = Direction(cipher: Option<CipherState>, macKey: seq<Byte>, seqNum: seq<Byte>)

  ghost predicate ValidParams(p: Params)
  {
    p.prim.Sound() && VERSION_1 <= p.version <= VERSION_1_2
  }

  ghost predicate ValidDirection(p: Params, d: Direction)
  {
    && |d.seqNum| == 8
    && match d.cipher
       case None => true
       case Some(c) => c.Valid() && (if c.Stream? then p.ivSize == 0 else p.ivSize == c.block.size <= 16)
  }

  // ---------------------------------------------------------------- building a record

  function Header(ct: Byte, version: nat, len: nat): (h: seq<Byte>)
    ensures |h| == HEADER_LEN
  {
    [ct] + BE16(version) + BE16(len)
  }

  /** inc_byte_array: the next sequence number. */
  function Incremented(s: seq<Byte>): (r: seq<Byte>)
    ensures |r| == |s|
  {
    if s == [] then []
    else if s[|s| - 1] == 255 then Incremented(s[..|s| - 1]) + [0]
    else s[..|s| - 1] + [s[|s| - 1] + 1]
  }

  /** As a number it counts up, modulo the size of the counter. */
  lemma {:induction false} IncrementedCounts(s: seq<Byte>)
    ensures BytesVal(Incremented(s)) == (BytesVal(s) + 1) % Arith.Pow(256, |s|)
  {
    if s == [] {
      assert BytesVal(s) + 1 == 1;
    } else {
      var t := s[..|s| - 1];
      IncrementedCounts(t);
      BytesBelow(t);
      var p, v := Arith.Pow(256, |t|), BytesVal(t);
      Arith.PowStep(256, |s|);
      assert Incremented(s)[..|s| - 1] == if s[|s| - 1] == 255 then Incremented(t) else t;
      if s[|s| - 1] == 255 {
        if v + 1 < p {
          Arith.ModSmall(v + 1, p);
          Arith.ModSmall(256 * (v + 1), 256 * p);
        } else {
          Arith.DivModUnique(v + 1, p, 1, 0);
          Arith.DivModUnique(256 * p, 256 * p, 1, 0);
        }
      } else {
        Arith.ModSmall(BytesVal(s) + 1, 256 * p);
      }
    }
  }

  /** The MAC of a record: sequence number, header with the plaintext length, payload. */
  function Mac(p: Params, d: Direction, header: seq<Byte>, payload: seq<Byte>): seq<Byte>
  {
    p.prim.hmac(p.macAlg, d.macKey, d.seqNum + header + payload)
  }

  /** How many padding octets come before the length octet. */
  function PadLen(len: nat, block: nat): (pad: nat)
    requires block > 0
    ensures pad < block
  {
    var pad := (len + 1) % block;
    if pad > 0 then block - pad else 0
  }

  lemma Padded(len: nat, block: nat)
    requires block > 0
    ensures (len + PadLen(len, block) + 1) % block == 0
  {
    Arith.DivModEq(len + 1, block);
    var q := (len + 1) / block;
    if (len + 1) % block > 0 {
      assert len + PadLen(len, block) + 1 == (q + 1) * block;
      Arith.DivModUnique(len + PadLen(len, block) + 1, block, q + 1, 0);
    }
  }

  function Padding(pad: nat): (s: seq<Byte>)
    requires pad < 256
    ensures |s| == pad + 1 && forall k :: 0 <= k <= pad ==> s[k] == pad
  {
    seq(pad + 1, i => pad)
  }

  predicate ExplicitIv(p: Params)
  {
    p.ivSize > 0 && p.version >= VERSION_1_1
  }

  /** What is encrypted: explicit initialization vector, payload, MAC, padding. */
  ghost function Plain(p: Params, d: Direction, ct: Byte, payload: seq<Byte>, rnd: seq<Byte>): (s: seq<Byte>)
    requires p.ivSize <= 16
  {
    var iv := if ExplicitIv(p) then rnd else [];
    WithPadding(p.ivSize, iv + payload + Mac(p, d, Header(ct, p.version, |payload|), payload))
  }

  /** Block ciphers get padding to a whole number of blocks. */
  function WithPadding(block: nat, m: seq<Byte>): (s: seq<Byte>)
    requires block <= 16
  {
    if block > 0 then m + Padding(PadLen(|m|, block)) else m
  }

  ghost function Body(p: Params, d: Direction, ct: Byte, payload: seq<Byte>, rnd: seq<Byte>): (s: seq<Byte>)
    requires ValidDirection(p, d)
  {
    match d.cipher
    case None => payload
    case Some(c) =>
      var m := Plain(p, d, ct, payload, rnd);
      WholeRecord(p, d, ct, payload, rnd);
      c.Encrypted(m)
  }

  lemma WholeRecord(p: Params, d: Direction, ct: Byte, payload: seq<Byte>, rnd: seq<Byte>)
    requires ValidDirection(p, d) && d.cipher.Some?
    ensures d.cipher.value.Accepts(|Plain(p, d, ct, payload, rnd)|)
  {
    if p.ivSize > 0 {
      var iv := if ExplicitIv(p) then rnd else [];
      Padded(|iv + payload + Mac(p, d, Header(ct, p.version, |payload|), payload)|, p.ivSize);
    }
  }

  ghost function RecordOf(p: Params, d: Direction, ct: Byte, payload: seq<Byte>, rnd: seq<Byte>): seq<Byte>
    requires ValidDirection(p, d)
  {
    var body := Body(p, d, ct, payload, rnd);
    Header(ct, p.version, |body|) + body
  }

  /** The direction after one record with the given ciphertext side. */
  ghost function Stepped(p: Params, d: Direction, body: seq<Byte>): (r: Direction)
    requires ValidDirection(p, d)
    ensures ValidDirection(p, r)
  {
    var c := match d.cipher case None => None case Some(c) => Some(c.Advanced(body));
    Direction(c, d.macKey, Incremented(d.seqNum))
  }

  // ---------------------------------------------------------------- taking a record apart

  /** The data in front of valid padding; the padding's last octet says how long it is. */
  function Unpadded(m: seq<Byte>): Option<seq<Byte>>
  {
    if m == [] then None
    else
      var padlen := m[|m| - 1];
      if padlen >= |m| then None
      else if exists i :: |m| - padlen - 1 <= i < |m| - 1 && m[i] != padlen then None
      else Some(m[..|m| - padlen - 1])
  }

  /** The payload of a decrypted body whose MAC is right. */
  function Authentic(p: Params, d: Direction, type3: seq<Byte>, m: seq<Byte>): Option<seq<Byte>>
  {
    var n := MacLen(p.macAlg);
    if |m| < n then None
    else
      var payload := m[..|m| - n];
      if Mac(p, d, type3 + BE16(|payload|), payload) == m[|m| - n..] then Some(payload) else None
  }

  /** The decrypted body without explicit initialization vector and padding. */
  function Fragment(p: Params, m: seq<Byte>): Option<seq<Byte>>
  {
    if p.ivSize == 0 then Some(m)
    else if p.version < VERSION_1_1 then Unpadded(m)
    else if |m| < p.ivSize then None
    else Unpadded(m[p.ivSize..])
  }

  function Opened(p: Params, d: Direction, type3: seq<Byte>, m: seq<Byte>): Option<seq<Byte>>
  {
    match Fragment(p, m)
    case None => None
    case Some(u) => Authentic(p, d, type3, u)
  }

  datatype Received = NeedMore | Bad(alert: Byte) | Good(used: nat, ct: Byte, payload: seq<Byte>, next: Direction)

  predicate KnownType(ct: Byte)
  {
    CT_CHANGE_CIPHER_SPEC <= ct <= CT_APPLICATION_DATA
  }

  datatype Frame = Incomplete | Refused(alert: Byte) | Framed(rlen: nat)

  /** The checks on the header, in their order. */
  function Framing(input: seq<Byte>, room: nat): (f: Frame)
    ensures f.Framed? ==> HEADER_LEN + f.rlen <= |input| && f.rlen <= room
  {
    if |input| < HEADER_LEN then Incomplete
    else
      var rlen := GetBE16(input[3..5]);
      if input[1] != 3 then Refused(ALERT_PROTOCOL_VERSION)
      else if HEADER_LEN + rlen > 18432 then Refused(ALERT_RECORD_OVERFLOW)
      else if rlen > |input| - HEADER_LEN then Incomplete
      else if !KnownType(input[0]) then Refused(ALERT_UNEXPECTED_MESSAGE)
      else if room < rlen then Refused(ALERT_INTERNAL_ERROR)
      else Framed(rlen)
  }

  /** What one call of tlsv1_record_receive makes of its input. */
  ghost function Receipt(p: Params, d: Direction, input: seq<Byte>, room: nat): (r: Received)
    requires ValidDirection(p, d)
    ensures r.Good? ==> HEADER_LEN <= r.used <= |input| && ValidDirection(p, r.next)
  {
    match Framing(input, room)
    case Incomplete => NeedMore
    case Refused(alert) => Bad(alert)
    case Framed(rlen) =>
      var body := input[HEADER_LEN..HEADER_LEN + rlen];
      match d.cipher
      case None => Delivered(p, d, input[0], rlen, body, body)
      case Some(c) =>
        if !c.Accepts(rlen) then Bad(ALERT_DECRYPTION_FAILED)
        else
          match Opened(p, d, input[..3], c.Decrypted(body))
          case None => Bad(ALERT_BAD_RECORD_MAC)
          case Some(payload) => Delivered(p, d, input[0], rlen, payload, body)
  }

  ghost function Delivered(p: Params, d: Direction, ct: Byte, rlen: nat, payload: seq<Byte>, body: seq<Byte>): Received
    requires ValidDirection(p, d)
  {
    if HEADER_LEN + |payload| > 17408 then Bad(ALERT_RECORD_OVERFLOW)
    else Good(HEADER_LEN + rlen, ct, payload, Stepped(p, d, body))
  }

  // ---------------------------------------------------------------- round trips

  /** The reader's state matches the writer's; with explicit initialization vectors (TLS 1.1 and later) the
      CBC chaining values may differ. */
  ghost predicate Mirrored(p: Params, w: Direction, r: Direction)
  {
    && ValidDirection(p, w) && ValidDirection(p, r) && w.macKey == r.macKey && w.seqNum == r.seqNum
    && match (w.cipher, r.cipher)
       case (None, None) => true
       case (Some(a), Some(b)) => a == b || (a.Chained? && b.Chained? && a.block == b.block && ExplicitIv(p))
       case _ => false
  }

  /** Padding is taken off again. */
  lemma UnpadPadded(m: seq<Byte>, pad: nat)
    requires pad < 256
    ensures Unpadded(m + Padding(pad)) == Some(m)
  {
    var s := m + Padding(pad);
    assert s[..|m|] == m;
  }

  /** The reader finds the payload in what the writer encrypted, or in anything that differs from it in
      the explicit initialization vector only. */
  lemma OpensPlain(p: Params, w: Direction, ct: Byte, payload: seq<Byte>, rnd: seq<Byte>, m: seq<Byte>)
    requires ValidParams(p) && p.ivSize <= 16 && (ExplicitIv(p) ==> |rnd| == p.ivSize)
    requires var s := Plain(p, w, ct, payload, rnd);
             m == s || (ExplicitIv(p) && |m| == |s| && m[p.ivSize..] == s[p.ivSize..])
    ensures Opened(p, w, [ct] + BE16(p.version), m) == Some(payload)
  {
    hide Authentic, Unpadded, Mac;
    var mac := Mac(p, w, Header(ct, p.version, |payload|), payload);
    var tail := payload + mac;
    AuthenticTail(p, w, ct, payload);
    if p.ivSize > 0 {
      var iv := if ExplicitIv(p) then rnd else [];
      assert iv + payload + mac == iv + tail;
      var pad := PadLen(|iv + tail|, p.ivSize);
      UnpadPadded(tail, pad);
      assert (iv + tail + Padding(pad))[|iv|..] == tail + Padding(pad);
    } else {
      assert [] + payload + mac == tail;
    }
  }

  lemma AuthenticTail(p: Params, w: Direction, ct: Byte, payload: seq<Byte>)
    requires ValidParams(p)
    ensures Authentic(p, w, [ct] + BE16(p.version), payload + Mac(p, w, Header(ct, p.version, |payload|), payload))
         == Some(payload)
  {
    var mac := Mac(p, w, Header(ct, p.version, |payload|), payload);
    assert Header(ct, p.version, |payload|) == [ct] + BE16(p.version) + BE16(|payload|);
    var tail := payload + mac;
    assert tail[..|payload|] == payload && tail[|payload|..] == mac;
  }

  /** Decrypting what a mirrored writer encrypted recovers it, up to the explicit vector. */
  lemma DecryptsMirrored(p: Params, w: Direction, r: Direction, s: seq<Byte>)
    requires Mirrored(p, w, r) && w.cipher.Some? && w.cipher.value.Accepts(|s|) && (ExplicitIv(p) ==> |s| >= p.ivSize)
    ensures r.cipher.Some? && r.cipher.value.Accepts(|s|)
    ensures var m := r.cipher.value.Decrypted(w.cipher.value.Encrypted(s));
            m == s || (ExplicitIv(p) && |m| == |s| && m[p.ivSize..] == s[p.ivSize..])
  {
    var a, b := w.cipher.value, r.cipher.value;
    if a == b {
      DecryptsWhatWasEncrypted(a, s);
    } else {
      CbcResync(a.block, a.cbc, b.cbc, s);
    }
  }

  /** After the record both sides are in step, and now with equal chaining values. */
  lemma StaysMirrored(p: Params, w: Direction, r: Direction, body: seq<Byte>)
    requires Mirrored(p, w, r) && (w.cipher.Some? && w.cipher.value.Chained? ==> |body| >= p.ivSize)
    ensures Mirrored(p, Stepped(p, w, body), Stepped(p, r, body))
    ensures Stepped(p, w, body) == Stepped(p, r, body)
  {
  }

  lemma BodySize(p: Params, w: Direction, ct: Byte, payload: seq<Byte>, rnd: seq<Byte>)
    requires ValidParams(p) && ValidDirection(p, w) && (ExplicitIv(p) ==> |rnd| == p.ivSize)
    ensures |payload| <= |Body(p, w, ct, payload, rnd)| <= |payload| + 64
    ensures w.cipher.Some? ==>
              |Body(p, w, ct, payload, rnd)| == |Plain(p, w, ct, payload, rnd)| >= p.ivSize
  {
    if w.cipher.Some? {
      WholeRecord(p, w, ct, payload, rnd);
      var mac := Mac(p, w, Header(ct, p.version, |payload|), payload);
      var iv := if ExplicitIv(p) then rnd else [];
      if p.ivSize > 0 {
        var n := |iv + payload + mac|;
        Padded(n, p.ivSize);
        if n + PadLen(n, p.ivSize) + 1 < p.ivSize {
          Arith.ModSmall(n + PadLen(n, p.ivSize) + 1, p.ivSize);
        }
      }
    }
  }

  lemma HeaderFields(ct: Byte, version: nat, body: seq<Byte>, rest: seq<Byte>)
    requires VERSION_1 <= version <= VERSION_1_2 && |body| < 65536
    ensures var input := Header(ct, version, |body|) + body + rest;
            && input[0] == ct && input[1] == 3 && input[..3] == [ct] + BE16(version)
            && GetBE16(input[3..5]) == |body| && input[HEADER_LEN..HEADER_LEN + |body|] == body
  {
    BE16RoundTrip(|body|);
    var input := Header(ct, version, |body|) + body + rest;
    assert input[3..5] == BE16(|body|);
  }

  /** What is opened depends on the direction through MAC key and sequence number only. */
  lemma OpensAlike(p: Params, w: Direction, r: Direction, type3: seq<Byte>, m: seq<Byte>)
    requires w.macKey == r.macKey && w.seqNum == r.seqNum
    ensures Opened(p, w, type3, m) == Opened(p, r, type3, m)
  {
  }

  lemma AuthenticAlike(p: Params, w: Direction, r: Direction, type3: seq<Byte>, m: seq<Byte>)
    requires w.macKey == r.macKey && w.seqNum == r.seqNum
    ensures Authentic(p, w, type3, m) == Authentic(p, r, type3, m)
  {
  }

  /** The body of a mirrored writer's record opens to its payload. */
  lemma BodyOpens(p: Params, w: Direction, r: Direction, ct: Byte, payload: seq<Byte>, rnd: seq<Byte>)
    requires ValidParams(p) && Mirrored(p, w, r) && w.cipher.Some? && (ExplicitIv(p) ==> |rnd| == p.ivSize)
    ensures r.cipher.Some? && ValidDirection(p, r)
    ensures var body := Body(p, w, ct, payload, rnd);
            r.cipher.value.Accepts(|body|)
              && Opened(p, r, [ct] + BE16(p.version), r.cipher.value.Decrypted(body)) == Some(payload)
  {
    hide Opened, Plain;
    BodySize(p, w, ct, payload, rnd);
    WholeRecord(p, w, ct, payload, rnd);
    var s := Plain(p, w, ct, payload, rnd);
    DecryptsMirrored(p, w, r, s);
    var m := r.cipher.value.Decrypted(w.cipher.value.Encrypted(s));
    OpensPlain(p, w, ct, payload, rnd, m);
    OpensAlike(p, w, r, [ct] + BE16(p.version), m);
  }

  /** A record sent is received, whatever follows it in the input: exactly when its payload has at most
      17403 octets (the protocol allows 2^14). */
  lemma RecordRoundTrip(p: Params, w: Direction, r: Direction, ct: Byte, payload: seq<Byte>, rnd: seq<Byte>,
                        rest: seq<Byte>, room: nat)
    requires ValidParams(p) && Mirrored(p, w, r) && KnownType(ct) && (ExplicitIv(p) ==> |rnd| == p.ivSize)
    requires |Body(p, w, ct, payload, rnd)| < 65536 && |Body(p, w, ct, payload, rnd)| <= room
    ensures var body := Body(p, w, ct, payload, rnd);
            var o := Receipt(p, r, RecordOf(p, w, ct, payload, rnd) + rest, room);
            && (|payload| <= 17403 ==>
                  o == Good(HEADER_LEN + |body|, ct, payload, Stepped(p, w, body)) && Mirrored(p, Stepped(p, w, body), o.next))
            && (|payload| > 17403 ==> o == Bad(ALERT_RECORD_OVERFLOW))
  {
    hide Opened, Plain, Body, Stepped;
    var body := Body(p, w, ct, payload, rnd);
    BodySize(p, w, ct, payload, rnd);
    HeaderFields(ct, p.version, body, rest);
    StaysMirrored(p, w, r, body);
    if w.cipher.Some? {
      BodyOpens(p, w, r, ct, payload, rnd);
    } else {
      NullBody(p, w, ct, payload, rnd);
    }
  }

  lemma NullBody(p: Params, w: Direction, ct: Byte, payload: seq<Byte>, rnd: seq<Byte>)
    requires ValidDirection(p, w) && w.cipher.None?
    ensures Body(p, w, ct, payload, rnd) == payload
  {
  }

  /** In the clear the two ends need not agree on anything. */
  lemma ClearRecord(p: Params, r: Direction, q: Params, w: Direction, ct: Byte, payload: seq<Byte>, rnd: seq<Byte>)
    requires ValidDirection(p, r) && ValidDirection(q, w) && r.cipher.None? && w.cipher.None?
    requires VERSION_1 <= q.version <= VERSION_1_2 && KnownType(ct) && |payload| <= 17403
    ensures var record := RecordOf(q, w, ct, payload, rnd);
            Receipt(p, r, record, |record|) == Good(|record|, ct, payload, Stepped(p, r, payload))
  {
    hide ValidDirection, Stepped;
    NullBody(q, w, ct, payload, rnd);
    HeaderFields(ct, q.version, payload, []);
    var record := RecordOf(q, w, ct, payload, rnd);
    assert record + [] == record;
  }

  // ---------------------------------------------------------------- records written out

  /** A record as it goes out: type, version, length, and the payload, or what the cipher makes of initialization
      vector, payload, MAC and padding. The padding is the shortest that leaves whole blocks, each octet of it one less
      than their number. */
  lemma RecordIs(p: Params, d: Direction, ct: Byte, payload: seq<Byte>, rnd: seq<Byte>) returns (padding: seq<Byte>)
    requires ValidParams(p) && ValidDirection(p, d) && |rnd| == p.ivSize
    ensures var r := RecordOf(p, d, ct, payload, rnd);
            && |r| >= 5 && r[0] == ct && BytesVal(r[1..3]) == p.version && BytesVal(r[3..5]) == (|r| - 5) % 0x1_0000
    ensures d.cipher.Some? ==>
              if p.ivSize == 0 then padding == []
              else 1 <= |padding| <= p.ivSize && forall k :: 0 <= k < |padding| ==> padding[k] == |padding| - 1
    ensures d.cipher.None? ==> RecordOf(p, d, ct, payload, rnd)[5..] == payload
    ensures d.cipher.Some? ==>
              var iv := if p.ivSize > 0 && p.version >= 0x0302 then rnd else [];
              var mac := p.prim.hmac(p.macAlg, d.macKey, d.seqNum + [ct] + BE16(p.version) + BE16(|payload|) + payload);
              && d.cipher.value.Accepts(|iv + payload + mac + padding|)
              && RecordOf(p, d, ct, payload, rnd)[5..] == d.cipher.value.Encrypted(iv + payload + mac + padding)
  {
    hide Primitives.Sound, Keyed.Invertible, CipherState.Encrypted, CipherState.Accepts, CipherState.Valid, BytesVal, BE16;
    var body := Body(p, d, ct, payload, rnd);
    var r := RecordOf(p, d, ct, payload, rnd);
    HeaderIs(ct, p.version, |body|, body);
    assert r[5..] == body;
    padding := [];
    var iv := if p.ivSize > 0 && p.version >= 0x0302 then rnd else [];
    var header := Header(ct, p.version, |payload|);
    var mac := Mac(p, d, header, payload);
    assert d.seqNum + [ct] + BE16(p.version) + BE16(|payload|) + payload == d.seqNum + header + payload;
    if d.cipher.Some? {
      if p.ivSize > 0 {
        padding := Padding(PadLen(|iv + payload + mac|, p.ivSize));
      } else {
        assert iv + payload + mac + [] == iv + payload + mac;
      }
      WholeRecord(p, d, ct, payload, rnd);
      assert Plain(p, d, ct, payload, rnd) == iv + payload + mac + padding;
    }
  }

  lemma HeaderIs(ct: Byte, version: nat, len: nat, body: seq<Byte>)
    requires VERSION_1 <= version <= VERSION_1_2
    ensures var r := Header(ct, version, len) + body;
            r[0] == ct && BytesVal(r[1..3]) == version && BytesVal(r[3..5]) == len % 0x1_0000
  {
    hide BytesVal;
    FieldsWritten(version);
    FieldsWritten(len);
    var r := Header(ct, version, len) + body;
    assert r[1..3] == BE16(version) && r[3..5] == BE16(len);
  }

  /** The header decides first: an incomplete record waits, and a wrong version, a length above 2^14 + 2048, an unknown
      type and too little room are refused, in this order. */
  lemma HeaderRefused(p: Params, d: Direction, input: seq<Byte>, room: nat)
    requires ValidDirection(p, d)
    ensures |input| < 5 ==> Receipt(p, d, input, room) == NeedMore
    ensures |input| >= 5 ==>
              var o, n := Receipt(p, d, input, room), BytesVal(input[3..5]);
              && (input[1] != 3 ==> o == Bad(70))
              && (input[1] == 3 && 5 + n > 18432 ==> o == Bad(22))
              && (input[1] == 3 && 5 + n <= 18432 && |input| < 5 + n ==> o == NeedMore)
              && (input[1] == 3 && 5 + n <= 18432 && |input| >= 5 + n ==>
                    && o != NeedMore
                    && (input[0] !in {20, 21, 22, 23} ==> o == Bad(10))
                    && (input[0] in {20, 21, 22, 23} && room < n ==> o == Bad(80)))
  {
    hide Opened, ValidDirection, BytesVal, GetBE16;
    if |input| >= 5 {
      FieldsRead(input[3..5]);
      assert input[3..5][..2] == input[3..5];
    }
  }

  /** In the clear, the body is the payload, and the sequence number counts. */
  lemma ClearIs(p: Params, d: Direction, input: seq<Byte>, room: nat)
    requires ValidDirection(p, d) && d.cipher.None? && |input| >= 5 && input[1] == 3 && input[0] in {20, 21, 22, 23}
    requires 5 + BytesVal(input[3..5]) <= 18432 && 5 + BytesVal(input[3..5]) <= |input| && BytesVal(input[3..5]) <= room
    ensures var o, n := Receipt(p, d, input, room), BytesVal(input[3..5]);
            if 5 + n > 17408 then o == Bad(22)
            else && o.Good? && o.used == 5 + n && o.ct == input[0] && o.payload == input[5..5 + n]
                 && o.next.cipher == None && o.next.macKey == d.macKey && |o.next.seqNum| == 8
                 && BytesVal(o.next.seqNum) == (BytesVal(d.seqNum) + 1) % 0x1_0000_0000_0000_0000
  {
    hide Opened, BytesVal, GetBE16;
    FieldsRead(input[3..5]);
    assert input[3..5][..2] == input[3..5];
    NextNumber(d.seqNum);
  }

  lemma NextNumber(s: seq<Byte>)
    requires |s| == 8
    ensures BytesVal(Incremented(s)) == (BytesVal(s) + 1) % 0x1_0000_0000_0000_0000
  {
    hide BytesVal, Incremented;
    IncrementedCounts(s);
    assert Arith.Pow(256, 1) == 256;
    assert Arith.Pow(256, 2) == 0x1_0000;
    Arith.PowAdd(256, 2, 2);
    Arith.PowAdd(256, 4, 4);
  }

  /** With a cipher, a complete record of acceptable length is refused for its size alone (decryption_failed), */
  lemma CipherRefuses(p: Params, d: Direction, input: seq<Byte>, room: nat)
    requires ValidDirection(p, d) && d.cipher.Some? && |input| >= 5 && input[1] == 3 && input[0] in {20, 21, 22, 23}
    requires 5 + BytesVal(input[3..5]) <= 18432 && 5 + BytesVal(input[3..5]) <= |input| && BytesVal(input[3..5]) <= room
    ensures Receipt(p, d, input, room) == Bad(21) <==> !d.cipher.value.Accepts(BytesVal(input[3..5]))
  {
    hide Opened, BytesVal, GetBE16, CipherState.Accepts, CipherState.Decrypted, CipherState.Valid;
    FieldsRead(input[3..5]);
    assert input[3..5][..2] == input[3..5];
  }

  /** or it is what its decrypted body says: initialization vector, payload, the MAC of sequence number, header and
      payload, and padding. Then the payload is delivered unless it is above 2^14 + 1019 octets, */
  lemma AuthenticAccepted(p: Params, d: Direction, input: seq<Byte>, room: nat, iv: seq<Byte>, payload: seq<Byte>,
                          padding: seq<Byte>)
    requires ValidParams(p) && ValidDirection(p, d) && d.cipher.Some?
    requires |input| >= 5 && input[1] == 3 && input[0] in {20, 21, 22, 23}
    requires 5 + BytesVal(input[3..5]) <= 18432 && 5 + BytesVal(input[3..5]) <= |input| && BytesVal(input[3..5]) <= room
    requires d.cipher.value.Accepts(BytesVal(input[3..5]))
    requires |iv| == if p.version >= 0x0302 then p.ivSize else 0
    requires if p.ivSize == 0 then padding == []
             else padding != [] && forall k :: 0 <= k < |padding| ==> padding[k] == |padding| - 1
    requires d.cipher.value.Decrypted(input[5..5 + BytesVal(input[3..5])])
          == iv + payload + p.prim.hmac(p.macAlg, d.macKey, d.seqNum + input[..3] + BE16(|payload|) + payload) + padding
    ensures var o, n := Receipt(p, d, input, room), BytesVal(input[3..5]);
            if 5 + |payload| > 17408 then o == Bad(22)
            else && o.Good? && o.used == 5 + n && o.ct == input[0] && o.payload == payload
                 && o.next.cipher == Some(d.cipher.value.Advanced(input[5..5 + n])) && o.next.macKey == d.macKey
                 && |o.next.seqNum| == 8
                 && BytesVal(o.next.seqNum) == (BytesVal(d.seqNum) + 1) % 0x1_0000_0000_0000_0000
  {
    hide Opened, BytesVal, GetBE16, BE16, CipherState.Accepts, CipherState.Decrypted, CipherState.Valid, CipherState.Advanced;
    FieldsRead(input[3..5]);
    assert input[3..5][..2] == input[3..5];
    NextNumber(d.seqNum);
    OpensAuthentic(p, d, input[..3], iv, payload, padding);
  }

  lemma OpensAuthentic(p: Params, d: Direction, type3: seq<Byte>, iv: seq<Byte>, payload: seq<Byte>, padding: seq<Byte>)
    requires ValidParams(p) && |iv| == if p.version >= 0x0302 then p.ivSize else 0
    requires if p.ivSize == 0 then padding == []
             else padding != [] && forall k :: 0 <= k < |padding| ==> padding[k] == |padding| - 1
    ensures Opened(p, d, type3,
              iv + payload + p.prim.hmac(p.macAlg, d.macKey, d.seqNum + type3 + BE16(|payload|) + payload) + padding)
         == Some(payload)
  {
    hide BE16, Authentic, Unpadded;
    var mac := p.prim.hmac(p.macAlg, d.macKey, d.seqNum + type3 + BE16(|payload|) + payload);
    var m := iv + payload + mac + padding;
    var u := payload + mac;
    assert u[..|payload|] == payload && u[|payload|..] == mac;
    AuthenticIs(p, d, type3, u, payload);
    assert m[|iv|..] == u + padding;
    if p.ivSize == 0 {
      assert m == u;
    } else {
      UnpaddedIs(u, padding);
      assert m[0..] == m;
    }
  }

  lemma UnpaddedIs(u: seq<Byte>, padding: seq<Byte>)
    requires padding != [] && forall k :: 0 <= k < |padding| ==> padding[k] == |padding| - 1
    ensures Unpadded(u + padding) == Some(u)
  {
    var m := u + padding;
    assert m[|m| - 1] == padding[|padding| - 1];
    assert m[..|u|] == u;
  }

  lemma AuthenticIs(p: Params, d: Direction, type3: seq<Byte>, u: seq<Byte>, payload: seq<Byte>)
    requires ValidParams(p)
    ensures Authentic(p, d, type3, u) == Some(payload)
       <==> u == payload + p.prim.hmac(p.macAlg, d.macKey, d.seqNum + type3 + BE16(|payload|) + payload)
  {
    hide BE16;
    var mac := p.prim.hmac(p.macAlg, d.macKey, d.seqNum + type3 + BE16(|payload|) + payload);
    assert d.seqNum + type3 + BE16(|payload|) + payload == d.seqNum + (type3 + BE16(|payload|)) + payload;
    if u == payload + mac {
      assert u[..|payload|] == payload && u[|payload|..] == mac;
    }
    if Authentic(p, d, type3, u) == Some(payload) {
      assert u == u[..|payload|] + u[|payload|..];
    }
  }

  /** and without these parts it is refused with bad_record_mac: whatever else comes out was authentic. */
  lemma OnlyAuthentic(p: Params, d: Direction, input: seq<Byte>, room: nat)
    returns (iv: seq<Byte>, payload: seq<Byte>, padding: seq<Byte>)
    requires ValidParams(p) && ValidDirection(p, d) && d.cipher.Some?
    requires |input| >= 5 && input[1] == 3 && input[0] in {20, 21, 22, 23}
    requires 5 + BytesVal(input[3..5]) <= 18432 && 5 + BytesVal(input[3..5]) <= |input| && BytesVal(input[3..5]) <= room
    requires d.cipher.value.Accepts(BytesVal(input[3..5])) && Receipt(p, d, input, room) != Bad(20)
    ensures |iv| == if p.version >= 0x0302 then p.ivSize else 0
    ensures if p.ivSize == 0 then padding == []
            else padding != [] && forall k :: 0 <= k < |padding| ==> padding[k] == |padding| - 1
    ensures d.cipher.value.Decrypted(input[5..5 + BytesVal(input[3..5])])
         == iv + payload + p.prim.hmac(p.macAlg, d.macKey, d.seqNum + input[..3] + BE16(|payload|) + payload) + padding
  {
    hide Opened, BytesVal, GetBE16, BE16, CipherState.Accepts, CipherState.Decrypted, CipherState.Valid, CipherState.Advanced;
    FieldsRead(input[3..5]);
    assert input[3..5][..2] == input[3..5];
    iv, payload, padding := PartsOf(p, d, input[..3], d.cipher.value.Decrypted(input[5..5 + BytesVal(input[3..5])]));
  }

  lemma PartsOf(p: Params, d: Direction, type3: seq<Byte>, m: seq<Byte>)
    returns (iv: seq<Byte>, payload: seq<Byte>, padding: seq<Byte>)
    requires ValidParams(p) && Opened(p, d, type3, m).Some?
    ensures Opened(p, d, type3, m) == Some(payload)
    ensures |iv| == if p.version >= 0x0302 then p.ivSize else 0
    ensures if p.ivSize == 0 then padding == []
            else padding != [] && forall k :: 0 <= k < |padding| ==> padding[k] == |padding| - 1
    ensures m == iv + payload + p.prim.hmac(p.macAlg, d.macKey, d.seqNum + type3 + BE16(|payload|) + payload) + padding
  {
    hide BE16, Authentic, Unpadded;
    var u := Fragment(p, m).value;
    payload := Authentic(p, d, type3, u).value;
    AuthenticIs(p, d, type3, u, payload);
    var k := if p.version >= 0x0302 then p.ivSize else 0;
    assert m[0..] == m;
    if p.ivSize > 0 {
      UnpaddedParts(m[k..], u);
    }
    iv, padding := m[..k], m[k + |u|..];
    assert m == m[..k] + u + m[k + |u|..];
  }

  /** So what is delivered under a cipher was in the decrypted body, with its MAC behind it and right padding to the end. */
  lemma DeliveredIs(p: Params, d: Direction, input: seq<Byte>, room: nat)
    requires ValidParams(p) && ValidDirection(p, d) && d.cipher.Some? && Receipt(p, d, input, room).Good?
    ensures 5 <= Receipt(p, d, input, room).used <= |input|
    ensures d.cipher.value.Accepts(Receipt(p, d, input, room).used - 5)
    ensures var o := Receipt(p, d, input, room);
            var m := d.cipher.value.Decrypted(input[5..o.used]);
            var mac := p.prim.hmac(p.macAlg, d.macKey, d.seqNum + input[..3] + BE16(|o.payload|) + o.payload);
            var start := if p.version >= 0x0302 then p.ivSize else 0;
            var end := start + |o.payload| + |mac|;
            && end <= |m| && m[start..end] == o.payload + mac
            && if p.ivSize == 0 then end == |m| else end < |m| && forall k :: end <= k < |m| ==> m[k] == |m| - end - 1
  {
    hide Opened, GetBE16, BE16, CipherState.Accepts, CipherState.Decrypted, CipherState.Valid, CipherState.Advanced;
    var o := Receipt(p, d, input, room);
    var m := d.cipher.value.Decrypted(input[5..o.used]);
    var iv, payload, padding := PartsOf(p, d, input[..3], m);
    var mac := p.prim.hmac(p.macAlg, d.macKey, d.seqNum + input[..3] + BE16(|payload|) + payload);
    assert iv + payload + mac + padding == iv + (payload + mac) + padding;
  }

  lemma UnpaddedParts(m: seq<Byte>, u: seq<Byte>)
    requires Unpadded(m) == Some(u)
    ensures |u| < |m| && m[..|u|] == u && forall k :: |u| <= k < |m| ==> m[k] == |m| - |u| - 1
  {
  }
}
