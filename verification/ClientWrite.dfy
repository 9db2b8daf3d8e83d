/** The messages the TLS client sends. */
module ClientWrite {
  import Arith
  import Cipher
  import opened Bytes
  import opened DhParameters
  import opened Options
  import opened Record
  import opened RecordLayers
  import opened TlsClients
  import opened TlsLog

  const HS_CERTIFICATE: Byte := 11
  const HS_CERTIFICATE_VERIFY: Byte := 15
  const HS_CLIENT_KEY_EXCHANGE: Byte := 16

  /** A handshake message: type, 24-bit length, body. */
  function Message(kind: Byte, body: seq<Byte>): (m: seq<Byte>)
    ensures |m| == |body| + 4 && m[0] == kind
  {
    [kind] + BE24(|body|) + body
  }

  function Suites(s: seq<nat>): (r: seq<Byte>)
    ensures |r| == 2 * |s|
  {
    if s == [] then [] else BE16(s[0]) + Suites(s[1..])
  }

  /** The ClientHello body; the OCSP extensions are left out. */
  function HelloBody(version: nat, rlVersion: nat, random: seq<Byte>, sessionId: seq<Byte>, suites: seq<nat>, ext: seq<Byte>):
    seq<Byte>
  {
    var maxFragment: seq<Byte> := BE16(1) + BE16(1) + [4];
    var sigAlgs: seq<Byte> :=
      if rlVersion >= VERSION_1_2 then BE16(13) + BE16(8) + BE16(6) + [6, 1, 5, 1, 4, 1] else [];
    var exts := maxFragment + sigAlgs + ext;
    BE16(version) + random + [|sessionId| % 256] + sessionId + BE16(2 * |suites|) + Suites(suites) + [1, 0]
    + BE16(|exts|) + exts
  }

  lemma MessageIs(kind: Byte, body: seq<Byte>)
    ensures var m := Message(kind, body);
            m[0] == kind && BytesVal(m[1..4]) == |body| % 0x100_0000 && m[4..] == body
  {
    hide BytesVal;
    FieldsWritten(|body|);
    assert Message(kind, body)[1..4] == BE24(|body|);
  }

  lemma {:induction false} SuitesAt(s: seq<nat>, i: nat)
    requires i < |s|
    ensures BytesVal(Suites(s)[2 * i..2 * i + 2]) == s[i] % 0x1_0000
  {
    hide BytesVal, BE16;
    if i == 0 {
      FieldsWritten(s[0]);
      assert Suites(s)[0..2] == BE16(s[0]);
    } else {
      SuitesAt(s[1..], i - 1);
      assert Suites(s)[2 * i..2 * i + 2] == Suites(s[1..])[2 * (i - 1)..2 * (i - 1) + 2];
    }
  }

  /** The ClientHello field by field: version, random, session identifier, suites, the null compression method, and one
      block of extensions: fragments of 2^12 octets, the signature algorithms if TLS 1.2 is on, and the caller's. */
  lemma HelloIs(version: nat, rlVersion: nat, random: seq<Byte>, id: seq<Byte>, suites: seq<nat>, ext: seq<Byte>)
    requires |random| == 32 && |id| <= 32
    ensures var b := HelloBody(version, rlVersion, random, id, suites, ext);
            var p, q := 35 + |id|, 35 + |id| + 2 * |suites|;
            && |b| >= q + 6 && BytesVal(b[..2]) == version % 0x1_0000 && b[2..34] == random
            && b[34] == |id| && b[35..p] == id && BytesVal(b[p..p + 2]) == 2 * |suites| % 0x1_0000
            && (forall i {:trigger suites[i]} :: 0 <= i < |suites| ==>
                  BytesVal(b[p + 2 + 2 * i..p + 4 + 2 * i]) == suites[i] % 0x1_0000)
            && b[q + 2..q + 4] == [1, 0] && BytesVal(b[q + 4..q + 6]) == (|b| - q - 6) % 0x1_0000
            && b[q + 6..] == [0, 1, 0, 1, 4]
                             + (if rlVersion >= 0x0303 then [0, 13, 0, 8, 0, 6, 6, 1, 5, 1, 4, 1] else []) + ext
  {
    hide BytesVal, HelloBody, Suites, BE16;
    var exts := [0, 1, 0, 1, 4] + (if rlVersion >= 0x0303 then [0, 13, 0, 8, 0, 6, 6, 1, 5, 1, 4, 1] else []) + ext;
    var s := Suites(suites);
    HelloParts(version, rlVersion, random, id, suites, ext, exts);
    FieldsWritten(version);
    FieldsWritten(2 * |suites|);
    FieldsWritten(|exts|);
    var b, p := HelloBody(version, rlVersion, random, id, suites, ext), 35 + |id|;
    forall i {:trigger suites[i]} | 0 <= i < |suites|
      ensures BytesVal(b[p + 2 + 2 * i..p + 4 + 2 * i]) == suites[i] % 0x1_0000
    {
      SuitesAt(suites, i);
      PairAt(b, p + 2, s, 2 * i);
    }
  }

  lemma PairAt(b: seq<Byte>, p: nat, s: seq<Byte>, i: nat)
    requires p + |s| <= |b| && b[p..p + |s|] == s && i + 2 <= |s|
    ensures b[p + i..p + 2 + i] == s[i..i + 2]
  {
    assert b[p..p + |s|][i] == b[p + i] && b[p..p + |s|][i + 1] == b[p + i + 1];
  }

  lemma HelloParts(version: nat, rlVersion: nat, random: seq<Byte>, id: seq<Byte>, suites: seq<nat>, ext: seq<Byte>,
                   exts: seq<Byte>)
    requires |random| == 32 && |id| <= 32
    requires exts == [0, 1, 0, 1, 4] + (if rlVersion >= 0x0303 then [0, 13, 0, 8, 0, 6, 6, 1, 5, 1, 4, 1] else []) + ext
    ensures var b := HelloBody(version, rlVersion, random, id, suites, ext);
            var p, q := 35 + |id|, 35 + |id| + 2 * |suites|;
            && |b| == q + 6 + |exts| && b[..2] == BE16(version) && b[2..34] == random && b[34] == |id| && b[35..p] == id
            && b[p..p + 2] == BE16(2 * |suites|) && b[p + 2..q + 2] == Suites(suites) && b[q + 2..q + 4] == [1, 0]
            && b[q + 4..q + 6] == BE16(|exts|) && b[q + 6..] == exts
  {
    hide Suites, BE16;
    HelloLiterals();
    HelloSlices(BE16(version), random, [|id|], id, BE16(2 * |suites|), Suites(suites), [1, 0], BE16(|exts|), exts);
  }

  lemma HelloLiterals()
    ensures BE16(1) + BE16(1) + [4] == [0, 1, 0, 1, 4]
    ensures BE16(13) + BE16(8) + BE16(6) + [6, 1, 5, 1, 4, 1] == [0, 13, 0, 8, 0, 6, 6, 1, 5, 1, 4, 1]
  {
  }

  lemma HelloSlices(v: seq<Byte>, r: seq<Byte>, l: seq<Byte>, id: seq<Byte>, n: seq<Byte>, s: seq<Byte>, z: seq<Byte>,
                    m: seq<Byte>, exts: seq<Byte>)
    requires |v| == |n| == |z| == |m| == 2 && |r| == 32 && |l| == 1
    ensures var b, p, q := v + r + l + id + n + s + z + m + exts, 35 + |id|, 35 + |id| + |s|;
            && |b| == q + 6 + |exts| && b[..2] == v && b[2..34] == r && b[34] == l[0] && b[35..p] == id
            && b[p..p + 2] == n && b[p + 2..q + 2] == s && b[q + 2..q + 4] == z && b[q + 4..q + 6] == m && b[q + 6..] == exts
  {
  }

  /** The ClientHello joins the transcript and goes out. */
  method AddHello(conn: TlsClient, hello: seq<Byte>, room: nat, o: Oracle) returns (ok: bool, record: seq<Byte>)
    requires conn.Inv() && o.Sound() && conn.state == State.ClientHello && |hello| > 0 && hello[0] == HS_CLIENT_HELLO
    modifies conn`alertLevel, conn`alertDescription, conn`log, conn.rl`writeSeqNum, conn.rl.writeCbc, conn.verify
    ensures conn.Wf() && (ok <==> HEADER_LEN + |hello| <= room)
    ensures conn.log == if ok then old(conn.log) + [Sent(CT_HANDSHAKE, hello)] else old(conn.log)
    ensures conn.alertLevel == if ok then old(conn.alertLevel) else ALERT_LEVEL_FATAL
    ensures conn.alertLevel == 0 ==> conn.History()
  {
    hide Env.Sound, TlsClient.LayerReady, Legal, Count, Transcript, Vouched, Started, OnlyData, VerifyHash.Holds,
         TlsClient.Inv, VerifyHash.Live, Oracle.Sound, VerifyHash.Paired, Added, VerifyHash.ClientDone, Seen, TlsClient.Wf;
    BeforeHello(conn);
    FirstEvent(conn.env.hashing, conn.rl.tlsVersion, conn.masterSecret, conn.log, Sent(CT_HANDSHAKE, hello));
    StillVouched(conn, Sent(CT_HANDSHAKE, hello));
    WfParts(conn);
    conn.verify.Add(hello, []);
    WfParts(conn);
    ok, record := SendClear(conn, hello, room, o, 1);
  }

  /** The ClientHello goes out and opens the transcript. */
  method SendHello(conn: TlsClient, hello: seq<Byte>, room: nat, o: Oracle) returns (ok: bool, record: seq<Byte>)
    requires conn.Inv() && o.Sound() && conn.state == State.ClientHello && |hello| > 0 && hello[0] == HS_CLIENT_HELLO
    modifies conn`state, conn`alertLevel, conn`alertDescription, conn`log, conn`inherited
    modifies conn.rl`writeSeqNum, conn.rl.writeCbc, conn.verify
    ensures conn.Inv()
    ensures if ok then conn.state == State.ServerHello && conn.alertLevel == old(conn.alertLevel)
                       && conn.log == old(conn.log) + [Sent(CT_HANDSHAKE, hello)] && conn.inherited == conn.dh
            else conn.state == State.ClientHello && conn.alertLevel != 0
    ensures ok <==> HEADER_LEN + |hello| <= room
  {
    hide TlsClient.Inv, TlsClient.Wf, TlsClient.History, Count, Transcript, Started, OnlyData, Oracle.Sound;
    BeforeHello(conn);
    FirstEvent(conn.env.hashing, conn.rl.tlsVersion, conn.masterSecret, conn.log, Sent(CT_HANDSHAKE, hello));
    ok, record := AddHello(conn, hello, room, o);
    if ok {
      conn.state := State.ServerHello;
      conn.inherited := conn.dh;
    }
    HelloInv(conn);
  }

  /** The room that is reserved for it is always enough for a ClientHello. */
  lemma HelloSize(version: nat, rlVersion: nat, random: seq<Byte>, sessionId: seq<Byte>, suites: seq<nat>, ext: seq<Byte>)
    requires |random| == 32 && |sessionId| <= 32
    ensures HEADER_LEN + 4 + |HelloBody(version, rlVersion, random, sessionId, suites, ext)| <= 150 + |suites| * 2 + |ext|
  {
  }

  /** tls_send_client_hello: it always succeeds. */
  method SendClientHello(conn: TlsClient, o: Oracle) returns (out: Option<seq<Byte>>)
    requires conn.Inv() && o.Sound() && conn.state == State.ClientHello
    modifies conn`clientRandom, conn`state, conn`alertLevel, conn`alertDescription, conn`log, conn`inherited
    modifies conn.rl`writeSeqNum, conn.rl.writeCbc, conn.verify
    ensures conn.Inv() && out.Some? && conn.state == State.ServerHello && conn.alertLevel == old(conn.alertLevel)
    ensures conn.inherited == conn.dh
    ensures   && conn.clientRandom == o.random(0, 32)
              && conn.log == old(conn.log) + [Sent(CT_HANDSHAKE,
                   Message(HS_CLIENT_HELLO, HelloBody(conn.HighestVersion(), conn.rl.tlsVersion, conn.clientRandom,
                                                      conn.sessionId, conn.cipherSuites, conn.clientHelloExt)))]
  {
    hide Env.Sound, TlsClient.LayerReady, TlsClient.History, TlsClient.InProgress, TlsClient.Ciphers, HelloBody;
    var version := conn.HighestVersion();
    BeforeHello(conn);
    conn.clientRandom := o.random(0, 32);
    HelloInv(conn);
    var room := 150 + |conn.cipherSuites| * 2 + |conn.clientHelloExt|;
    var hello := Message(HS_CLIENT_HELLO,
      HelloBody(version, conn.rl.tlsVersion, conn.clientRandom, conn.sessionId, conn.cipherSuites, conn.clientHelloExt));
    HelloSize(version, conn.rl.tlsVersion, conn.clientRandom, conn.sessionId, conn.cipherSuites, conn.clientHelloExt);
    var ok, record := SendHello(conn, hello, room, o);
    out := if ok then Some(record) else None;
  }

  lemma WfParts(conn: TlsClient)
    ensures conn.Wf() <==>
              && conn.env.Sound() && conn.LayerReady() && conn.verify.Paired() && |conn.sessionId| <= 32
              && |conn.clientRandom| == 32 && |conn.serverRandom| == 32 && |conn.masterSecret| == 48
  {
  }

  lemma BeforeHello(conn: TlsClient)
    requires conn.Inv() && conn.state == State.ClientHello
    ensures OnlyData(conn.log) && !conn.sessionResumed && conn.rl.writeCipherSuite == conn.rl.readCipherSuite == NULL_SUITE
    ensures NULL_SUITE !in conn.cipherSuites && conn.Wf() && (conn.alertLevel == 0 ==> conn.History())
  {
  }

  /** Before and after the ClientHello not much is asked of a connection. */
  lemma HelloInv(conn: TlsClient)
    requires conn.Wf() && NULL_SUITE !in conn.cipherSuites && !conn.sessionResumed
    requires conn.rl.writeCipherSuite == conn.rl.readCipherSuite == NULL_SUITE && (conn.alertLevel == 0 ==> conn.History())
    requires if conn.state == State.ClientHello then OnlyData(conn.log)
             else conn.state == State.ServerHello && conn.dh == conn.inherited
                  && Started(conn.log) && CcsSent(conn.log) == 0 && FinishedSent(conn.log) == 0
                  && ReadSwitches(conn.log) == 0 && Matches(conn.log) == 0
    ensures conn.Inv()
  {
    hide Started, Count, Transcript, Legal, Vouched;
  }

  lemma FirstEvent(h: Hashing, version: nat, master: seq<Byte>, log: seq<Event>, e: Event)
    requires OnlyData(log) && IsHello(e)
    ensures var l := log + [e];
            && CcsSent(l) == 0 && FinishedSent(l) == 0 && ReadSwitches(l) == 0 && Matches(l) == 0
            && Transcript(l) == [] + e.payload && Legal(h, version, master, l) && Started(l)
    ensures Transcript(log) == [] && FinishedSent(log) == 0 && Matches(log) == 0
  {
    DataLeavesNoTrace(log);
    Append(log, e);
    LegalBeforeFinished(h, version, master, log + [e]);
    assert IsHello((log + [e])[|log|]) && (log + [e])[..|log|] == log;
  }

  /** A handshake message that is not a Finished joins a proper history. */
  lemma PlainEvent(h: Hashing, version: nat, master: seq<Byte>, log: seq<Event>, e: Event)
    requires !IsFinished(e) && !e.Matched?
    ensures var l := log + [e];
            && CcsSent(l) == CcsSent(log) + (if IsCcs(e) then 1 else 0) && FinishedSent(l) == FinishedSent(log)
            && ReadSwitches(l) == ReadSwitches(log) + (if e.ReadSwitched? then 1 else 0)
            && WriteSwitches(l) == WriteSwitches(log) + (if e.WriteSwitched? then 1 else 0)
            && Matches(l) == Matches(log)
            && Transcript(l) == Transcript(log) + MessageOf(e)
            && (Legal(h, version, master, log) ==> Legal(h, version, master, l))
            && (Started(log) ==> Started(l))
  {
    hide Legal, Count, Transcript, Started;
    Append(log, e);
    if Legal(h, version, master, log) {
      AppendLegal(h, version, master, log, e);
    }
  }

  /** An event that is no landmark of a handshake. */
  predicate Quiet(e: Event)
  {
    !IsFinished(e) && !IsCcs(e) && !e.ReadSwitched? && !e.WriteSwitched? && !e.Matched?
  }

  lemma QuietProgress(conn: TlsClient, e: Event)
    requires conn.InProgress() && Quiet(e)
    requires conn.state == State.ClientHello ==> e.Sent? && e.ct == CT_APPLICATION_DATA
    ensures Progress(conn.state, conn.log + [e], conn.sessionResumed, conn.useSessionTicket,
                     conn.rl.writeCipherSuite == NULL_SUITE, conn.rl.readCipherSuite == NULL_SUITE,
                     conn.verify.ClientDone(conn.rl.tlsVersion))
  {
    hide Count, Started, Transcript, VerifyHash.ClientDone;
    Append(conn.log, e);
  }

  /** Nor does what is known of the parameters change. */
  lemma ParametersKept(conn: TlsClient, e: Event)
    requires conn.Parameters(conn.log) && !IsFinished(e)
    ensures conn.Parameters(conn.log + [e])
  {
    hide ParamsFor, Count, Transcript, Started;
    Append(conn.log, e);
    var suite, randoms := conn.rl.cipherSuite, conn.clientRandom + conn.serverRandom;
    ParamsLater(suite, conn.log, e, conn.dh, conn.inherited, randoms);
    ParamsLater(suite, conn.log, e, conn.used, conn.inherited, randoms);
  }

  /** A further event takes nothing from what vouches for the server's key. */
  lemma StillVouched(conn: TlsClient, e: Event)
    requires !e.ParamsAccepted?
    ensures conn.History() ==> Vouched(conn.env, conn.log + [e], conn.serverRsaKey)
    ensures conn.History() && Quiet(e) ==> conn.verify.Live(conn.log + [e])
  {
    hide Vouched, Count, Legal, Transcript, Started;
    Append(conn.log, e);
    if conn.History() {
      VouchedNext(conn.env, conn.log, conn.serverRsaKey, e);
    }
  }

  /** What the key exchange state says of a connection. */
  ghost predicate AtExchange(conn: TlsClient)
    reads conn`state, conn`log, conn`useSessionTicket, conn`dh, conn`inherited, conn`clientRandom, conn`serverRandom
    reads conn.rl`cipherSuite, conn.rl`cipherAlg, conn.rl`writeCipherSuite, conn.rl`readCipherSuite
  {
    && (conn.dh.Some? ==>
          ParamsFor(conn.rl.cipherSuite, conn.log, conn.dh, conn.inherited, conn.clientRandom + conn.serverRandom))
    && conn.state == State.ClientKeyExchange && !conn.useSessionTicket && NULL_SUITE !in conn.cipherSuites
    && Started(conn.log) && CcsSent(conn.log) == 0 && FinishedSent(conn.log) == 0 && ReadSwitches(conn.log) == 0
    && Matches(conn.log) == 0 && conn.rl.writeCipherSuite == conn.rl.readCipherSuite == NULL_SUITE
    && conn.rl.cipherSuite != NULL_SUITE && conn.rl.cipherAlg != Cipher.Null
  }

  lemma ExchangeState(conn: TlsClient)
    requires conn.Inv() && conn.state == State.ClientKeyExchange
    ensures AtExchange(conn)
  {
    hide Started, Count, Transcript, Legal, Vouched;
  }

  lemma ExchangeInv(conn: TlsClient)
    requires conn.Wf() && AtExchange(conn) && (conn.alertLevel == 0 ==> conn.History())
    ensures conn.Inv()
  {
    hide Started, Count, Transcript, Legal, Vouched, TlsClient.History;
  }

  /** The suite has the key it needs, and the parameters of the exchange are accounted for. */
  ghost predicate Settled(conn: TlsClient)
    reads conn`serverRsaKey, conn`log, conn`used, conn`inherited, conn`clientRandom, conn`serverRandom, conn.rl`cipherSuite
  {
    && KeyForSuite(conn.rl.cipherSuite, conn.serverRsaKey)
    && ParamsFor(conn.rl.cipherSuite, conn.log, conn.used, conn.inherited, conn.clientRandom + conn.serverRandom)
  }

  lemma SettledKept(conn: TlsClient, e: Event)
    ensures var suite, randoms := conn.rl.cipherSuite, conn.clientRandom + conn.serverRandom;
            && (ParamsFor(suite, conn.log, conn.used, conn.inherited, randoms) ==>
                  ParamsFor(suite, conn.log + [e], conn.used, conn.inherited, randoms))
            && (ParamsFor(suite, conn.log, conn.dh, conn.inherited, randoms) ==>
                  ParamsFor(suite, conn.log + [e], conn.dh, conn.inherited, randoms))
  {
    hide ParamsFor;
    var suite, randoms := conn.rl.cipherSuite, conn.clientRandom + conn.serverRandom;
    ParamsLater(suite, conn.log, e, conn.used, conn.inherited, randoms);
    ParamsLater(suite, conn.log, e, conn.dh, conn.inherited, randoms);
  }

  /** One handshake message as a record in the clear. */
  method SendClear(conn: TlsClient, m: seq<Byte>, room: nat, o: Oracle, use: nat) returns (ok: bool, record: seq<Byte>)
    requires conn.Wf() && o.Sound() && conn.rl.writeCipherSuite == NULL_SUITE
    modifies conn`alertLevel, conn`alertDescription, conn`log, conn.rl`writeSeqNum, conn.rl.writeCbc
    ensures conn.Wf() && (ok <==> HEADER_LEN + |m| <= room)
    ensures ok ==> |record| == HEADER_LEN + |m|
    ensures conn.log == if ok then old(conn.log) + [Sent(CT_HANDSHAKE, m)] else old(conn.log)
    ensures conn.alertLevel == if ok then old(conn.alertLevel) else ALERT_LEVEL_FATAL
  {
    hide Env.Sound, TlsClient.LayerReady, RecordOf, Body, RecordLayer.Settings, RecordLayer.Writing;
    ok, record := conn.SendRecord(CT_HANDSHAKE, m, room, o, use);
    if !ok {
      conn.Alert(ALERT_LEVEL_FATAL, ALERT_INTERNAL_ERROR);
    }
  }

  /** Send one handshake message and add it to the transcript. */
  method SendHandshake(conn: TlsClient, m: seq<Byte>, room: nat, o: Oracle, use: nat) returns (ok: bool, record: seq<Byte>)
    requires conn.Inv() && o.Sound() && conn.state == State.ClientKeyExchange && |m| > 0 && m[0] != HS_FINISHED
    modifies conn`alertLevel, conn`alertDescription, conn`log, conn.rl`writeSeqNum, conn.rl.writeCbc, conn.verify
    ensures conn.Wf() && (if ok then conn.Inv() && conn.alertLevel == old(conn.alertLevel) else conn.alertLevel != 0)
    ensures ok ==> |record| == HEADER_LEN + |m| && conn.log == old(conn.log) + [Sent(CT_HANDSHAKE, m)]
    ensures ok <==> HEADER_LEN + |m| <= room
    ensures ok && old(Settled(conn)) ==> Settled(conn)
  {
    hide Env.Sound, TlsClient.LayerReady, Legal, Count, Transcript, Started, Vouched, Oracle.Sound,
         VerifyHash.Holds, VerifyHash.Live, TlsClient.InProgress, TlsClient.Ciphers, ParamsFor, KeyForSuite;
    ExchangeState(conn);
    SettledKept(conn, Sent(CT_HANDSHAKE, m));
    PlainEvent(conn.env.hashing, conn.rl.tlsVersion, conn.masterSecret, conn.log, Sent(CT_HANDSHAKE, m));
    StillVouched(conn, Sent(CT_HANDSHAKE, m));
    ok, record := SendClear(conn, m, room, o, use);
    if ok {
      conn.verify.Add(m, Transcript(old(conn.log)));
      ExchangeInv(conn);
    }
  }

  // ---------------------------------------------------------------- key derivation

  function MasterSecret(conn: TlsClient, preMaster: seq<Byte>): seq<Byte>
    reads conn`clientRandom, conn`serverRandom, conn.rl`tlsVersion
  {
    conn.env.hashing.prf(conn.rl.tlsVersion, preMaster, "master secret", conn.clientRandom + conn.serverRandom, 48)
  }

  function KeyBlock(conn: TlsClient): seq<Byte>
    reads conn`masterSecret, conn`clientRandom, conn`serverRandom
    reads conn.rl`tlsVersion, conn.rl`hashSize, conn.rl`keyMaterialLen, conn.rl`ivSize
  {
    conn.env.hashing.prf(conn.rl.tlsVersion, conn.masterSecret, "key expansion", conn.serverRandom + conn.clientRandom,
                         conn.rl.KeyBlockLen())
  }

  /** Both secrets written out. */
  lemma SecretsAre(conn: TlsClient, preMaster: seq<Byte>)
    ensures MasterSecret(conn, preMaster)
         == conn.env.hashing.prf(conn.rl.tlsVersion, preMaster, "master secret", conn.clientRandom + conn.serverRandom, 48)
    ensures var v := if conn.rl.tlsVersion == 0x0301 then conn.rl.ivSize else 0;
            KeyBlock(conn)
              == conn.env.hashing.prf(conn.rl.tlsVersion, conn.masterSecret, "key expansion",
                                      conn.serverRandom + conn.clientRandom,
                                      2 * (conn.rl.hashSize + conn.rl.keyMaterialLen + v))
  {
  }

  /** tls_derive_keys: the master secret from a pre-master secret (if one is given), and the key block from
      the master secret, dealt out to the two directions. */
  method DeriveKeys(conn: TlsClient, preMaster: Option<seq<Byte>>)
    requires conn.Wf()
    modifies conn`masterSecret
    modifies conn.rl`writeMacSecret, conn.rl`readMacSecret, conn.rl`writeKey, conn.rl`readKey
    modifies conn.rl`writeIv, conn.rl`readIv
    ensures conn.Wf() && (preMaster.None? ==> conn.masterSecret == old(conn.masterSecret))
    ensures preMaster.Some? ==>
              conn.masterSecret == conn.env.hashing.prf(conn.rl.tlsVersion, preMaster.value, "master secret",
                                                        conn.clientRandom + conn.serverRandom, 48)
    ensures var v := if conn.rl.tlsVersion == 0x0301 then conn.rl.ivSize else 0;
            conn.rl.KeyedBy(conn.env.hashing.prf(conn.rl.tlsVersion, conn.masterSecret, "key expansion",
                                                 conn.serverRandom + conn.clientRandom,
                                                 2 * (conn.rl.hashSize + conn.rl.keyMaterialLen + v)))
  {
    hide Primitives.Sound, Cipher.CryptoCipher.Valid, RecordLayer.KeyedBy, VerifyHash.Paired;
    if preMaster.Some? {
      conn.masterSecret := MasterSecret(conn, preMaster.value);
    }
    conn.rl.DealKeys(KeyBlock(conn));
  }

  /** Before any Finished a new master secret does not disturb the history. */
  method DeriveInHandshake(conn: TlsClient, preMaster: Option<seq<Byte>>)
    requires conn.Inv() && conn.state == State.ClientKeyExchange
    modifies conn`masterSecret
    modifies conn.rl`writeMacSecret, conn.rl`readMacSecret, conn.rl`writeKey, conn.rl`readKey
    modifies conn.rl`writeIv, conn.rl`readIv
    ensures conn.Inv()
    ensures conn.masterSecret == match preMaster
                                 case None => old(conn.masterSecret)
                                 case Some(s) => MasterSecret(conn, s)
    ensures conn.rl.KeyedBy(KeyBlock(conn))
  {
    hide TlsClient.Wf, TlsClient.InProgress, TlsClient.Ciphers, TlsClient.Parameters, Legal, Count, Transcript, Vouched,
         VerifyHash.Holds, VerifyHash.Live, RecordLayer.KeyedBy;
    ExchangeState(conn);
    LegalAnySecret(conn);
    DeriveKeys(conn, preMaster);
    SecretsAre(conn, if preMaster.Some? then preMaster.value else []);
    LegalAnySecret(conn);
  }

  lemma LegalAnySecret(conn: TlsClient)
    requires FinishedSent(conn.log) == 0 && Matches(conn.log) == 0
    ensures Legal(conn.env.hashing, conn.rl.tlsVersion, conn.masterSecret, conn.log)
  {
    LegalBeforeFinished(conn.env.hashing, conn.rl.tlsVersion, conn.masterSecret, conn.log);
  }

  // ---------------------------------------------------------------- the second client flight

  function CertList(chain: seq<seq<Byte>>): seq<Byte>
  {
    if chain == [] then [] else BE24(|chain[0]|) + chain[0] + CertList(chain[1..])
  }

  /** tls_write_client_certificate. */
  method WriteCertificate(conn: TlsClient, room: nat, o: Oracle) returns (ok: bool, record: seq<Byte>)
    requires conn.Inv() && o.Sound() && conn.state == State.ClientKeyExchange
    modifies conn`alertLevel, conn`alertDescription, conn`log, conn.rl`writeSeqNum, conn.rl.writeCbc, conn.verify
    ensures conn.Wf() && (if ok then conn.Inv() && conn.alertLevel == old(conn.alertLevel) else conn.alertLevel != 0)
    ensures ok ==> |record| <= room
    ensures ok ==>
              var list := CertList(conn.env.clientChain);
              conn.log == old(conn.log) + [Sent(CT_HANDSHAKE, Message(HS_CERTIFICATE, BE24(|list|) + list))]
  {
    hide TlsClient.Wf, TlsClient.InProgress, TlsClient.Ciphers, TlsClient.History, Oracle.Sound;
    var list := CertList(conn.env.clientChain);
    ok, record := SendHandshake(conn, Message(HS_CERTIFICATE, BE24(|list|) + list), room, o, 2);
  }

  /** The ephemeral suites. */
  predicate Ephemeral(suite: nat)
  {
    SuiteData(suite).Some? && (SuiteData(suite).value.kx == DhAnonKx || SuiteData(suite).value.kx == DheRsaKx)
  }

  /** The client's share of the key exchange: its public value, or the pre-master secret under the server's
      key. */
  function ClientShare(conn: TlsClient, o: Oracle): Option<seq<Byte>>
    reads conn`dh, conn`serverRsaKey, conn.rl`cipherSuite
  {
    if Ephemeral(conn.rl.cipherSuite) then
      match conn.env.dhShare(conn.dh, o.random(3, if conn.dh.Some? then |conn.dh.value.p| else 0))
      case None => None
      case Some(share) => Some(share.0)
    else
      match conn.serverRsaKey
      case None => None
      case Some(key) => conn.env.rsaEncrypt(key, BE16(conn.HighestVersion()) + o.random(3, 46), o.random(4, 46))
  }

  /** What the two sides agree on: the shared value, or what the client made up. */
  function PreMaster(conn: TlsClient, o: Oracle): seq<Byte>
    reads conn`dh, conn.rl`cipherSuite
  {
    if Ephemeral(conn.rl.cipherSuite) then
      match conn.env.dhShare(conn.dh, o.random(3, if conn.dh.Some? then |conn.dh.value.p| else 0))
      case None => []
      case Some(share) => share.1
    else BE16(conn.HighestVersion()) + o.random(3, 46)
  }

  lemma NoShareWithoutParams(conn: TlsClient, r: seq<Byte>)
    requires conn.Wf() && conn.env.dhShare(conn.dh, r).Some?
    ensures conn.dh.Some?
  {
  }

  /** The parameters have been used. */
  method Forget(conn: TlsClient)
    requires conn.Inv() && conn.state == State.ClientKeyExchange && conn.dh.Some?
    modifies conn`dh, conn`used
    ensures conn.Inv() && conn.dh.None? && conn.used == old(conn.dh)
    ensures ParamsFor(conn.rl.cipherSuite, conn.log, conn.used, conn.inherited, conn.clientRandom + conn.serverRandom)
  {
    hide TlsClient.Wf, TlsClient.InProgress, TlsClient.Ciphers, TlsClient.History, ParamsFor, Count;
    conn.used := conn.dh;
    conn.dh := None;
  }

  lemma NotSigned(conn: TlsClient)
    requires !Ephemeral(conn.rl.cipherSuite)
    ensures ParamsFor(conn.rl.cipherSuite, conn.log, conn.used, conn.inherited, conn.clientRandom + conn.serverRandom)
  {
  }

  lemma NeedsNoRsa(suite: nat, key: Option<seq<Byte>>)
    ensures Ephemeral(suite) || key.Some? ==> KeyForSuite(suite, key)
  {
  }

  /** The record layer has the keys that belong to the master secret and the randoms. */
  ghost predicate Keyed(conn: TlsClient)
    reads conn`masterSecret, conn`clientRandom, conn`serverRandom
    reads conn.rl`hashSize, conn.rl`keyMaterialLen, conn.rl`ivSize, conn.rl`tlsVersion, conn.rl`writeMacSecret
    reads conn.rl`readMacSecret, conn.rl`writeKey, conn.rl`readKey, conn.rl`writeIv, conn.rl`readIv
  {
    conn.rl.KeyedBy(KeyBlock(conn))
  }

  /** The secrets in use come from this pre-master secret. */
  ghost predicate KeysFrom(conn: TlsClient, preMaster: seq<Byte>)
    reads conn`masterSecret, conn`clientRandom, conn`serverRandom
    reads conn.rl`hashSize, conn.rl`keyMaterialLen, conn.rl`ivSize, conn.rl`tlsVersion, conn.rl`writeMacSecret
    reads conn.rl`readMacSecret, conn.rl`writeKey, conn.rl`readKey, conn.rl`writeIv, conn.rl`readIv
  {
    conn.masterSecret == MasterSecret(conn, preMaster) && Keyed(conn)
  }

  lemma KeysFromIs(conn: TlsClient, preMaster: seq<Byte>)
    requires KeysFrom(conn, preMaster)
    ensures conn.masterSecret == conn.env.hashing.prf(conn.rl.tlsVersion, preMaster, "master secret",
                                                      conn.clientRandom + conn.serverRandom, 48)
    ensures var v := if conn.rl.tlsVersion == 0x0301 then conn.rl.ivSize else 0;
            conn.rl.KeyedBy(conn.env.hashing.prf(conn.rl.tlsVersion, conn.masterSecret, "key expansion",
                                                 conn.serverRandom + conn.clientRandom,
                                                 2 * (conn.rl.hashSize + conn.rl.keyMaterialLen + v)))
  {
    hide RecordLayer.KeyedBy;
    SecretsAre(conn, preMaster);
  }

  /** Both directions, for the keys alone. */
  lemma KeyedMeans(conn: TlsClient)
    ensures Keyed(conn) <==>
              var v := if conn.rl.tlsVersion == 0x0301 then conn.rl.ivSize else 0;
              conn.rl.KeyedBy(conn.env.hashing.prf(conn.rl.tlsVersion, conn.masterSecret, "key expansion",
                                                   conn.serverRandom + conn.clientRandom,
                                                   2 * (conn.rl.hashSize + conn.rl.keyMaterialLen + v)))
  {
    hide RecordLayer.KeyedBy;
    SecretsAre(conn, []);
  }

  /** What the client sends for the key exchange, and what the secrets come from: its public value and the shared one,
      or the version it offered with 46 random octets, encrypted to the server's key. */
  lemma ShareIs(conn: TlsClient, o: Oracle)
    ensures conn.rl.cipherSuite in {0x0016, 0x0018, 0x001b, 0x0033, 0x0034, 0x0039, 0x003a, 0x0067, 0x006b, 0x006c, 0x006d} ==>
              var share := conn.env.dhShare(conn.dh, o.random(3, if conn.dh.Some? then |conn.dh.value.p| else 0));
              && (ClientShare(conn, o).Some? <==> share.Some?)
              && (share.Some? ==> ClientShare(conn, o) == Some(share.value.0) && PreMaster(conn, o) == share.value.1)
    ensures conn.rl.cipherSuite !in {0x0016, 0x0018, 0x001b, 0x0033, 0x0034, 0x0039, 0x003a, 0x0067, 0x006b, 0x006c, 0x006d} ==>
              && PreMaster(conn, o) == [3, if conn.disable12 then 2 else 3] + o.random(3, 46)
              && (conn.serverRsaKey.None? ==> ClientShare(conn, o).None?)
              && (conn.serverRsaKey.Some? ==>
                    ClientShare(conn, o) == conn.env.rsaEncrypt(conn.serverRsaKey.value, PreMaster(conn, o), o.random(4, 46)))
  {
    hide SuiteData;
    SuiteRows(conn.rl.cipherSuite);
    if SuiteData(conn.rl.cipherSuite).Some? {
      SuiteColumns(conn.rl.cipherSuite);
    }
  }

  /** tlsv1_key_x_dh: the client's public value, and the keys from the shared one. */
  method KeyXDh(conn: TlsClient, room: nat, o: Oracle) returns (body: Option<seq<Byte>>)
    requires conn.Inv() && o.Sound() && conn.state == State.ClientKeyExchange && Ephemeral(conn.rl.cipherSuite)
    modifies conn`masterSecret, conn`dh, conn`used, conn`alertLevel, conn`alertDescription
    modifies conn.rl`writeMacSecret, conn.rl`readMacSecret, conn.rl`writeKey, conn.rl`readKey
    modifies conn.rl`writeIv, conn.rl`readIv
    ensures conn.Wf()
    ensures if body.Some? then conn.Inv() && conn.alertLevel == old(conn.alertLevel) else conn.alertLevel != 0
    ensures body.Some? ==> Settled(conn) && conn.used == old(conn.dh) && KeysFrom(conn, old(PreMaster(conn, o)))
    ensures var share := old(ClientShare(conn, o));
            && (body.Some? <==> share.Some? && HEADER_LEN + 6 + |share.value| <= room)
            && (body.Some? ==> body.value == BE16(|share.value|) + share.value)
  {
    hide TlsClient.Wf, TlsClient.InProgress, TlsClient.Ciphers, TlsClient.Parameters, TlsClient.History, Oracle.Sound,
         Ephemeral, ParamsFor, RecordLayer.KeyedBy, KeyForSuite;
    var share := conn.env.dhShare(conn.dh, o.random(3, if conn.dh.Some? then |conn.dh.value.p| else 0));
    if share.None? || HEADER_LEN + 4 + 2 + |share.value.0| > room {
      conn.Alert(ALERT_LEVEL_FATAL, ALERT_INTERNAL_ERROR);
      return None;
    }
    NoShareWithoutParams(conn, o.random(3, if conn.dh.Some? then |conn.dh.value.p| else 0));
    NeedsNoRsa(conn.rl.cipherSuite, conn.serverRsaKey);
    DeriveInHandshake(conn, Some(share.value.1));
    Forget(conn);
    body := Some(BE16(|share.value.0|) + share.value.0);
  }

  /** tlsv1_key_x_rsa: a pre-master secret under the server's key, and the keys from it. */
  method KeyXRsa(conn: TlsClient, o: Oracle) returns (body: Option<seq<Byte>>)
    requires conn.Inv() && o.Sound() && conn.state == State.ClientKeyExchange && !Ephemeral(conn.rl.cipherSuite)
    modifies conn`masterSecret, conn`alertLevel, conn`alertDescription
    modifies conn.rl`writeMacSecret, conn.rl`readMacSecret, conn.rl`writeKey, conn.rl`readKey
    modifies conn.rl`writeIv, conn.rl`readIv
    ensures conn.Wf()
    ensures if body.Some? then conn.Inv() && conn.alertLevel == old(conn.alertLevel) else conn.alertLevel != 0
    ensures body.Some? ==> Settled(conn) && KeysFrom(conn, old(PreMaster(conn, o)))
    ensures var share := old(ClientShare(conn, o));
            && (body.Some? <==> share.Some?)
            && (body.Some? ==> body.value == BE16(|share.value|) + share.value)
  {
    hide TlsClient.Wf, TlsClient.InProgress, TlsClient.Ciphers, TlsClient.Parameters, TlsClient.History, Oracle.Sound,
         Ephemeral, ParamsFor, RecordLayer.KeyedBy, KeyForSuite;
    var preMaster := BE16(conn.HighestVersion()) + o.random(3, 46);
    DeriveInHandshake(conn, Some(preMaster));
    if conn.serverRsaKey.None? {
      conn.Alert(ALERT_LEVEL_FATAL, ALERT_INTERNAL_ERROR);
      return None;
    }
    var enc := conn.env.rsaEncrypt(conn.serverRsaKey.value, preMaster, o.random(4, 46));
    if enc.None? {
      conn.Alert(ALERT_LEVEL_FATAL, ALERT_INTERNAL_ERROR);
      return None;
    }
    NotSigned(conn);
    NeedsNoRsa(conn.rl.cipherSuite, conn.serverRsaKey);
    body := Some(BE16(|enc.value|) + enc.value);
  }

  /** The body of the ClientKeyExchange. */
  method KeyShare(conn: TlsClient, room: nat, o: Oracle) returns (body: Option<seq<Byte>>)
    requires conn.Inv() && o.Sound() && conn.state == State.ClientKeyExchange
    modifies conn`masterSecret, conn`dh, conn`used, conn`alertLevel, conn`alertDescription
    modifies conn.rl`writeMacSecret, conn.rl`readMacSecret, conn.rl`writeKey, conn.rl`readKey
    modifies conn.rl`writeIv, conn.rl`readIv
    ensures conn.Wf()
    ensures if body.Some? then conn.Inv() && conn.alertLevel == old(conn.alertLevel) else conn.alertLevel != 0
    ensures body.Some? ==> Settled(conn) && KeysFrom(conn, old(PreMaster(conn, o)))
    ensures body.Some? && Ephemeral(conn.rl.cipherSuite) ==> conn.used == old(conn.dh)
    ensures var share := old(ClientShare(conn, o));
            if share.None? then body.None?
            else (body.Some? ==> body.value == BE16(|share.value|) + share.value)
                 && (HEADER_LEN + 6 + |share.value| <= room ==> body.Some?)
  {
    hide TlsClient.Inv, TlsClient.Wf, Oracle.Sound, Ephemeral, Settled, KeysFrom, ClientShare, PreMaster;
    if Ephemeral(conn.rl.cipherSuite) {
      body := KeyXDh(conn, room, o);
    } else {
      body := KeyXRsa(conn, o);
    }
  }

  /** One handshake message of that kind was sent. */
  ghost predicate SentOne(log0: seq<Event>, log: seq<Event>, kind: Byte)
  {
    exists m: seq<Byte> :: |m| > 0 && m[0] == kind && log == log0 + [Sent(CT_HANDSHAKE, m)]
  }

  /** tls_write_client_key_exchange. */
  method WriteKeyExchange(conn: TlsClient, room: nat, o: Oracle) returns (ok: bool, record: seq<Byte>)
    requires conn.Inv() && o.Sound() && conn.state == State.ClientKeyExchange
    modifies conn`masterSecret, conn`dh, conn`used, conn`alertLevel, conn`alertDescription, conn`log
    modifies conn.rl`writeMacSecret, conn.rl`readMacSecret, conn.rl`writeKey, conn.rl`readKey
    modifies conn.rl`writeIv, conn.rl`readIv, conn.rl`writeSeqNum, conn.rl.writeCbc, conn.verify
    ensures conn.Wf() && (if ok then conn.Inv() && conn.alertLevel == old(conn.alertLevel) else conn.alertLevel != 0)
    ensures ok ==> |record| <= room
    ensures ok ==> SentOne(old(conn.log), conn.log, HS_CLIENT_KEY_EXCHANGE)
    ensures ok ==> Settled(conn) && KeysFrom(conn, old(PreMaster(conn, o)))
    ensures ok && Ephemeral(conn.rl.cipherSuite) ==> conn.used == old(conn.dh)
    ensures var share := old(ClientShare(conn, o));
            && (ok <==> share.Some? && HEADER_LEN + 6 + |share.value| <= room)
            && (ok ==> |record| == HEADER_LEN + 6 + |share.value|
                       && conn.log == old(conn.log) + [Sent(CT_HANDSHAKE,
                            Message(HS_CLIENT_KEY_EXCHANGE, BE16(|share.value|) + share.value))])
  {
    hide TlsClient.Inv, TlsClient.Wf, Oracle.Sound, Settled, PreMaster, KeysFrom, ClientShare, Ephemeral;
    ok, record := false, [];
    var body := KeyShare(conn, room, o);
    if body.Some? {
      ok, record := SendHandshake(conn, Message(HS_CLIENT_KEY_EXCHANGE, body.value), room, o, 5);
    }
  }

  const SHA256_DIGEST_INFO: seq<Byte> :=
    [0x30, 0x31, 0x30, 0x0d, 0x06, 0x09, 0x60, 0x86, 0x48, 0x01, 0x65, 0x03, 0x04, 0x02, 0x01, 0x05, 0x00, 0x04, 0x20]

  /** What the client signs: the digest of the transcript, from TLS 1.2 on with the hash's name. */
  function SignedDigest(h: Hashing, version: nat, transcript: seq<Byte>): seq<Byte>
  {
    if version == VERSION_1_2 then SHA256_DIGEST_INFO + Digest(h, version, transcript) else Digest(h, version, transcript)
  }

  function SignatureMessage(version: nat, sig: seq<Byte>): (m: seq<Byte>)
    ensures |m| > 0 && m[0] == HS_CERTIFICATE_VERIFY
  {
    var algs: seq<Byte> := if version >= VERSION_1_2 then [4, 1] else [];
    Message(HS_CERTIFICATE_VERIFY, algs + BE16(|sig|) + sig)
  }

  /** What is signed, and what is sent, written out: in TLS 1.2 the digest has the DigestInfo of SHA-256 in front, and
      the message names SHA-256 with RSA. */
  lemma SignatureMessageIs(h: Hashing, version: nat, t: seq<Byte>, sig: seq<Byte>)
    requires version <= 0x0303
    ensures version == 0x0303 ==>
              SignedDigest(h, version, t)
                == [0x30, 0x31, 0x30, 0x0d, 6, 9, 0x60, 0x86, 0x48, 1, 0x65, 3, 4, 2, 1, 5, 0, 4, 0x20] + h.sha256(t)
    ensures version < 0x0303 ==> SignedDigest(h, version, t) == h.md5(t) + h.sha1(t)
    ensures var m, k := SignatureMessage(version, sig), if version == 0x0303 then 2 else 0;
            && |m| == 6 + k + |sig| && m[0] == 15 && BytesVal(m[1..4]) == (2 + k + |sig|) % 0x100_0000
            && (version == 0x0303 ==> m[4..6] == [4, 1])
            && BytesVal(m[4 + k..6 + k]) == |sig| % 0x1_0000 && m[6 + k..] == sig
  {
    hide BytesVal;
    var algs: seq<Byte> := if version >= VERSION_1_2 then [4, 1] else [];
    var body := algs + BE16(|sig|) + sig;
    var m, k := SignatureMessage(version, sig), |algs|;
    MessageIs(HS_CERTIFICATE_VERIFY, body);
    FieldsWritten(|sig|);
    assert m[4..] == body;
    assert m[4 + k..6 + k] == body[k..k + 2] == BE16(|sig|);
    assert m[6 + k..] == body[k + 2..] == sig;
    assert m[4..4 + k] == algs;
  }

  /** tls_write_client_certificate_verify. Nothing pending, the signature covers exactly the messages so far. */
  method WriteCertificateVerify(conn: TlsClient, room: nat, o: Oracle) returns (ok: bool, record: seq<Byte>)
    requires conn.Inv() && o.Sound() && conn.state == State.ClientKeyExchange
    modifies conn`alertLevel, conn`alertDescription, conn`log, conn.rl`writeSeqNum, conn.rl.writeCbc, conn.verify
    ensures conn.Wf() && (if ok then conn.Inv() && conn.alertLevel == old(conn.alertLevel) else conn.alertLevel != 0)
    ensures ok ==> |record| <= room
    ensures ok ==> SentOne(old(conn.log), conn.log, HS_CERTIFICATE_VERIFY)
    ensures ok && old(conn.alertLevel) == 0 ==>
              var sig := conn.env.sign(SignedDigest(conn.env.hashing, conn.rl.tlsVersion, old(Transcript(conn.log))));
              sig.Some? && conn.log == old(conn.log) + [Sent(CT_HANDSHAKE, SignatureMessage(conn.rl.tlsVersion, sig.value))]
    ensures ok && old(Settled(conn)) ==> Settled(conn)
  {
    hide Settled, TlsClient.LayerReady, Count, Legal, Transcript, Started, Oracle.Sound, Env.Sound,
         TlsClient.Parameters, Vouched, KeyForSuite, VerifyHash.Live, SignatureMessage;
    ok, record := false, [];
    VersionRange(conn);
    var digest := conn.verify.FinishCert(conn.env.hashing, conn.rl.tlsVersion, Transcript(conn.log));
    if digest.None? {
      conn.Alert(ALERT_LEVEL_FATAL, ALERT_INTERNAL_ERROR);
      return;
    }
    var hash := if conn.rl.tlsVersion == VERSION_1_2 then SHA256_DIGEST_INFO + digest.value else digest.value;
    assert old(conn.alertLevel) == 0 ==>
             hash == SignedDigest(conn.env.hashing, conn.rl.tlsVersion, old(Transcript(conn.log)));
    var sig := conn.env.sign(hash);
    if sig.None? {
      conn.Alert(ALERT_LEVEL_FATAL, ALERT_INTERNAL_ERROR);
      return;
    }
    ok, record := SendHandshake(conn, SignatureMessage(conn.rl.tlsVersion, sig.value), room, o, 6);
  }

  lemma VersionRange(conn: TlsClient)
    requires conn.Wf()
    ensures VERSION_1 <= conn.rl.tlsVersion <= VERSION_1_2
  {
  }

  // ---------------------------------------------------------------- ChangeCipherSpec and Finished

  /** tls_write_client_change_cipher_spec. */
  method WriteChangeCipherSpec(conn: TlsClient, room: nat, o: Oracle, use: nat) returns (ok: bool, record: seq<Byte>)
    requires conn.Wf() && o.Sound() && conn.rl.cipherSuite != NULL_SUITE && conn.rl.cipherAlg != Cipher.Null
    modifies conn`alertLevel, conn`alertDescription, conn`log
    modifies conn.rl`writeCipherSuite, conn.rl`writeSeqNum, conn.rl`writeCbc, conn.rl.writeCbc
    ensures conn.Wf() && (conn.rl.writeCbc == old(conn.rl.writeCbc) || conn.rl.writeCbc == null || fresh(conn.rl.writeCbc))
    ensures ok ==> conn.alertLevel == old(conn.alertLevel) && conn.rl.writeCipherSuite == conn.rl.cipherSuite
    ensures ok ==> conn.log == old(conn.log) + [Sent(CT_CHANGE_CIPHER_SPEC, [1])] + [WriteSwitched] && |record| <= room
    ensures room >= 70 ==> ok && |record| <= 70
    ensures !ok ==> conn.alertLevel != 0
    ensures ok ==> WritesFresh(conn.rl)
  {
    hide TlsClient.LayerReady, Oracle.Sound, Env.Sound, WritesFresh, EndsFresh, RecordOf, Body, Stepped,
         RecordLayer.Settings, RecordLayer.Writing;
    ok, record := conn.SendRecord(CT_CHANGE_CIPHER_SPEC, [1], room, o, use);
    if !ok {
      conn.Alert(ALERT_LEVEL_FATAL, ALERT_INTERNAL_ERROR);
      return;
    }
    ok := conn.SwitchWrite();
  }

  lemma PrfLength(env: Env, version: nat, secret: seq<Byte>, purpose: string, seed: seq<Byte>, n: nat)
    requires env.Sound()
    ensures |env.hashing.prf(version, secret, purpose, seed, n)| == n
  {
  }

  /** tls_write_client_finished. The hash contexts behind the client's Finished are gone afterwards, so
      there is no second one. */
  method WriteFinished(conn: TlsClient, room: nat, o: Oracle, use: nat)
    returns (ok: bool, record: seq<Byte>, ghost m: seq<Byte>)
    requires conn.Wf() && o.Sound()
    modifies conn`alertLevel, conn`alertDescription, conn`log, conn.rl`writeSeqNum, conn.rl.writeCbc, conn.verify
    ensures conn.Wf() && (!ok ==> conn.alertLevel != 0)
    ensures ok ==> conn.alertLevel == old(conn.alertLevel) && |record| <= room
    ensures room >= 85 ==> (ok <==> !old(conn.verify.ClientDone(conn.rl.tlsVersion)))
    ensures ok ==> !old(conn.verify.ClientDone(conn.rl.tlsVersion)) && conn.verify.ClientDone(conn.rl.tlsVersion)
    ensures conn.verify.md5Server.Some? == old(conn.verify.md5Server.Some?)
    ensures conn.verify.sha256Server.Some? == old(conn.verify.sha256Server.Some?)
    ensures ok ==> conn.log == old(conn.log) + [Sent(CT_HANDSHAKE, m)] && |m| > 0 && m[0] == HS_FINISHED
    ensures ok && old(conn.verify.Holds(Transcript(conn.log))) ==>
              && m == FinishedMessage(VerifyData(conn.env.hashing, conn.rl.tlsVersion, conn.masterSecret, "client finished",
                                                 Transcript(old(conn.log))))
              && conn.verify.Holds(Transcript(old(conn.log)) + m)
    ensures ok && old(WritesFresh(conn.rl)) ==> EndsFresh(conn.rl, record)
  {
    hide TlsClient.LayerReady, Oracle.Sound, Env.Sound, Transcript, Digest, VerifyHash.Holds, RecordOf, Body,
         RecordLayer.Settings, RecordLayer.Writing, WritesFresh, EndsFresh, Stepped;
    ok, record, m := false, [], [];
    ghost var t := Transcript(conn.log);
    var digest := conn.verify.FinishClient(conn.env.hashing, conn.rl.tlsVersion, t);
    if digest.None? {
      conn.Alert(ALERT_LEVEL_FATAL, ALERT_INTERNAL_ERROR);
      return;
    }
    var verifyData :=
      conn.env.hashing.prf(conn.rl.tlsVersion, conn.masterSecret, "client finished", digest.value, VERIFY_DATA_LEN);
    PrfLength(conn.env, conn.rl.tlsVersion, conn.masterSecret, "client finished", digest.value, VERIFY_DATA_LEN);
    var message := FinishedMessage(verifyData);
    m := message;
    conn.verify.Add(message, t);
    ok, record := conn.SendRecord(CT_HANDSHAKE, message, room, o, use);
    if !ok {
      conn.Alert(ALERT_LEVEL_FATAL, ALERT_INTERNAL_ERROR);
    }
  }

  /** What the last client flight does to a history. */
  lemma LastFlight(h: Hashing, version: nat, master: seq<Byte>, log: seq<Event>, m: seq<Byte>)
    requires |m| > 0 && m[0] == HS_FINISHED
    ensures var l1 := log + [Sent(CT_CHANGE_CIPHER_SPEC, [1])] + [WriteSwitched];
            var l2 := l1 + [Sent(CT_HANDSHAKE, m)];
            && CcsSent(l2) == CcsSent(log) + 1 && FinishedSent(l2) == FinishedSent(log) + 1
            && ReadSwitches(l2) == ReadSwitches(log) && Matches(l2) == Matches(log)
            && Transcript(l1) == Transcript(log) && Transcript(l2) == Transcript(log) + m
            && (Started(log) ==> Started(l2))
            && (Legal(h, version, master, log)
                && m == FinishedMessage(VerifyData(h, version, master, "client finished", Transcript(log)))
                ==> Legal(h, version, master, l2))
  {
    hide Legal, Count, Transcript, FinishedMessage, VerifyData;
    var l0 := log + [Sent(CT_CHANGE_CIPHER_SPEC, [1])];
    var l1 := l0 + [WriteSwitched];
    PlainEvent(h, version, master, log, Sent(CT_CHANGE_CIPHER_SPEC, [1]));
    PlainEvent(h, version, master, l0, WriteSwitched);
    Append(l1, Sent(CT_HANDSHAKE, m));
    if Legal(h, version, master, log)
       && m == FinishedMessage(VerifyData(h, version, master, "client finished", Transcript(log))) {
      assert Transcript(l1) == Transcript(log) && Legal(h, version, master, l1);
      AppendLegal(h, version, master, l1, Sent(CT_HANDSHAKE, m));
    }
  }

  /** Nor does the last flight. */
  lemma FlightVouched(env: Env, log: seq<Event>, key: Option<seq<Byte>>, m: seq<Byte>)
    ensures Vouched(env, log, key) ==>
              Vouched(env, log + [Sent(CT_CHANGE_CIPHER_SPEC, [1])] + [WriteSwitched] + [Sent(CT_HANDSHAKE, m)], key)
  {
    hide Vouched;
    if Vouched(env, log, key) {
      var a, b, c := Sent(CT_CHANGE_CIPHER_SPEC, [1]), WriteSwitched, Sent(CT_HANDSHAKE, m);
      VouchedFurther(env, log, key, [a, b, c]);
      assert log + [a, b, c] == log + [a] + [b] + [c];
    }
  }

  lemma FlightParams(suite: nat, log: seq<Event>, m: seq<Byte>, dh: Option<Dh>, inherited: Option<Dh>, randoms: seq<Byte>)
    ensures ParamsFor(suite, log, dh, inherited, randoms) ==>
              ParamsFor(suite, log + [Sent(CT_CHANGE_CIPHER_SPEC, [1])] + [WriteSwitched] + [Sent(CT_HANDSHAKE, m)],
                        dh, inherited, randoms)
  {
    hide ParamsFor;
    var a, b, c := Sent(CT_CHANGE_CIPHER_SPEC, [1]), WriteSwitched, Sent(CT_HANDSHAKE, m);
    ParamsLater(suite, log, a, dh, inherited, randoms);
    ParamsLater(suite, log + [a], b, dh, inherited, randoms);
    ParamsLater(suite, log + [a] + [b], c, dh, inherited, randoms);
  }

  /** ChangeCipherSpec, the switch, and Finished under the new cipher. */
  ghost predicate LastPair(log0: seq<Event>, log: seq<Event>)
  {
    exists m: seq<Byte> ::
      |m| > 0 && m[0] == HS_FINISHED
      && log == log0 + [Sent(CT_CHANGE_CIPHER_SPEC, [1])] + [WriteSwitched] + [Sent(CT_HANDSHAKE, m)]
  }

  /** What the last pair of a flight starts from. */
  lemma BeforeFinished(conn: TlsClient)
    requires conn.Inv() && (conn.state == State.ClientKeyExchange || conn.state == State.ChangeCipherSpec)
    ensures conn.Wf() && Started(conn.log) && (conn.alertLevel == 0 ==> conn.History())
    ensures conn.rl.cipherSuite != NULL_SUITE && conn.rl.cipherAlg != Cipher.Null
    ensures (CcsSent(conn.log) == 0 && FinishedSent(conn.log) == 0)
            || (CcsSent(conn.log) == 1 && FinishedSent(conn.log) == 1 && conn.verify.ClientDone(conn.rl.tlsVersion))
  {
    hide Started, Count, Transcript, Legal, Vouched, TlsClient.History, TlsClient.Wf;
  }

  /** Both writers end with this pair; in either state the connection gets to where a Finished was sent once. */
  method WriteLastFlight(conn: TlsClient, room: nat, o: Oracle) returns (ok: bool, records: seq<Byte>)
    requires conn.Inv() && o.Sound() && (conn.state == State.ClientKeyExchange || conn.state == State.ChangeCipherSpec)
    modifies conn`alertLevel, conn`alertDescription, conn`log
    modifies conn.rl`writeCipherSuite, conn.rl`writeSeqNum, conn.rl`writeCbc, conn.rl.writeCbc, conn.verify
    ensures conn.Wf() && (conn.rl.writeCbc == old(conn.rl.writeCbc) || conn.rl.writeCbc == null || fresh(conn.rl.writeCbc))
    ensures !ok ==> conn.alertLevel != 0
    ensures ok ==> conn.alertLevel == old(conn.alertLevel)
    ensures ok ==> CcsSent(conn.log) == 1 && FinishedSent(conn.log) == 1 && conn.verify.ClientDone(conn.rl.tlsVersion)
    ensures ok ==> ReadSwitches(conn.log) == old(ReadSwitches(conn.log)) && Matches(conn.log) == old(Matches(conn.log))
    ensures ok ==> conn.rl.writeCipherSuite == conn.rl.cipherSuite && Started(conn.log)
    ensures ok && conn.alertLevel == 0 ==> conn.History()
    ensures ok ==> LastPair(old(conn.log), conn.log)
    ensures room >= 155 && old(conn.alertLevel == 0 && FinishedSent(conn.log) == 0) ==> ok
    ensures ok ==> !old(conn.verify.ClientDone(conn.rl.tlsVersion))
    ensures ok && old(Settled(conn)) ==> Settled(conn)
    ensures ok ==> EndsFresh(conn.rl, records)
  {
    hide TlsClient.LayerReady, Oracle.Sound, Env.Sound, Transcript, Legal, Count, Started, FinishedMessage,
         VerifyData, VerifyHash.Holds, Vouched, KeyForSuite, ParamsFor, Added, WritesFresh, EndsFresh, TlsClient.Inv;
    ghost var log := conn.log;
    BeforeFinished(conn);
    var first, second;
    ok, first := WriteChangeCipherSpec(conn, room, o, 7);
    records := [];
    if ok {
      ghost var m;
      ok, second, m := WriteFinished(conn, room - |first|, o, 8);
      if ok {
        LastFlight(conn.env.hashing, conn.rl.tlsVersion, conn.masterSecret, log, m);
        FlightVouched(conn.env, log, conn.serverRsaKey, m);
        FlightParams(conn.rl.cipherSuite, log, m, conn.used, conn.inherited, conn.clientRandom + conn.serverRandom);
        EndsLater(conn.rl, first, second);
        records := first + second;
      }
    }
  }

  // ---------------------------------------------------------------- the flights

  function ChainLen(chain: seq<seq<Byte>>): nat
  {
    if chain == [] then 0 else 3 + |chain[0]| + ChainLen(chain[1..])
  }

  /** The first octets of handshake messages sent, their kinds. */
  function Kinds(events: seq<Event>): seq<Byte>
  {
    if events == [] then []
    else
      var e := events[|events| - 1];
      Kinds(events[..|events| - 1]) + (if e.Sent? && e.ct == CT_HANDSHAKE && e.payload != [] then [e.payload[0]] else [])
  }

  /** The messages before ChangeCipherSpec, in their order: the certificate if it was asked for, the key
      exchange, and the signature if there is a key to sign with. */
  ghost predicate KeyFlight(log0: seq<Event>, log: seq<Event>, requested: bool, hasKey: bool)
  {
    && log0 <= log && (forall i :: |log0| <= i < |log| ==> log[i].Sent? && log[i].ct == CT_HANDSHAKE && log[i].payload != [])
    && Kinds(log[|log0|..]) ==
         (if requested then [HS_CERTIFICATE] else []) + [HS_CLIENT_KEY_EXCHANGE]
         + (if requested && hasKey then [HS_CERTIFICATE_VERIFY] else [])
  }

  lemma CertificateSent(log0: seq<Event>, log: seq<Event>, list: seq<Byte>)
    requires log == log0 + [Sent(CT_HANDSHAKE, Message(HS_CERTIFICATE, BE24(|list|) + list))]
    ensures SentOne(log0, log, HS_CERTIFICATE)
  {
  }

  lemma KindsNext(log0: seq<Event>, log: seq<Event>, next: seq<Event>, kind: Byte)
    requires log0 <= log && SentOne(log, next, kind)
    ensures log0 <= next && Kinds(next[|log0|..]) == Kinds(log[|log0|..]) + [kind]
    ensures (forall i :: |log0| <= i < |log| ==> log[i].Sent? && log[i].ct == CT_HANDSHAKE && log[i].payload != []) ==>
              forall i :: |log0| <= i < |next| ==> next[i].Sent? && next[i].ct == CT_HANDSHAKE && next[i].payload != []
    ensures Kinds(log0[|log0|..]) == []
  {
    var n := next[|log0|..];
    assert n[..|n| - 1] == log[|log0|..];
  }

  /** The messages before ChangeCipherSpec. */
  method WriteKeyFlight(conn: TlsClient, room: nat, o: Oracle) returns (ok: bool, records: seq<Byte>)
    requires conn.Inv() && o.Sound() && conn.state == State.ClientKeyExchange
    modifies conn`masterSecret, conn`dh, conn`used, conn`alertLevel, conn`alertDescription, conn`log
    modifies conn.rl`writeMacSecret, conn.rl`readMacSecret, conn.rl`writeKey, conn.rl`readKey
    modifies conn.rl`writeIv, conn.rl`readIv, conn.rl`writeSeqNum, conn.rl.writeCbc, conn.verify
    ensures conn.Wf() && (if ok then conn.Inv() && conn.alertLevel == old(conn.alertLevel) else conn.alertLevel != 0)
    ensures ok ==> |records| <= room
    ensures ok ==> KeyFlight(old(conn.log), conn.log, conn.certificateRequested, conn.env.hasClientKey)
    ensures !conn.certificateRequested ==>
              var share := old(ClientShare(conn, o));
              && (ok <==> share.Some? && HEADER_LEN + 6 + |share.value| <= room)
              && (ok ==> |records| == HEADER_LEN + 6 + |share.value|)
    ensures ok ==> Settled(conn) && KeysFrom(conn, old(PreMaster(conn, o)))
    ensures ok && Ephemeral(conn.rl.cipherSuite) ==> conn.used == old(conn.dh)
  {
    hide TlsClient.Inv, TlsClient.Wf, Oracle.Sound, SentOne, Kinds, Message, SignedDigest, SignatureMessage, Settled,
         ClientShare, PreMaster, KeysFrom, Ephemeral;
    ghost var log0 := conn.log;
    records := [];
    var record;
    if conn.certificateRequested {
      ok, record := WriteCertificate(conn, room, o);
      if !ok {
        return;
      }
      CertificateSent(log0, conn.log, CertList(conn.env.clientChain));
      KindsNext(log0, log0, conn.log, HS_CERTIFICATE);
      records := records + record;
    }
    ghost var log1 := conn.log;
    ok, record := WriteKeyExchange(conn, room - |records|, o);
    if !ok {
      return;
    }
    KindsNext(log0, log1, conn.log, HS_CLIENT_KEY_EXCHANGE);
    ghost var log2 := conn.log;
    records := records + record;
    if conn.certificateRequested && conn.env.hasClientKey {
      ok, record := WriteCertificateVerify(conn, room - |records|, o);
      if !ok {
        return;
      }
      KindsNext(log0, log2, conn.log, HS_CERTIFICATE_VERIFY);
      records := records + record;
    }
  }

  lemma FlightSent(conn: TlsClient)
    requires conn.Wf() && conn.state == State.ServerChangeCipherSpec && Started(conn.log)
    requires CcsSent(conn.log) == 1 && FinishedSent(conn.log) == 1 && conn.verify.ClientDone(conn.rl.tlsVersion)
    requires ReadSwitches(conn.log) == 0 && Matches(conn.log) == 0 && !conn.useSessionTicket
    requires conn.rl.readCipherSuite == NULL_SUITE && conn.rl.cipherSuite != NULL_SUITE && conn.rl.cipherAlg != Cipher.Null
    requires conn.rl.writeCipherSuite == conn.rl.cipherSuite && NULL_SUITE !in conn.cipherSuites
    requires conn.alertLevel == 0 ==> conn.History()
    requires Settled(conn)
    ensures conn.Inv()
  {
  }

  /** The whole second flight of the client. */
  ghost predicate ClientFlight(log0: seq<Event>, log: seq<Event>, requested: bool, hasKey: bool)
  {
    exists mid: seq<Event> :: KeyFlight(log0, mid, requested, hasKey) && LastPair(mid, log)
  }

  lemma {:induction false} KindsAre(events: seq<Event>)
    requires forall i :: 0 <= i < |events| ==> events[i].Sent? && events[i].ct == 22 && events[i].payload != []
    ensures |Kinds(events)| == |events| && forall i :: 0 <= i < |events| ==> Kinds(events)[i] == events[i].payload[0]
  {
    if events != [] {
      KindsAre(events[..|events| - 1]);
    }
  }

  /** The flight event by event: the certificate (11) if it was asked for, the key exchange (16), the signature (15) if
      there is a key for it, each in a message of its own, then ChangeCipherSpec, the switch, and Finished (20). */
  lemma FlightIs(log0: seq<Event>, log: seq<Event>, requested: bool, hasKey: bool) returns (kinds: seq<Byte>)
    requires ClientFlight(log0, log, requested, hasKey)
    ensures kinds == if !requested then [16] else if hasKey then [11, 16, 15] else [11, 16]
    ensures |log| == |log0| + |kinds| + 3 && log[..|log0|] == log0
    ensures forall i :: 0 <= i < |kinds| ==>
              var e := log[|log0| + i]; e.Sent? && e.ct == 22 && e.payload != [] && e.payload[0] == kinds[i]
    ensures var n := |log| - 3;
            && log[n] == Sent(20, [1]) && log[n + 1].WriteSwitched?
            && log[n + 2].Sent? && log[n + 2].ct == 22 && log[n + 2].payload != [] && log[n + 2].payload[0] == 20
  {
    var mid: seq<Event> :| KeyFlight(log0, mid, requested, hasKey) && LastPair(mid, log);
    kinds := Kinds(mid[|log0|..]);
    KindsAre(mid[|log0|..]);
    assert log[..|log0|] == mid[..|log0|] == log0;
    forall i | 0 <= i < |kinds|
      ensures log[|log0| + i] == mid[|log0|..][i]
    {
      assert log[|log0| + i] == mid[|log0| + i];
    }
  }

  /** The last pair of the second flight. */
  method CloseExchange(conn: TlsClient, room: nat, o: Oracle) returns (ok: bool, records: seq<Byte>)
    requires conn.Inv() && o.Sound() && conn.state == State.ClientKeyExchange && Settled(conn)
    modifies conn`alertLevel, conn`alertDescription, conn`log, conn`state
    modifies conn.rl`writeCipherSuite, conn.rl`writeSeqNum, conn.rl`writeCbc, conn.rl.writeCbc, conn.verify
    ensures conn.Wf() && (conn.rl.writeCbc == old(conn.rl.writeCbc) || conn.rl.writeCbc == null || fresh(conn.rl.writeCbc))
    ensures !ok ==> conn.alertLevel != 0
    ensures ok ==> conn.Inv() && conn.state == State.ServerChangeCipherSpec && conn.alertLevel == old(conn.alertLevel)
    ensures ok ==> LastPair(old(conn.log), conn.log) && FinishedSent(conn.log) == 1
    ensures room >= 155 && old(conn.alertLevel) == 0 ==> ok
    ensures ok ==> EndsFresh(conn.rl, records)
    ensures conn.state != State.ClientHello
  {
    hide TlsClient.Inv, TlsClient.Wf, TlsClient.History, Oracle.Sound, Count, Started, VerifyHash.ClientDone,
         LastPair, Settled, ParamsFor, EndsFresh;
    ExchangeState(conn);
    ok, records := WriteLastFlight(conn, room, o);
    if ok {
      conn.state := State.ServerChangeCipherSpec;
      FlightSent(conn);
    }
  }

  /** No certificate is asked for, and there is a share of ordinary size. */
  ghost predicate FlightFits(conn: TlsClient, o: Oracle)
    reads conn`alertLevel, conn`certificateRequested, conn`dh, conn`serverRsaKey, conn.rl`cipherSuite
  {
    && conn.alertLevel == 0 && !conn.certificateRequested
    && ClientShare(conn, o).Some? && |ClientShare(conn, o).value| <= 1800
  }

  /** The messages of the flight in the room reserved for them. */
  method SendFlight(conn: TlsClient, o: Oracle) returns (out: Option<seq<Byte>>)
    requires conn.Inv() && o.Sound() && conn.state == State.ClientKeyExchange
    modifies conn`masterSecret, conn`dh, conn`used, conn`alertLevel, conn`alertDescription, conn`log, conn`state
    modifies conn.rl`writeMacSecret, conn.rl`readMacSecret, conn.rl`writeKey, conn.rl`readKey, conn.rl`writeIv
    modifies conn.rl`readIv, conn.rl`writeCipherSuite, conn.rl`writeSeqNum, conn.rl`writeCbc, conn.rl.writeCbc, conn.verify
    ensures conn.Wf() && (conn.rl.writeCbc == old(conn.rl.writeCbc) || conn.rl.writeCbc == null || fresh(conn.rl.writeCbc))
    ensures out.None? ==> conn.alertLevel != 0
    ensures out.Some? ==>
              conn.Inv() && conn.state == State.ServerChangeCipherSpec && conn.alertLevel == old(conn.alertLevel)
    ensures out.Some? ==> ClientFlight(old(conn.log), conn.log, conn.certificateRequested, conn.env.hasClientKey)
    ensures old(FlightFits(conn, o)) ==> out.Some?
    ensures out.Some? ==> KeysFrom(conn, old(PreMaster(conn, o))) && EndsFresh(conn.rl, out.value)
    ensures conn.state != State.ClientHello
    ensures out.Some? ==> FinishedSent(conn.log) == 1 && (Ephemeral(conn.rl.cipherSuite) ==> conn.used == old(conn.dh))
  {
    hide TlsClient.Inv, TlsClient.Wf, Oracle.Sound, KeyFlight, LastPair, Settled, ChainLen, ClientShare, PreMaster,
         KeysFrom, Ephemeral, Count, EndsFresh;
    var room := 2000 + if conn.certificateRequested then ChainLen(conn.env.clientChain) else 0;
    var ok, records := WriteKeyFlight(conn, room, o);
    if !ok {
      return None;
    }
    var last;
    ok, last := CloseExchange(conn, room - |records|, o);
    if !ok {
      return None;
    }
    assert ClientFlight(old(conn.log), conn.log, conn.certificateRequested, conn.env.hasClientKey);
    EndsLater(conn.rl, records, last);
    out := Some(records + last);
  }

  /** tls_send_client_key_exchange. */
  method SendClientKeyExchange(conn: TlsClient, o: Oracle) returns (out: Option<seq<Byte>>)
    requires conn.Inv() && o.Sound() && conn.state == State.ClientKeyExchange
    modifies conn`masterSecret, conn`dh, conn`used, conn`alertLevel, conn`alertDescription, conn`log, conn`state
    modifies conn.rl`writeMacSecret, conn.rl`readMacSecret, conn.rl`writeKey, conn.rl`readKey, conn.rl`writeIv
    modifies conn.rl`readIv, conn.rl`writeCipherSuite, conn.rl`writeSeqNum, conn.rl`writeCbc, conn.rl.writeCbc, conn.verify
    ensures conn.Wf() && (conn.rl.writeCbc == old(conn.rl.writeCbc) || conn.rl.writeCbc == null || fresh(conn.rl.writeCbc))
    ensures out.None? ==> conn.alertLevel != 0
    ensures out.Some? ==>
              conn.Inv() && conn.state == State.ServerChangeCipherSpec && conn.alertLevel == old(conn.alertLevel)
    ensures out.Some? ==> ClientFlight(old(conn.log), conn.log, conn.certificateRequested, conn.env.hasClientKey)
    ensures old(FlightFits(conn, o)) ==> out.Some?
    ensures out.Some? ==> KeysFrom(conn, old(PreMaster(conn, o))) && EndsFresh(conn.rl, out.value)
    ensures out.Some? ==>
              conn.masterSecret == conn.env.hashing.prf(conn.rl.tlsVersion, old(PreMaster(conn, o)), "master secret",
                                                        conn.clientRandom + conn.serverRandom, 48)
    ensures out.Some? ==>
              var v := if conn.rl.tlsVersion == 0x0301 then conn.rl.ivSize else 0;
              conn.rl.KeyedBy(conn.env.hashing.prf(conn.rl.tlsVersion, conn.masterSecret, "key expansion",
                                                   conn.serverRandom + conn.clientRandom,
                                                   2 * (conn.rl.hashSize + conn.rl.keyMaterialLen + v)))
    ensures conn.state != State.ClientHello
    ensures out.Some? ==> FinishedSent(conn.log) == 1 && (Ephemeral(conn.rl.cipherSuite) ==> conn.used == old(conn.dh))
  {
    hide TlsClient.Inv, TlsClient.Wf, Oracle.Sound, ClientFlight, PreMaster, KeysFrom, Keyed, RecordLayer.KeyedBy,
         Ephemeral, Count, EndsFresh, FlightFits;
    out := SendFlight(conn, o);
    if out.Some? {
      KeysFromIs(conn, old(PreMaster(conn, o)));
    }
  }

  lemma Apart(conn: TlsClient)
    requires conn.Wf() || conn.Inv()
    ensures conn.rl.writeCbc == null || conn.rl.writeCbc != conn.rl.readCbc
  {
  }

  /** tls_send_change_cipher_spec. */
  method SendChangeCipherSpec(conn: TlsClient, o: Oracle) returns (out: Option<seq<Byte>>)
    requires conn.Inv() && o.Sound() && conn.state == State.ChangeCipherSpec
    modifies conn`alertLevel, conn`alertDescription, conn`log, conn`state, conn`sessionResumed
    modifies conn.rl`writeCipherSuite, conn.rl`writeSeqNum, conn.rl`writeCbc, conn.rl.writeCbc, conn.verify
    ensures conn.Wf() && (conn.rl.writeCbc == old(conn.rl.writeCbc) || conn.rl.writeCbc == null || fresh(conn.rl.writeCbc))
    ensures out.None? ==> conn.alertLevel != 0
    ensures out.Some? ==>
              conn.state == Established && (conn.alertLevel == 0 ==> conn.Inv()) && conn.alertLevel == old(conn.alertLevel)
    ensures out.Some? ==> LastPair(old(conn.log), conn.log) && EndsFresh(conn.rl, out.value)
    ensures old(conn.alertLevel == 0 && FinishedSent(conn.log) == 0) ==> out.Some?
    ensures old(FinishedSent(conn.log)) == 1 ==> out.None?
    ensures out.None? ==> conn.state == old(conn.state)
    ensures old(conn.rl.CanRead()) ==> conn.rl.CanRead() && conn.rl.Reading() == old(conn.rl.Reading())
    ensures conn.state != State.ClientHello
  {
    hide TlsClient.LayerReady, Oracle.Sound, Env.Sound, Transcript, Legal, Count, Started, VerifyHash.Holds, LastPair,
         TlsClient.InProgress, TlsClient.Ciphers, TlsClient.History, EndsFresh, RecordLayer.Reading,
         RecordLayer.CanRead;
    ResumptionState(conn);
    Apart(conn);
    var ok, last := WriteLastFlight(conn, 1000, o);
    if !ok {
      return None;
    }
    if !conn.sessionResumed && conn.useSessionTicket {
      conn.sessionResumed := true;
    }
    conn.state := Established;
    ResumptionDone(conn);
    out := Some(last);
  }

  lemma ResumptionState(conn: TlsClient)
    requires conn.Inv() && conn.state == State.ChangeCipherSpec
    ensures ReadSwitches(conn.log) == 1 && Matches(conn.log) == 1 && (conn.sessionResumed || conn.useSessionTicket)
    ensures conn.rl.readCipherSuite == conn.rl.cipherSuite != NULL_SUITE && conn.rl.cipherAlg != Cipher.Null
    ensures NULL_SUITE !in conn.cipherSuites
    ensures FinishedSent(conn.log) == 1 ==> conn.verify.ClientDone(conn.rl.tlsVersion)
  {
    hide Started, Count, Transcript, Legal, Vouched;
  }

  lemma ResumptionDone(conn: TlsClient)
    requires conn.Wf() && conn.state == Established && Started(conn.log) && conn.sessionResumed
    requires CcsSent(conn.log) == 1 && FinishedSent(conn.log) == 1 && conn.verify.ClientDone(conn.rl.tlsVersion)
    requires ReadSwitches(conn.log) == 1 && Matches(conn.log) == 1 && NULL_SUITE !in conn.cipherSuites
    requires conn.rl.readCipherSuite == conn.rl.writeCipherSuite == conn.rl.cipherSuite != NULL_SUITE
    requires conn.rl.cipherAlg != Cipher.Null
    ensures conn.History() ==> conn.Inv()
  {
    hide Started, Count, Transcript, Legal, Vouched, TlsClient.History;
  }

  /** The states that do not wait for the server. */
  predicate Speaks(st: State)
  {
    st == State.ClientKeyExchange || st == State.ChangeCipherSpec || st == AckFinished
  }

  /** Which states have something to send, what it adds to the history, and where it leads. */
  ghost predicate Replied(st0: State, st: State, log0: seq<Event>, log: seq<Event>, out: Option<seq<Byte>>, noApplData: bool,
                          requested: bool, hasKey: bool)
  {
    match st0
    case ClientKeyExchange => out.Some? ==> st == State.ServerChangeCipherSpec && ClientFlight(log0, log, requested, hasKey)
    case ChangeCipherSpec => out.Some? ==> st == Established && LastPair(log0, log)
    case AckFinished => st == Established && log == log0 && out == if noApplData then Some([0]) else None
    case _ => out.None? && st == st0 && log == log0
  }

  /** The last pair and the replies written out; the second flight is in FlightIs. */
  lemma RepliedIs(st0: State, st: State, log0: seq<Event>, log: seq<Event>, out: Option<seq<Byte>>, noApplData: bool,
                  requested: bool, hasKey: bool)
    requires Replied(st0, st, log0, log, out, noApplData, requested, hasKey)
    ensures st0 == State.ClientKeyExchange && out.Some? ==>
              st == State.ServerChangeCipherSpec && ClientFlight(log0, log, requested, hasKey)
    ensures st0 == State.ChangeCipherSpec && out.Some? ==>
              && st == Established && |log| == |log0| + 3 && log[..|log0|] == log0
              && log[|log0|] == Sent(20, [1]) && log[|log0| + 1].WriteSwitched?
              && var e := log[|log0| + 2]; e.Sent? && e.ct == 22 && e.payload != [] && e.payload[0] == 20
    ensures st0 == AckFinished ==> st == Established && log == log0 && out == if noApplData then Some([0]) else None
    ensures st0 !in {State.ClientKeyExchange, State.ChangeCipherSpec, AckFinished} ==> out.None? && st == st0 && log == log0
  {
    hide ClientFlight;
  }

  /** The flights that are sure to be sent. */
  ghost predicate CanReply(conn: TlsClient, o: Oracle)
    reads conn`state, conn`alertLevel, conn`certificateRequested, conn`dh, conn`serverRsaKey, conn`log, conn.rl`cipherSuite
  {
    (conn.state == State.ClientKeyExchange && FlightFits(conn, o))
    || (conn.state == State.ChangeCipherSpec && conn.alertLevel == 0 && FinishedSent(conn.log) == 0)
  }

  /** Nothing is left to wait for. */
  method Acknowledged(conn: TlsClient)
    requires conn.Inv() && conn.state == AckFinished
    modifies conn`state
    ensures conn.state == Established && (conn.alertLevel == 0 ==> conn.Inv()) && conn.Wf()
  {
    hide TlsClient.LayerReady, Env.Sound, Transcript, Legal, Count, Started, VerifyHash.Holds, VerifyHash.ClientDone,
         Vouched, KeyForSuite, ParamsFor;
    conn.state := Established;
  }

  /** tlsv1_client_handshake_write. */
  method HandshakeWrite(conn: TlsClient, o: Oracle, noApplData: bool) returns (out: Option<seq<Byte>>)
    requires conn.Inv() && o.Sound()
    modifies conn`masterSecret, conn`dh, conn`used, conn`alertLevel, conn`alertDescription, conn`log, conn`state
    modifies conn`sessionResumed, conn.rl`writeMacSecret, conn.rl`readMacSecret, conn.rl`writeKey, conn.rl`readKey
    modifies conn.rl`writeIv, conn.rl`readIv, conn.rl`writeCipherSuite, conn.rl`writeSeqNum, conn.rl`writeCbc
    modifies conn.rl.writeCbc, conn.verify
    ensures conn.Wf() && (conn.rl.writeCbc == old(conn.rl.writeCbc) || conn.rl.writeCbc == null || fresh(conn.rl.writeCbc))
    ensures conn.alertLevel != 0 || conn.Inv()
    ensures old(conn.state) == Failed ==> conn.state == Failed
    ensures old(conn.alertLevel) != 0 ==> conn.alertLevel != 0
    ensures Replied(old(conn.state), conn.state, old(conn.log), conn.log, out, noApplData, conn.certificateRequested,
                    conn.env.hasClientKey)
    ensures if old(conn.state == State.ClientKeyExchange || conn.state == State.ChangeCipherSpec)
            then out.None? ==> conn.alertLevel != 0 else conn.alertLevel == old(conn.alertLevel)
    ensures out.Some? ==> conn.alertLevel == old(conn.alertLevel)
    ensures old(CanReply(conn, o)) ==> out.Some?
    ensures old(conn.state) != State.ChangeCipherSpec ==> conn.sessionResumed == old(conn.sessionResumed)
    ensures old(conn.state) == State.ClientKeyExchange && out.Some? ==>
              FinishedSent(conn.log) == 1 && (Ephemeral(conn.rl.cipherSuite) ==> conn.used == old(conn.dh))
    ensures old(conn.state) != State.ClientKeyExchange ==> conn.used == old(conn.used)
    ensures old(conn.state) == State.ClientKeyExchange && out.Some? ==>
              KeysFrom(conn, old(PreMaster(conn, o))) && EndsFresh(conn.rl, out.value)
    ensures old(conn.state) == State.ChangeCipherSpec && out.Some? ==> EndsFresh(conn.rl, out.value)
    ensures old(conn.state) != State.ClientKeyExchange ==>
              && unchanged(conn`masterSecret, conn`dh, conn.rl`writeMacSecret, conn.rl`readMacSecret)
              && unchanged(conn.rl`writeKey, conn.rl`readKey, conn.rl`writeIv, conn.rl`readIv)
    ensures old(conn.state != State.ClientKeyExchange && conn.state != State.ChangeCipherSpec) ==>
              unchanged(conn.rl) && (conn.rl.writeCbc != null ==> unchanged(conn.rl.writeCbc))
    ensures !old(Speaks(conn.state)) ==> unchanged(conn)
    ensures old(conn.state != State.ClientKeyExchange && conn.rl.CanRead()) ==>
              conn.rl.CanRead() && conn.rl.Reading() == old(conn.rl.Reading())
    ensures old(conn.state == State.ChangeCipherSpec && FinishedSent(conn.log) == 1) ==>
              out.None? && conn.state == State.ChangeCipherSpec
    ensures conn.state == State.ClientHello ==> old(conn.state) == State.ClientHello && conn.dh == old(conn.dh)
  {
    hide TlsClient.Wf, TlsClient.InProgress, TlsClient.Ciphers, TlsClient.History, Oracle.Sound, Count, ClientFlight,
         LastPair, FlightFits, TlsClient.Parameters, Ephemeral, EndsFresh, Keyed, KeysFrom, PreMaster,
         RecordLayer.Reading, RecordLayer.ReadReady, RecordLayer.CanRead;
    out := None;
    match conn.state {
      case ClientKeyExchange =>
        out := SendClientKeyExchange(conn, o);
      case ChangeCipherSpec =>
        out := SendChangeCipherSpec(conn, o);
      case AckFinished =>
        Acknowledged(conn);
        if noApplData {
          out := Some([0]);
        }
      case _ =>
    }
  }

  /** tlsv1_client_send_alert: always in the clear. */
  function AlertRecord(version: nat, level: Byte, description: Byte): seq<Byte>
  {
    [CT_ALERT] + BE16(if version != 0 then version else VERSION_1_2) + BE16(2) + [level, description]
  }

  lemma AlertIs(version: nat, level: Byte, description: Byte)
    requires 0 < version < 0x1_0000
    ensures var r := AlertRecord(version, level, description);
            |r| == 7 && r[0] == 21 && BytesVal(r[1..3]) == version && r[3..] == [0, 2, level, description]
  {
    hide BytesVal;
    FieldsWritten(version);
    Arith.ModSmall(version, 0x1_0000);
    assert AlertRecord(version, level, description)[1..3] == BE16(version);
  }
}
