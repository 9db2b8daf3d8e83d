/** The messages the TLS client receives during a handshake. */
module ClientRead {
  import Arith
  import Cipher
  import opened Bytes
  import opened ClientWrite
  import opened DhParameters
  import opened Options
  import opened Record
  import opened RecordLayers
  import opened TlsClients
  import opened TlsLog

  const HS_HELLO_REQUEST: Byte := 0
  const HS_SERVER_HELLO: Byte := 2
  const HS_SERVER_KEY_EXCHANGE: Byte := 12
  const HS_CERTIFICATE_REQUEST: Byte := 13
  const HS_SERVER_HELLO_DONE: Byte := 14

  const MIDDLE_KINDS: set<Byte> := {HS_CERTIFICATE, HS_SERVER_KEY_EXCHANGE, HS_CERTIFICATE_REQUEST, HS_SERVER_HELLO_DONE}

  /** The middle of a full handshake: the client waits for the messages before its key exchange. */
  predicate Middle(st: State)
  {
    st == ServerCertificate || st == State.ServerKeyExchange || st == ServerCertificateRequest
    || st == State.ServerHelloDone || st == State.ClientKeyExchange
  }

  /** Messages of the server neither start a handshake nor end it. */
  predicate Ongoing(st: State)
  {
    st != State.ClientHello && st != Established
  }

  /** In the middle the states differ only in which message comes next. */
  lemma MiddleStates(conn: TlsClient, st: State)
    requires conn.Inv() && Middle(conn.state) && Middle(st)
    ensures Progress(st, conn.log, conn.sessionResumed, conn.useSessionTicket, conn.rl.writeCipherSuite == NULL_SUITE,
                     conn.rl.readCipherSuite == NULL_SUITE, conn.verify.ClientDone(conn.rl.tlsVersion))
  {
  }

  method Fail(conn: TlsClient, description: Byte) returns (ok: bool, len: nat)
    requires conn.Wf()
    modifies conn`alertLevel, conn`alertDescription
    ensures conn.Wf() && !ok && conn.alertLevel != 0
  {
    conn.Alert(ALERT_LEVEL_FATAL, description);
    ok, len := false, 0;
  }

  method Advance(conn: TlsClient, st: State)
    requires conn.Inv() && Middle(conn.state) && Middle(st)
    modifies conn`state
    ensures conn.Inv() && conn.state == st
  {
    hide TlsClient.LayerReady, Env.Sound, Transcript, Legal, Count, Started, VerifyHash.Holds, VerifyHash.ClientDone;
    MiddleStates(conn, st);
    conn.state := st;
  }

  /** The frame of a handshake message: type, length, body; an alert if it is not complete. */
  datatype Envelope = Malformed(alert: Byte) | Whole(kind: Byte, len: nat)

  function Unframe(ct: Byte, buf: seq<Byte>): (f: Envelope)
    ensures f.Whole? ==>
              |buf| >= 4 && 4 + f.len <= |buf| && ct == CT_HANDSHAKE && f.kind == buf[0] && f.len == GetBE24(buf[1..4])
  {
    if ct != CT_HANDSHAKE then Malformed(ALERT_UNEXPECTED_MESSAGE)
    else if |buf| < 4 then Malformed(ALERT_DECODE_ERROR)
    else if GetBE24(buf[1..4]) > |buf| - 4 then Malformed(ALERT_DECODE_ERROR)
    else Whole(buf[0], GetBE24(buf[1..4]))
  }

  // ---------------------------------------------------------------- the middle of a full handshake

  /** Where each message of the server leads in the middle of a full handshake. */
  function AfterKind(kind: Byte): State
  {
    if kind == HS_CERTIFICATE then State.ServerKeyExchange
    else if kind == HS_SERVER_KEY_EXCHANGE then ServerCertificateRequest
    else if kind == HS_CERTIFICATE_REQUEST then State.ServerHelloDone
    else State.ClientKeyExchange
  }

  /** A message of one of these kinds was taken as a whole. */
  predicate Taken(kinds: set<Byte>, buf: seq<Byte>, len: nat, st: State)
  {
    |buf| >= 4 && buf[0] in kinds && len == 4 + GetBE24(buf[1..4]) <= |buf| && st == AfterKind(buf[0])
  }

  lemma TakenIs(kinds: set<Byte>, buf: seq<Byte>, len: nat, st: State)
    ensures Taken(kinds, buf, len, st) <==>
              && |buf| >= 4 && buf[0] in kinds && len == 4 + BytesVal(buf[1..4]) <= |buf|
              && st == if buf[0] == 11 then State.ServerKeyExchange else if buf[0] == 12 then ServerCertificateRequest
                       else if buf[0] == 13 then State.ServerHelloDone else State.ClientKeyExchange
  {
    hide BytesVal, GetBE24;
    if |buf| >= 4 {
      FieldsRead(buf[1..4]);
      assert buf[1..4][..3] == buf[1..4];
    }
  }

  /** The certificates of a certificate_list, or nothing if it is malformed. */
  function CertificateList(s: seq<Byte>): Option<seq<seq<Byte>>>
    decreases |s|
  {
    if s == [] then Some([])
    else if |s| < 3 || GetBE24(s[..3]) > |s| - 3 then None
    else
      var n := GetBE24(s[..3]);
      match CertificateList(s[3 + n..])
      case None => None
      case Some(rest) => Some([s[3..3 + n]] + rest)
  }

  /** The suite is one of the ephemeral ones, the parameters are well formed, and signed if the suite wants
      that. */
  ghost predicate ParamsGood(conn: TlsClient, body: seq<Byte>)
    reads conn`serverRsaKey, conn`clientRandom, conn`serverRandom, conn.rl`cipherSuite, conn.rl`tlsVersion
  {
    var suite := SuiteData(conn.rl.cipherSuite);
    && suite.Some? && (suite.value.kx == DheRsaKx || suite.value.kx == DhAnonKx) && DhParams(body).Some?
    && (suite.value.kx == DheRsaKx ==>
          SignedProperly(conn.env, conn.rl.tlsVersion, conn.serverRsaKey, conn.clientRandom + conn.serverRandom,
                         body[..DhParams(body).value.1], body[DhParams(body).value.1..]))
  }

  /** A well-formed list of certificates that parse, with a key in the first, and a good chain. */
  ghost predicate CertificatesGood(env: Env, body: seq<Byte>)
  {
    && |body| >= 3 && GetBE24(body[..3]) == |body| - 3 && CertificateList(body[3..]).Some?
    && var chain := CertificateList(body[3..]).value;
       GoodChain(env, chain) && (|chain| > 0 ==> env.certKey(chain[0]).Some?)
  }

  /** A whole message of one of these kinds, with a body that its kind asks for. */
  ghost predicate Acceptable(conn: TlsClient, kinds: set<Byte>, ct: Byte, buf: seq<Byte>)
    reads conn`serverRsaKey, conn`clientRandom, conn`serverRandom, conn.rl`cipherSuite, conn.rl`tlsVersion
  {
    var f := Unframe(ct, buf);
    && f.Whole? && f.kind in kinds
    && (f.kind == HS_SERVER_KEY_EXCHANGE ==> ParamsGood(conn, buf[4..4 + f.len]))
    && (f.kind == HS_CERTIFICATE ==> CertificatesGood(conn.env, buf[4..4 + f.len]))
  }

  /** The same written out: a whole handshake message of one of the kinds; with kind 12 well-formed parameters for an
      ephemeral suite, under DHE_RSA with a signature over both randoms and these parameters that is right under the
      server's key and, in TLS 1.2, names RSA with SHA-256, SHA-384 or SHA-512; with kind 11 a certificate list. */
  lemma AcceptableIs(conn: TlsClient, kinds: set<Byte>, ct: Byte, buf: seq<Byte>)
    ensures Acceptable(conn, kinds, ct, buf) <==>
              && ct == 22 && |buf| >= 4 && 4 + BytesVal(buf[1..4]) <= |buf| && buf[0] in kinds
              && var body := buf[4..4 + BytesVal(buf[1..4])];
                 && (buf[0] == 12 ==>
                       && conn.rl.cipherSuite in {0x0016, 0x0018, 0x001b, 0x0033, 0x0034, 0x0039, 0x003a, 0x0067, 0x006b,
                                                  0x006c, 0x006d}
                       && DhParams(body).Some?
                       && var n := DhParams(body).value.1;
                          (conn.rl.cipherSuite in {0x0016, 0x0033, 0x0039, 0x0067, 0x006b} ==>
                             && conn.env.paramsSigned(conn.rl.tlsVersion, conn.serverRsaKey,
                                                      conn.clientRandom + conn.serverRandom, body[..n], body[n..])
                             && (conn.rl.tlsVersion == 0x0303 ==>
                                   |body| >= n + 2 && body[n] in {4, 5, 6} && body[n + 1] == 1)))
                 && (buf[0] == 11 ==>
                       && |body| >= 3 && BytesVal(body[..3]) == |body| - 3 && CertificateList(body[3..]).Some?
                       && var chain := CertificateList(body[3..]).value;
                          && conn.env.chainAlert(chain).None? && (forall i :: 0 <= i < |chain| ==> conn.env.certParses(chain[i]))
                          && (|chain| > 0 ==> conn.env.certKey(chain[0]).Some?))
  {
    hide DhParams, CertificateList, SuiteData, BytesVal, GetBE24, ParamsGood, CertificatesGood;
    if |buf| >= 4 {
      FieldsRead(buf[1..4]);
      assert buf[1..4][..3] == buf[1..4];
      if 4 + BytesVal(buf[1..4]) <= |buf| {
        var body := buf[4..4 + BytesVal(buf[1..4])];
        ParamsGoodIs(conn, body);
        CertificatesGoodIs(conn.env, body);
      }
    }
  }

  lemma ParamsGoodIs(conn: TlsClient, body: seq<Byte>)
    ensures ParamsGood(conn, body) <==>
              && conn.rl.cipherSuite in {0x0016, 0x0018, 0x001b, 0x0033, 0x0034, 0x0039, 0x003a, 0x0067, 0x006b,
                                         0x006c, 0x006d}
              && DhParams(body).Some?
              && var n := DhParams(body).value.1;
                 (conn.rl.cipherSuite in {0x0016, 0x0033, 0x0039, 0x0067, 0x006b} ==>
                    && conn.env.paramsSigned(conn.rl.tlsVersion, conn.serverRsaKey,
                                             conn.clientRandom + conn.serverRandom, body[..n], body[n..])
                    && (conn.rl.tlsVersion == 0x0303 ==>
                          |body| >= n + 2 && body[n] in {4, 5, 6} && body[n + 1] == 1))
  {
    hide DhParams, SuiteData;
    SuiteRows(conn.rl.cipherSuite);
    if SuiteData(conn.rl.cipherSuite).Some? {
      SuiteColumns(conn.rl.cipherSuite);
    }
  }

  lemma CertificatesGoodIs(env: Env, body: seq<Byte>)
    ensures CertificatesGood(env, body) <==>
              && |body| >= 3 && BytesVal(body[..3]) == |body| - 3 && CertificateList(body[3..]).Some?
              && var chain := CertificateList(body[3..]).value;
                 && env.chainAlert(chain).None? && (forall i :: 0 <= i < |chain| ==> env.certParses(chain[i]))
                 && (|chain| > 0 ==> env.certKey(chain[0]).Some?)
  {
    hide CertificateList, BytesVal, GetBE24;
    if |body| >= 3 {
      FieldsRead(body[..3]);
      assert body[..3][..3] == body[..3];
    }
  }

  /** A certificate list is read as what would be written for it. */
  lemma {:induction false} CertificateListIff(s: seq<Byte>, chain: seq<seq<Byte>>)
    ensures CertificateList(s) == Some(chain)
       <==> s == CertList(chain) && forall i :: 0 <= i < |chain| ==> |chain[i]| < 0x100_0000
    decreases |chain|
  {
    hide BE24, GetBE24;
    if chain != [] {
      var c := chain[0];
      var n := |c|;
      if |s| >= 3 + n {
        CertificateListIff(s[3 + n..], chain[1..]);
        FirstCertificate(s, c, CertList(chain[1..]));
        assert chain == [c] + chain[1..];
      }
    }
  }

  lemma FirstCertificate(s: seq<Byte>, c: seq<Byte>, rest: seq<Byte>)
    requires |s| >= 3 + |c|
    ensures s == BE24(|c|) + c + rest && |c| < 0x100_0000
       <==> GetBE24(s[..3]) == |c| && s[3..3 + |c|] == c && s[3 + |c|..] == rest
  {
    hide BytesVal;
    FieldsRead(s[..3]);
    assert s[..3][..3] == s[..3];
    FieldsWritten(|c|);
    var t := BE24(|c|) + c + rest;
    assert t[..3] == BE24(|c|) && t[3..3 + |c|] == c && t[3 + |c|..] == rest;
    assert s == s[..3] + s[3..3 + |c|] + s[3 + |c|..];
    if GetBE24(s[..3]) == |c| {
      BytesBelow(s[..3]);
      CubeOf256();
      Arith.ModSmall(|c|, 0x100_0000);
      ValFixed(s[..3]);
      ValFixed(BE24(|c|));
    }
    if s == t && |c| < 0x100_0000 {
      Arith.ModSmall(|c|, 0x100_0000);
    }
  }

  lemma CubeOf256()
    ensures Arith.Pow(256, 3) == 0x100_0000
  {
    assert Arith.Pow(256, 1) == 256;
    assert Arith.Pow(256, 2) == 0x1_0000;
    Arith.PowStep(256, 3);
  }

  /** tls_process_server_hello_done. */
  method ProcessServerHelloDone(conn: TlsClient, ct: Byte, buf: seq<Byte>) returns (ok: bool, len: nat)
    requires conn.Inv() && Middle(conn.state)
    modifies conn`alertLevel, conn`alertDescription, conn`state
    ensures conn.Wf() && (!ok ==> conn.alertLevel != 0)
    ensures ok ==> conn.Inv() && conn.state == State.ClientKeyExchange && conn.alertLevel == old(conn.alertLevel)
    ensures ok ==> ct == CT_HANDSHAKE && 0 < len <= |buf| && buf[0] == HS_SERVER_HELLO_DONE
    ensures ok ==> Taken({HS_SERVER_HELLO_DONE}, buf, len, conn.state)
    ensures ok <==> old(Acceptable(conn, {HS_SERVER_HELLO_DONE}, ct, buf))
    ensures Ongoing(conn.state)
  {
    hide TlsClient.InProgress, TlsClient.Ciphers, TlsClient.History, TlsClient.LayerReady;
    var f := Unframe(ct, buf);
    if f.Malformed? {
      ok, len := Fail(conn, f.alert);
      return;
    }
    if f.kind != HS_SERVER_HELLO_DONE {
      ok, len := Fail(conn, ALERT_UNEXPECTED_MESSAGE);
      return;
    }
    Advance(conn, State.ClientKeyExchange);
    ok, len := true, 4 + f.len;
  }

  /** tls_process_certificate_request. */
  method ProcessCertificateRequest(conn: TlsClient, ct: Byte, buf: seq<Byte>) returns (ok: bool, len: nat)
    requires conn.Inv() && Middle(conn.state)
    modifies conn`alertLevel, conn`alertDescription, conn`state, conn`certificateRequested
    ensures conn.Wf() && (!ok ==> conn.alertLevel != 0)
    ensures ok ==> conn.Inv() && Middle(conn.state) && conn.alertLevel == old(conn.alertLevel)
    ensures ok ==> ct == CT_HANDSHAKE && 0 < len <= |buf|
    ensures ok ==> Taken({HS_CERTIFICATE_REQUEST, HS_SERVER_HELLO_DONE}, buf, len, conn.state)
    ensures ok <==> old(Acceptable(conn, {HS_CERTIFICATE_REQUEST, HS_SERVER_HELLO_DONE}, ct, buf))
    ensures ok ==> conn.certificateRequested == (old(conn.certificateRequested) || buf[0] == HS_CERTIFICATE_REQUEST)
    ensures Ongoing(conn.state)
  {
    hide TlsClient.InProgress, TlsClient.Ciphers, TlsClient.History, TlsClient.LayerReady;
    var f := Unframe(ct, buf);
    if f.Malformed? {
      ok, len := Fail(conn, f.alert);
      return;
    }
    if f.kind == HS_SERVER_HELLO_DONE {
      ok, len := ProcessServerHelloDone(conn, ct, buf);
      return;
    }
    if f.kind != HS_CERTIFICATE_REQUEST {
      ok, len := Fail(conn, ALERT_UNEXPECTED_MESSAGE);
      return;
    }
    conn.certificateRequested := true;
    Advance(conn, State.ServerHelloDone);
    ok, len := true, 4 + f.len;
  }

  /** tlsv1_process_diffie_hellman. */
  method ProcessDiffieHellman(conn: TlsClient, body: seq<Byte>, kx: KeyExchange) returns (ok: bool)
    modifies conn`dh
    ensures ok <==>
              && DhParams(body).Some?
              && (kx == DheRsaKx ==>
                    SignedProperly(conn.env, conn.rl.tlsVersion, conn.serverRsaKey, conn.clientRandom + conn.serverRandom,
                                   body[..DhParams(body).value.1], body[DhParams(body).value.1..]))
    ensures conn.dh == if ok then Some(DhParams(body).value.0) else None
    ensures kx != DheRsaKx ==> (ok <==> DhParams(body).Some?)
    ensures kx == DheRsaKx ==>
              (ok <==>
                && DhParams(body).Some?
                && var n := DhParams(body).value.1;
                   && conn.env.paramsSigned(conn.rl.tlsVersion, conn.serverRsaKey, conn.clientRandom + conn.serverRandom,
                                            body[..n], body[n..])
                   && (conn.rl.tlsVersion == 0x0303 ==> |body| >= n + 2 && body[n] in {4, 5, 6} && body[n + 1] == 1))
  {
    hide DhParams;
    conn.dh := None;
    var d := DhParams(body);
    if d.None? {
      return false;
    }
    var n := d.value.1;
    if kx == DheRsaKx && !SignedProperly(conn.env, conn.rl.tlsVersion, conn.serverRsaKey,
                                         conn.clientRandom + conn.serverRandom, body[..n], body[n..]) {
      return false;
    }
    conn.dh := Some(d.value.0);
    ok := true;
  }

  /** What enters the history when signed parameters are accepted. */
  ghost function Evidence(conn: TlsClient, key: seq<Byte>, body: seq<Byte>): Event
    reads conn`clientRandom, conn`serverRandom, conn.rl`tlsVersion
  {
    ParamsAccepted(key, conn.rl.tlsVersion, conn.clientRandom + conn.serverRandom, body)
  }

  /** The parameters are in place, and if they are signed they are in the history with their key. */
  ghost predicate KeyExchangeTaken(conn: TlsClient, body: seq<Byte>)
    reads conn`dh, conn`serverRsaKey, conn`clientRandom, conn`serverRandom, conn`log
    reads conn.rl`cipherSuite, conn.rl`tlsVersion
  {
    && ParamsGood(conn, body) && DhParams(body).Some? && conn.dh == Some(DhParams(body).value.0)
    && (SignedSuite(conn.rl.cipherSuite) ==>
          && conn.serverRsaKey.Some? && |conn.log| > 0
          && conn.log[|conn.log| - 1] == Evidence(conn, conn.serverRsaKey.value, body))
  }

  lemma SignedUnderKey(conn: TlsClient, body: seq<Byte>)
    requires conn.Wf() && ParamsGood(conn, body) && SignedSuite(conn.rl.cipherSuite)
    ensures conn.serverRsaKey.Some? && SignedParams(conn.env, Evidence(conn, conn.serverRsaKey.value, body))
    ensures Brings(Evidence(conn, conn.serverRsaKey.value, body), DhParams(body).value.0,
                   conn.clientRandom + conn.serverRandom)
  {
  }

  /** Parameters or a certificate chain enter the history. */
  method Note(conn: TlsClient, ghost e: Event)
    requires conn.Wf() && conn.InProgress() && conn.Ciphers() && conn.Parameters(conn.log + [e]) && Middle(conn.state)
    requires e.ParamsAccepted? || e.ChainAccepted?
    requires conn.alertLevel == 0 ==> Legal(conn.env.hashing, conn.rl.tlsVersion, conn.masterSecret, conn.log)
                                      && conn.verify.Holds(Transcript(conn.log)) && conn.verify.Live(conn.log)
                                      && Vouched(conn.env, conn.log + [e], conn.serverRsaKey)
    modifies conn`log
    ensures conn.Inv() && conn.log == old(conn.log) + [e]
  {
    hide TlsClient.LayerReady, Env.Sound, Transcript, Legal, Count, Started, VerifyHash.Holds, VerifyHash.ClientDone,
         Vouched, KeyForSuite, Progress, TlsClient.Parameters;
    PlainEvent(conn.env.hashing, conn.rl.tlsVersion, conn.masterSecret, conn.log, e);
    assert Transcript(conn.log) + [] == Transcript(conn.log);
    QuietProgress(conn, e);
    conn.log := conn.log + [e];
  }

  /** Everything but the account of the parameters. */
  ghost predicate Unaccounted(conn: TlsClient)
    reads conn, conn.rl, conn.verify, conn.rl.writeCbc, conn.rl.readCbc
  {
    conn.Wf() && conn.InProgress() && conn.Ciphers() && Middle(conn.state) && (conn.alertLevel == 0 ==> conn.History())
  }

  lemma NewParams(conn: TlsClient, l: seq<Event>)
    requires Middle(conn.state)
    requires ParamsFor(conn.rl.cipherSuite, l, conn.dh, conn.inherited, conn.clientRandom + conn.serverRandom)
    ensures conn.Parameters(l)
  {
    hide ParamsFor;
  }

  /** The signature over the parameters was right under the server's key. */
  method NoteParams(conn: TlsClient, body: seq<Byte>)
    requires Unaccounted(conn) && SignedSuite(conn.rl.cipherSuite)
    requires ParamsGood(conn, body) && conn.dh == Some(DhParams(body).value.0)
    modifies conn`log
    ensures conn.Inv() && conn.serverRsaKey.Some?
    ensures conn.log == old(conn.log) + [Evidence(conn, conn.serverRsaKey.value, body)]
  {
    hide TlsClient.Wf, Transcript, Legal, Count, Started, VerifyHash.Holds, VerifyHash.Live, TlsClient.InProgress,
         TlsClient.Ciphers, TlsClient.Parameters, Vouched, ParamsGood, SignedParams, Brings, SignedSuite;
    SignedUnderKey(conn, body);
    ghost var e := Evidence(conn, conn.serverRsaKey.value, body);
    if conn.alertLevel == 0 {
      VouchedNext(conn.env, conn.log, conn.serverRsaKey, e);
    }
    assert Brings((conn.log + [e])[|conn.log|], conn.dh.value, conn.clientRandom + conn.serverRandom);
    NewParams(conn, conn.log + [e]);
    Note(conn, e);
  }

  lemma UnsignedParams(conn: TlsClient)
    requires Unaccounted(conn) && !SignedSuite(conn.rl.cipherSuite)
    ensures conn.Inv()
  {
    hide TlsClient.Wf, TlsClient.InProgress, TlsClient.Ciphers, TlsClient.History;
    NewParams(conn, conn.log);
  }

  /** tls_process_server_key_exchange; CertificateStatus messages are left out. */
  method ProcessServerKeyExchange(conn: TlsClient, ct: Byte, buf: seq<Byte>) returns (ok: bool, len: nat)
    requires conn.Inv() && Middle(conn.state)
    modifies conn`alertLevel, conn`alertDescription, conn`state, conn`certificateRequested, conn`dh, conn`log
    ensures conn.Wf() && (!ok ==> conn.alertLevel != 0)
    ensures ok ==> conn.Inv() && Middle(conn.state) && conn.alertLevel == old(conn.alertLevel)
    ensures ok ==> ct == CT_HANDSHAKE && 0 < len <= |buf|
    ensures ok ==> Taken({HS_SERVER_KEY_EXCHANGE, HS_CERTIFICATE_REQUEST, HS_SERVER_HELLO_DONE}, buf, len, conn.state)
    ensures ok <==> old(Acceptable(conn, {HS_SERVER_KEY_EXCHANGE, HS_CERTIFICATE_REQUEST, HS_SERVER_HELLO_DONE}, ct, buf))
    ensures ok ==> conn.certificateRequested == (old(conn.certificateRequested) || buf[0] == HS_CERTIFICATE_REQUEST)
    ensures ok && buf[0] == HS_SERVER_KEY_EXCHANGE ==> KeyExchangeTaken(conn, buf[4..len])
    ensures Ongoing(conn.state)
    ensures ok && buf[0] != HS_SERVER_KEY_EXCHANGE ==> conn.dh == old(conn.dh)
    ensures ok && buf[0] != HS_SERVER_KEY_EXCHANGE ==> conn.log == old(conn.log)
  {
    hide TlsClient.Wf, TlsClient.InProgress, TlsClient.Ciphers, TlsClient.Parameters, TlsClient.History, SuiteData, DhParams,
         SignedProperly;
    var f := Unframe(ct, buf);
    if f.Malformed? {
      ok, len := Fail(conn, f.alert);
      return;
    }
    if f.kind == HS_CERTIFICATE_REQUEST {
      ok, len := ProcessCertificateRequest(conn, ct, buf);
      return;
    }
    if f.kind == HS_SERVER_HELLO_DONE {
      ok, len := ProcessServerHelloDone(conn, ct, buf);
      return;
    }
    if f.kind != HS_SERVER_KEY_EXCHANGE {
      ok, len := Fail(conn, ALERT_UNEXPECTED_MESSAGE);
      return;
    }
    var suite := SuiteData(conn.rl.cipherSuite);
    if suite.None? || (suite.value.kx != DheRsaKx && suite.value.kx != DhAnonKx) {
      ok, len := Fail(conn, ALERT_UNEXPECTED_MESSAGE);
      return;
    }
    var done := ProcessDiffieHellman(conn, buf[4..4 + f.len], suite.value.kx);
    if !done {
      ok, len := Fail(conn, ALERT_DECODE_ERROR);
      return;
    }
    if suite.value.kx == DheRsaKx {
      NoteParams(conn, buf[4..4 + f.len]);
    } else {
      UnsignedParams(conn);
    }
    Advance(conn, ServerCertificateRequest);
    ok, len := true, 4 + f.len;
  }

  ghost predicate WalkSucceeds(env: Env, s: seq<Byte>)
  {
    && CertificateList(s).Some?
    && var chain := CertificateList(s).value;
       (forall i :: 0 <= i < |chain| ==> env.certParses(chain[i])) && (|chain| > 0 ==> env.certKey(chain[0]).Some?)
  }

  /** The walk over the certificate list: the first certificate gives the server's key. */
  method WalkCertificates(conn: TlsClient, s: seq<Byte>) returns (alert: Option<Byte>, chain: seq<seq<Byte>>)
    modifies conn`serverRsaKey
    ensures alert.None? <==> WalkSucceeds(conn.env, s)
    ensures alert.None? ==> CertificateList(s) == Some(chain)
    ensures alert.None? && |chain| > 0 ==> conn.serverRsaKey == conn.env.certKey(chain[0])
    ensures alert.None? && |chain| == 0 ==> conn.serverRsaKey == old(conn.serverRsaKey)
  {
    hide WalkSucceeds, ListFrom, CertificateList, GetBE24;
    alert, chain := None, [];
    var pos := 0;
    ListStart(s);
    while pos < |s|
      invariant 0 <= pos <= |s| && alert.None?
      invariant ListFrom(s, pos, chain)
      invariant forall i :: 0 <= i < |chain| ==> conn.env.certParses(chain[i])
      invariant |chain| > 0 ==> conn.serverRsaKey.Some? && conn.serverRsaKey == conn.env.certKey(chain[0])
      invariant |chain| == 0 ==> conn.serverRsaKey == old(conn.serverRsaKey)
    {
      if |s| - pos < 3 {
        WalkMalformed(conn.env, s, pos, chain);
        return Some(ALERT_DECODE_ERROR), [];
      }
      var n := GetBE24(s[pos..pos + 3]);
      if |s| - pos - 3 < n {
        WalkMalformed(conn.env, s, pos, chain);
        return Some(ALERT_DECODE_ERROR), [];
      }
      var cert := s[pos + 3..pos + 3 + n];
      NextCertificate(s, pos, chain, n);
      if |chain| == 0 {
        conn.serverRsaKey := conn.env.certKey(cert);
        if conn.serverRsaKey.None? {
          WalkStops(conn.env, s, pos + 3 + n, chain, cert);
          return Some(ALERT_BAD_CERTIFICATE), [];
        }
      }
      if !conn.env.certParses(cert) {
        WalkStops(conn.env, s, pos + 3 + n, chain, cert);
        return Some(ALERT_BAD_CERTIFICATE), [];
      }
      chain := chain + [cert];
      pos := pos + 3 + n;
    }
    ListDone(s, chain);
    WalkEnds(conn.env, s, chain);
  }

  lemma WalkMalformed(env: Env, s: seq<Byte>, pos: nat, chain: seq<seq<Byte>>)
    requires pos < |s| && ListFrom(s, pos, chain)
    requires |s| - pos < 3 || |s| - pos - 3 < GetBE24(s[pos..pos + 3])
    ensures !WalkSucceeds(env, s)
  {
    assert |s| - pos >= 3 ==> s[pos..][..3] == s[pos..pos + 3];
  }

  lemma WalkStops(env: Env, s: seq<Byte>, pos: nat, chain: seq<seq<Byte>>, cert: seq<Byte>)
    requires pos <= |s| && ListFrom(s, pos, chain + [cert])
    requires !env.certParses(cert) || (chain == [] && env.certKey(cert).None?)
    ensures !WalkSucceeds(env, s)
  {
    if CertificateList(s).Some? {
      assert CertificateList(s).value[|chain|] == cert;
    }
  }

  lemma WalkEnds(env: Env, s: seq<Byte>, chain: seq<seq<Byte>>)
    requires CertificateList(s) == Some(chain) && forall i :: 0 <= i < |chain| ==> env.certParses(chain[i])
    requires |chain| > 0 ==> env.certKey(chain[0]).Some?
    ensures WalkSucceeds(env, s)
  {
  }

  /** The list is what was walked so far followed by the list of the rest. */
  ghost predicate ListFrom(s: seq<Byte>, pos: nat, chain: seq<seq<Byte>>)
    requires pos <= |s|
  {
    CertificateList(s) == match CertificateList(s[pos..]) case None => None case Some(rest) => Some(chain + rest)
  }

  lemma ListStart(s: seq<Byte>)
    ensures ListFrom(s, 0, [])
  {
    assert s[0..] == s;
    if CertificateList(s).Some? {
      assert [] + CertificateList(s).value == CertificateList(s).value;
    }
  }

  lemma NextCertificate(s: seq<Byte>, pos: nat, chain: seq<seq<Byte>>, n: nat)
    requires pos + 3 + n <= |s| && ListFrom(s, pos, chain) && n == GetBE24(s[pos..pos + 3])
    ensures ListFrom(s, pos + 3 + n, chain + [s[pos + 3..pos + 3 + n]])
  {
    hide GetBE24;
    var t := s[pos..];
    assert t[..3] == s[pos..pos + 3] && t[3..3 + n] == s[pos + 3..pos + 3 + n] && t[3 + n..] == s[pos + 3 + n..];
    var rest := CertificateList(t[3 + n..]);
    if rest.Some? {
      assert chain + ([t[3..3 + n]] + rest.value) == (chain + [t[3..3 + n]]) + rest.value;
    }
  }

  lemma ListDone(s: seq<Byte>, chain: seq<seq<Byte>>)
    requires ListFrom(s, |s|, chain)
    ensures CertificateList(s) == Some(chain)
  {
    assert chain + [] == chain;
  }

  /** A well-formed list, all of it parsed and accepted, the first certificate giving the key. */
  ghost predicate CertificatesTaken(conn: TlsClient, body: seq<Byte>)
    reads conn`serverRsaKey, conn`log
  {
    && CertificatesGood(conn.env, body)
    && var chain := CertificateList(body[3..]).value;
       && |conn.log| > 0 && conn.log[|conn.log| - 1] == ChainAccepted(chain)
       && (|chain| > 0 ==> conn.serverRsaKey == conn.env.certKey(chain[0]))
  }

  /** The first certificate, if there is one, gives the server's key. */
  ghost predicate KeyTaken(conn: TlsClient, body: seq<Byte>, before: Option<seq<Byte>>)
    reads conn`serverRsaKey
  {
    && CertificatesGood(conn.env, body)
    && var chain := CertificateList(body[3..]).value;
       conn.serverRsaKey == if |chain| > 0 then conn.env.certKey(chain[0]) else before
  }

  /** Resumption is settled by the ServerHello. */
  twostate predicate SameMode(conn: TlsClient)
    reads conn`sessionResumed, conn`useSessionTicket
  {
    conn.sessionResumed == old(conn.sessionResumed) && conn.useSessionTicket == old(conn.useSessionTicket)
  }

  /** What a message is measured against: the connection before it. */
  datatype Before = Before(
    state: State, resumed: bool, ticket: bool, requested: bool, dh: Option<Dh>, inherited: Option<Dh>, used: Option<Dh>,
    key: Option<seq<Byte>>, clientRandom: seq<Byte>, serverRandom: seq<Byte>, suite: nat, version: nat)

  ghost function Now(conn: TlsClient): (b: Before)
    reads conn`state, conn`sessionResumed, conn`useSessionTicket, conn`certificateRequested, conn`dh, conn`inherited
    reads conn`used, conn`serverRsaKey, conn`clientRandom, conn`serverRandom, conn.rl`cipherSuite, conn.rl`tlsVersion
    ensures b.state == conn.state && b.ticket == conn.useSessionTicket
  {
    Before(conn.state, conn.sessionResumed, conn.useSessionTicket, conn.certificateRequested, conn.dh, conn.inherited,
           conn.used, conn.serverRsaKey, conn.clientRandom, conn.serverRandom, conn.rl.cipherSuite, conn.rl.tlsVersion)
  }

  /** What an accepted message in the middle of a full handshake does. */
  ghost predicate MiddleMoves(b: Before, conn: TlsClient, buf: seq<Byte>, len: nat)
    reads conn`state, conn`sessionResumed, conn`certificateRequested, conn`dh, conn`inherited, conn`used
    reads conn`serverRsaKey, conn`clientRandom, conn`serverRandom, conn.rl`cipherSuite, conn.rl`tlsVersion
  {
    && 4 <= |buf| && len == 4 + GetBE24(buf[1..4]) <= |buf| && buf[0] in MIDDLE_KINDS && conn.state == AfterKind(buf[0])
    && conn.sessionResumed == b.resumed && conn.rl.cipherSuite == b.suite
    && conn.inherited == b.inherited && conn.used == b.used
    && conn.clientRandom == b.clientRandom && conn.serverRandom == b.serverRandom && conn.rl.tlsVersion == b.version
    && conn.certificateRequested == (b.requested || buf[0] == HS_CERTIFICATE_REQUEST)
    && (buf[0] == HS_SERVER_KEY_EXCHANGE ==>
          DhParams(buf[4..len]).Some? && conn.dh == Some(DhParams(buf[4..len]).value.0))
    && (buf[0] != HS_SERVER_KEY_EXCHANGE ==> conn.dh == b.dh)
    && (buf[0] == HS_CERTIFICATE ==> KeyTaken(conn, buf[4..len], b.key))
    && (buf[0] != HS_CERTIFICATE ==> conn.serverRsaKey == b.key)
  }

  /** The server's key may change before its own exchange; a change is paid for with a good chain. */
  lemma NewServerKey(conn: TlsClient)
    requires conn.Inv() && Middle(conn.state)
    ensures forall key {:trigger Exchanged(conn.state, conn.log, conn.sessionResumed, conn.rl.cipherSuite, key)} ::
              Exchanged(conn.state, conn.log, conn.sessionResumed, conn.rl.cipherSuite, key)
  {
  }

  /** The body of a Certificate message. */
  method TakeCertificates(conn: TlsClient, body: seq<Byte>) returns (alert: Option<Byte>)
    requires conn.Inv() && Middle(conn.state)
    modifies conn`serverRsaKey, conn`log
    ensures conn.Wf()
    ensures alert.None? ==> conn.Inv() && CertificatesTaken(conn, body)
    ensures alert.None? <==> CertificatesGood(conn.env, body)
    ensures alert.None? ==> KeyTaken(conn, body, old(conn.serverRsaKey))
  {
    hide TlsClient.LayerReady, Env.Sound, Transcript, Legal, Count, Started, VerifyHash.Holds, TlsClient.InProgress,
         Exchanged, Vouched, GetBE24, TlsClient.Parameters;
    ghost var log, key := conn.log, conn.serverRsaKey;
    NewServerKey(conn);
    if |body| < 3 || GetBE24(body[..3]) != |body| - 3 {
      return Some(ALERT_DECODE_ERROR);
    }
    var chain;
    alert, chain := WalkCertificates(conn, body[3..]);
    if alert.None? {
      alert := conn.env.chainAlert(chain);
      if alert.None? {
        if conn.alertLevel == 0 {
          VouchedChain(conn.env, log, key, conn.serverRsaKey, chain);
        }
        ParametersKept(conn, ChainAccepted(chain));
        Note(conn, ChainAccepted(chain));
      }
    }
  }

  /** tls_process_certificate. */
  method ProcessCertificate(conn: TlsClient, ct: Byte, buf: seq<Byte>) returns (ok: bool, len: nat)
    requires conn.Inv() && Middle(conn.state)
    modifies conn`alertLevel, conn`alertDescription, conn`state, conn`certificateRequested, conn`dh
    modifies conn`serverRsaKey, conn`log
    ensures conn.Wf() && (!ok ==> conn.alertLevel != 0)
    ensures ok ==> conn.Inv() && Middle(conn.state) && conn.alertLevel == old(conn.alertLevel)
    ensures ok ==> ct == CT_HANDSHAKE && 0 < len <= |buf|
    ensures ok ==> Taken(MIDDLE_KINDS, buf, len, conn.state)
    ensures ok <==> old(Acceptable(conn, MIDDLE_KINDS, ct, buf))
    ensures ok ==> conn.certificateRequested == (old(conn.certificateRequested) || buf[0] == HS_CERTIFICATE_REQUEST)
    ensures ok && buf[0] == HS_SERVER_KEY_EXCHANGE ==> KeyExchangeTaken(conn, buf[4..len])
    ensures ok && buf[0] == HS_CERTIFICATE ==> CertificatesTaken(conn, buf[4..len])
    ensures ok && buf[0] == HS_CERTIFICATE ==> KeyTaken(conn, buf[4..len], old(conn.serverRsaKey))
    ensures ok && buf[0] != HS_CERTIFICATE ==> conn.serverRsaKey == old(conn.serverRsaKey)
    ensures Ongoing(conn.state)
    ensures ok && buf[0] != HS_SERVER_KEY_EXCHANGE ==> conn.dh == old(conn.dh)
    ensures ok && buf[0] != HS_CERTIFICATE && buf[0] != HS_SERVER_KEY_EXCHANGE ==> conn.log == old(conn.log)
  {
    hide TlsClient.InProgress, TlsClient.Ciphers, TlsClient.History, TlsClient.LayerReady, CertificatesTaken,
         KeyExchangeTaken, GetBE24, KeyTaken, ParamsGood, CertificatesGood, TlsClient.Wf, TlsClient.Parameters;
    var f := Unframe(ct, buf);
    if f.Malformed? {
      ok, len := Fail(conn, f.alert);
      return;
    }
    if f.kind == HS_SERVER_KEY_EXCHANGE {
      ok, len := ProcessServerKeyExchange(conn, ct, buf);
      return;
    }
    if f.kind == HS_CERTIFICATE_REQUEST {
      ok, len := ProcessCertificateRequest(conn, ct, buf);
      return;
    }
    if f.kind == HS_SERVER_HELLO_DONE {
      ok, len := ProcessServerHelloDone(conn, ct, buf);
      return;
    }
    if f.kind != HS_CERTIFICATE {
      ok, len := Fail(conn, ALERT_UNEXPECTED_MESSAGE);
      return;
    }
    var alert := TakeCertificates(conn, buf[4..4 + f.len]);
    if alert.Some? {
      ok, len := Fail(conn, alert.value);
      return;
    }
    Advance(conn, State.ServerKeyExchange);
    ok, len := true, 4 + f.len;
  }

  // ---------------------------------------------------------------- ServerHello

  /** Nothing but handshake messages so far; what ServerHello processing keeps whatever it assigns. */
  ghost predicate Opening(conn: TlsClient)
    reads conn`log, conn`alertLevel, conn`serverRsaKey, conn`sessionId, conn`clientRandom, conn`serverRandom
    reads conn`masterSecret, conn`dh, conn`inherited, conn.rl, conn.verify, conn.rl.writeCbc, conn.rl.readCbc
  {
    && conn.Wf() && NULL_SUITE !in conn.cipherSuites && Started(conn.log)
    && CcsSent(conn.log) == 0 && FinishedSent(conn.log) == 0 && ReadSwitches(conn.log) == 0 && Matches(conn.log) == 0
    && conn.rl.writeCipherSuite == NULL_SUITE && conn.rl.readCipherSuite == NULL_SUITE
    && conn.dh == conn.inherited
    && (conn.alertLevel == 0 ==> conn.verify.Holds(Transcript(conn.log)) && conn.verify.Live(conn.log)
                                 && Vouched(conn.env, conn.log, conn.serverRsaKey))
  }

  lemma OpeningState(conn: TlsClient)
    requires conn.Inv() && conn.state == State.ServerHello
    ensures Opening(conn) && !conn.sessionResumed
  {
  }

  /** From there either continuation is in order once a suite is configured. */
  lemma OpeningDone(conn: TlsClient)
    requires Opening(conn) && conn.rl.cipherSuite != NULL_SUITE && conn.rl.cipherAlg != Cipher.Null
    requires if conn.state == ServerChangeCipherSpec then conn.sessionResumed || conn.useSessionTicket
             else conn.state == ServerCertificate && !conn.useSessionTicket
    ensures conn.Inv()
  {
    LegalAnySecret(conn);
  }

  /** TLS 1.0 and 1.2, unless they are switched off. */
  predicate AllowedVersion(conn: TlsClient, version: nat)
  {
    (version == VERSION_1 && !conn.disable10) || (version == VERSION_1_2 && !conn.disable12)
  }

  /** The extensions are only walked. */
  function ExtensionsOk(s: seq<Byte>): bool
    decreases |s|
  {
    s == [] || (|s| >= 4 && GetBE16(s[2..4]) <= |s| - 4 && ExtensionsOk(s[4 + GetBE16(s[2..4])..]))
  }

  /** What follows the cipher suite: null compression, then nothing or one block of extensions. */
  function TailAlert(s: seq<Byte>): Option<Byte>
  {
    if |s| < 1 then Some(ALERT_DECODE_ERROR)
    else if s[0] != 0 then Some(ALERT_ILLEGAL_PARAMETER)
    else if |s| == 1 then None
    else if |s| == 2 then Some(ALERT_DECODE_ERROR)
    else
      var n := GetBE16(s[1..3]);
      if |s| - 3 != n || !ExtensionsOk(s[3..]) then Some(ALERT_DECODE_ERROR) else None
  }

  /** The server took up the session that was offered. */
  predicate Resumes(conn: TlsClient, body: seq<Byte>)
    requires |body| >= 35 && 35 + body[34] <= |body|
    reads conn`sessionId
  {
    conn.sessionId != [] && conn.sessionId == body[35..35 + body[34]]
  }

  /** The cipher suite of a ServerHello body. */
  function SuiteIn(body: seq<Byte>): nat
    requires |body| >= 35 && 37 + body[34] <= |body|
  {
    GetBE16(body[35 + body[34]..37 + body[34]])
  }

  /** The ServerHello bodies that are accepted: an allowed version, a session identifier of at most 32 octets,
      an offered and known suite, which must be the old one when the session is resumed, and a proper rest. */
  ghost predicate HelloGood(conn: TlsClient, body: seq<Byte>)
    reads conn`sessionId, conn`prevCipherSuite
  {
    && |body| >= 35 && body[34] <= 32 && 37 + body[34] <= |body| && AllowedVersion(conn, GetBE16(body[..2]))
    && var suite := SuiteIn(body);
       && suite in conn.cipherSuites && SuiteData(suite).Some? && (Resumes(conn, body) ==> suite == conn.prevCipherSuite)
       && TailAlert(body[37 + body[34]..]).None?
  }

  /** The accepted bodies written out; extensions follow. */
  lemma HelloGoodIs(conn: TlsClient, body: seq<Byte>)
    ensures HelloGood(conn, body) <==>
              && |body| >= 35 && body[34] <= 32 && 37 + body[34] <= |body|
              && var version, n: nat := BytesVal(body[..2]), body[34];
                 && ((version == 0x0301 && !conn.disable10) || (version == 0x0303 && !conn.disable12))
                 && var suite, rest := BytesVal(body[35 + n..37 + n]), body[37 + n..];
                    && suite in conn.cipherSuites
                    && suite in {0x0000, 0x0004, 0x0005, 0x000a, 0x0016, 0x0018, 0x001b, 0x002f, 0x0033, 0x0034, 0x0035,
                                 0x0039, 0x003a, 0x003c, 0x003d, 0x0067, 0x006b, 0x006c, 0x006d}
                    && (conn.sessionId != [] && conn.sessionId == body[35..35 + n] ==> suite == conn.prevCipherSuite)
                    && |rest| >= 1 && rest[0] == 0
                    && (|rest| == 1 || (|rest| >= 3 && BytesVal(rest[1..3]) == |rest| - 3 && ExtensionsOk(rest[3..])))
  {
    hide BytesVal, GetBE16, SuiteData, ExtensionsOk;
    if |body| >= 35 && body[34] <= 32 && 37 + body[34] <= |body| {
      var n: nat := body[34];
      var rest := body[37 + n..];
      FieldIs(body[..2]);
      FieldIs(body[35 + n..37 + n]);
      SuiteRows(SuiteIn(body));
      if |rest| >= 3 {
        FieldIs(rest[1..3]);
      }
    }
  }

  lemma FieldIs(s: seq<Byte>)
    requires |s| == 2
    ensures GetBE16(s) == BytesVal(s)
  {
    FieldsRead(s);
    assert s[..2] == s;
  }

  /** Extensions are any number of entries, each a type and contents with their length in front. */
  lemma ExtensionsAre(s: seq<Byte>)
    ensures ExtensionsOk(s) <==>
              s == [] || (|s| >= 4 && BytesVal(s[2..4]) <= |s| - 4 && ExtensionsOk(s[4 + BytesVal(s[2..4])..]))
  {
    hide BytesVal, GetBE16;
    if |s| >= 4 {
      FieldIs(s[2..4]);
    }
  }

  /** Version and random of a ServerHello body. */
  method TakeVersion(conn: TlsClient, body: seq<Byte>) returns (alert: Option<Byte>)
    requires Opening(conn)
    modifies conn.rl`tlsVersion, conn`serverRandom
    ensures Opening(conn) && (alert.None? <==> |body| >= 34 && AllowedVersion(conn, GetBE16(body[..2])))
    ensures alert.None? ==> conn.rl.tlsVersion == GetBE16(body[..2]) && conn.serverRandom == body[2..34]
  {
    hide Env.Sound, Count, Started, VerifyHash.Holds, Transcript, GetBE16, Cipher.CryptoCipher.Valid, Primitives.Sound;
    if |body| < 2 {
      return Some(ALERT_DECODE_ERROR);
    }
    var version := GetBE16(body[..2]);
    if !AllowedVersion(conn, version) {
      return Some(ALERT_PROTOCOL_VERSION);
    }
    conn.rl.tlsVersion := version;
    if |body| - 2 < 32 {
      return Some(ALERT_DECODE_ERROR);
    }
    conn.serverRandom := body[2..34];
    alert := None;
  }

  /** The session identifier: the one offered means resumption, any other is remembered. */
  method TakeSession(conn: TlsClient, body: seq<Byte>) returns (alert: Option<Byte>, pos: nat)
    requires Opening(conn) && |body| >= 34
    modifies conn`sessionId, conn`sessionResumed
    ensures Opening(conn) && (alert.None? <==> |body| >= 35 && body[34] <= 32 && 35 + body[34] <= |body|)
    ensures alert.None? ==> pos == 35 + body[34] && conn.sessionId == body[35..pos]
    ensures alert.None? ==> conn.sessionResumed == (old(conn.sessionResumed) || old(Resumes(conn, body)))
  {
    hide Env.Sound, Count, Started, VerifyHash.Holds, Transcript, TlsClient.LayerReady;
    pos := 34;
    if |body| - pos < 1 {
      return Some(ALERT_DECODE_ERROR), pos;
    }
    var n: nat := body[pos];
    if |body| - pos < 1 + n || n > 32 {
      return Some(ALERT_DECODE_ERROR), pos;
    }
    if |conn.sessionId| > 0 && |conn.sessionId| == n && conn.sessionId == body[35..35 + n] {
      conn.sessionResumed := true;
    } else {
      conn.sessionId := body[35..35 + n];
    }
    pos := 35 + n;
    alert := None;
  }

  /** The cipher suite must be one that was offered, and a resumed session must keep its own. */
  method TakeSuite(conn: TlsClient, body: seq<Byte>, pos0: nat) returns (alert: Option<Byte>, pos: nat)
    requires Opening(conn) && pos0 <= |body|
    modifies conn.rl, conn`prevCipherSuite
    ensures Opening(conn) && conn.rl.writeCbc == old(conn.rl.writeCbc) && conn.rl.readCbc == old(conn.rl.readCbc)
    ensures conn.rl.tlsVersion == old(conn.rl.tlsVersion)
    ensures alert.None? <==>
              && pos0 + 2 <= |body|
              && var suite := GetBE16(body[pos0..pos0 + 2]);
                 suite in conn.cipherSuites && SuiteData(suite).Some?
                 && (conn.sessionResumed ==> suite == old(conn.prevCipherSuite))
    ensures alert.None? ==>
              pos == pos0 + 2 && conn.rl.cipherSuite == GetBE16(body[pos0..pos]) && conn.rl.cipherAlg != Cipher.Null
              && conn.rl.Configured()
  {
    hide Env.Sound, Count, Started, VerifyHash.Holds, Transcript, GetBE16, SuiteData, Primitives.Sound;
    pos := pos0;
    if |body| - pos < 2 {
      return Some(ALERT_DECODE_ERROR), pos;
    }
    var suite := GetBE16(body[pos..pos + 2]);
    pos := pos + 2;
    var i := 0;
    while i < |conn.cipherSuites| && suite != conn.cipherSuites[i]
      invariant 0 <= i <= |conn.cipherSuites| && suite !in conn.cipherSuites[..i]
    {
      i := i + 1;
    }
    if i == |conn.cipherSuites| {
      return Some(ALERT_ILLEGAL_PARAMETER), pos;
    }
    if conn.sessionResumed && suite != conn.prevCipherSuite {
      return Some(ALERT_ILLEGAL_PARAMETER), pos;
    }
    var done := conn.rl.SetCipherSuite(suite);
    if !done {
      return Some(ALERT_INTERNAL_ERROR), pos;
    }
    conn.prevCipherSuite := suite;
    alert := None;
  }

  /** What is taken from an accepted body: version, random, session identifier and suite. */
  ghost predicate HelloTaken(conn: TlsClient, body: seq<Byte>)
    reads conn`serverRandom, conn`sessionId, conn.rl`tlsVersion, conn.rl`cipherSuite, conn.rl`cipherAlg
    reads conn.rl`keyMaterialLen, conn.rl`ivSize, conn.rl`macAlg, conn.rl`hashSize
  {
    && |body| >= 35 && 37 + body[34] <= |body| && conn.rl.tlsVersion == GetBE16(body[..2])
    && conn.serverRandom == body[2..34] && conn.sessionId == body[35..35 + body[34]]
    && conn.rl.cipherSuite == SuiteIn(body) && conn.rl.Configured()
  }

  /** The fields of a ServerHello in their order. */
  method TakeHello(conn: TlsClient, body: seq<Byte>) returns (alert: Option<Byte>)
    requires Opening(conn) && !conn.sessionResumed
    modifies conn`serverRandom, conn`sessionId, conn`sessionResumed, conn`prevCipherSuite, conn.rl
    ensures Opening(conn) && conn.rl.writeCbc == old(conn.rl.writeCbc) && conn.rl.readCbc == old(conn.rl.readCbc)
    ensures alert.None? <==> old(HelloGood(conn, body))
    ensures alert.None? ==> HelloTaken(conn, body) && conn.sessionResumed == old(Resumes(conn, body))
    ensures alert.None? ==> conn.rl.cipherSuite in conn.cipherSuites && conn.rl.cipherAlg != Cipher.Null
  {
    hide Opening, TailAlert, GetBE16, SuiteData, AllowedVersion;
    alert := TakeVersion(conn, body);
    if alert.Some? {
      return;
    }
    var pos;
    alert, pos := TakeSession(conn, body);
    if alert.Some? {
      return;
    }
    alert, pos := TakeSuite(conn, body, pos);
    if alert.Some? {
      return;
    }
    alert := TailAlert(body[pos..]);
  }

  /** The callback fails the handshake. */
  predicate TicketRefused(conn: TlsClient, o: Oracle)
  {
    conn.AsksTicket() && o.ticket < 0
  }

  /** The callback decides if there is one to ask; otherwise the flag stays what it was. */
  predicate TicketUsed(conn: TlsClient, o: Oracle, before: bool)
  {
    if conn.AsksTicket() then o.ticket != 0 else before
  }

  /** The session ticket callback, when a ticket was offered: it may set the master secret, and says whether
      the ticket is in use. */
  method AskTicket(conn: TlsClient, o: Oracle) returns (ok: bool)
    requires Opening(conn) && o.Sound()
    modifies conn`masterSecret, conn`useSessionTicket
    ensures Opening(conn)
    ensures ok <==> !TicketRefused(conn, o)
    ensures ok ==> conn.useSessionTicket == TicketUsed(conn, o, old(conn.useSessionTicket))
  {
    hide Env.Sound, Count, Started, VerifyHash.Holds, Transcript, TlsClient.LayerReady;
    if conn.AsksTicket() {
      conn.masterSecret := o.ticketSecret;
      if o.ticket < 0 {
        return false;
      }
      conn.useSessionTicket := o.ticket != 0;
    }
    ok := true;
  }

  /** A whole ServerHello message with an acceptable body, unless the ticket callback fails the handshake. */
  ghost predicate OpeningGood(conn: TlsClient, ct: Byte, buf: seq<Byte>, o: Oracle)
    reads conn`sessionId, conn`prevCipherSuite
  {
    var f := Unframe(ct, buf);
    f.Whole? && f.kind == HS_SERVER_HELLO && HelloGood(conn, buf[4..4 + f.len]) && !TicketRefused(conn, o)
  }

  /** The body of a ServerHello, and where it leads: with a session or a ticket in use the keys are there. */
  method FollowHello(conn: TlsClient, body: seq<Byte>, o: Oracle) returns (alert: Option<Byte>)
    requires conn.Inv() && o.Sound() && conn.state == State.ServerHello
    modifies conn`state, conn`serverRandom, conn`sessionId, conn`sessionResumed
    modifies conn`prevCipherSuite, conn`masterSecret, conn`useSessionTicket, conn.rl
    ensures conn.Wf() && conn.rl.writeCbc == old(conn.rl.writeCbc) && conn.rl.readCbc == old(conn.rl.readCbc)
    ensures alert.None? <==> old(HelloGood(conn, body)) && !TicketRefused(conn, o)
    ensures alert.None? ==>
              && conn.Inv() && HelloTaken(conn, body) && conn.sessionResumed == old(Resumes(conn, body))
              && conn.useSessionTicket == TicketUsed(conn, o, old(conn.useSessionTicket))
              && conn.state == (if conn.sessionResumed || conn.useSessionTicket then ServerChangeCipherSpec else ServerCertificate)
              && (conn.state == ServerChangeCipherSpec ==> Keyed(conn))
    ensures Ongoing(conn.state)
  {
    hide TlsClient.Wf, HelloGood, Resumes, Opening, TailAlert, GetBE16, TlsClient.InProgress, TlsClient.Ciphers,
         TlsClient.History, TlsClient.LayerReady, RecordLayer.KeyedBy, Oracle.Sound, TlsClient.Parameters, Keyed,
         ReadsFresh, RecordLayer.Configured, TlsClient.Inv, TicketUsed;
    OpeningState(conn);
    alert := TakeHello(conn, body);
    OpeningWf(conn);
    if alert.Some? {
      return;
    }
    var done := AskTicket(conn, o);
    OpeningWf(conn);
    if !done {
      return Some(ALERT_HANDSHAKE_FAILURE);
    }
    if conn.sessionResumed || conn.useSessionTicket {
      KeysWhileOpening(conn);
    }
    conn.state := if conn.sessionResumed || conn.useSessionTicket then ServerChangeCipherSpec else ServerCertificate;
    OpeningDone(conn);
  }

  /** A ServerHello message that would take up the session offered. */
  ghost predicate WouldResume(conn: TlsClient, buf: seq<Byte>)
    reads conn`sessionId, conn`prevCipherSuite
  {
    && |buf| >= 4 && 4 + GetBE24(buf[1..4]) <= |buf|
    && var body := buf[4..4 + GetBE24(buf[1..4])];
       HelloGood(conn, body) && Resumes(conn, body)
  }

  /** What an accepted ServerHello does. */
  ghost predicate HelloMoves(b: Before, resumes: bool, conn: TlsClient, buf: seq<Byte>, len: nat, o: Oracle)
    reads conn`state, conn`sessionResumed, conn`useSessionTicket, conn`certificateRequested, conn`dh, conn`inherited
    reads conn`used, conn`clientRandom, conn`serverRandom, conn`sessionId, conn.rl`cipherSuite, conn.rl`tlsVersion
    reads conn.rl`cipherAlg, conn.rl`keyMaterialLen, conn.rl`ivSize, conn.rl`macAlg, conn.rl`hashSize
  {
    && 4 <= len <= |buf| && len == 4 + GetBE24(buf[1..4]) && HelloTaken(conn, buf[4..len])
    && conn.sessionResumed == resumes && conn.useSessionTicket == TicketUsed(conn, o, b.ticket)
    && conn.state == (if conn.sessionResumed || conn.useSessionTicket then ServerChangeCipherSpec else ServerCertificate)
    && conn.certificateRequested == b.requested && conn.dh == b.dh
    && conn.inherited == b.inherited && conn.used == b.used && conn.clientRandom == b.clientRandom
  }

  /** tls_process_server_hello. */
  method ProcessServerHello(conn: TlsClient, ct: Byte, buf: seq<Byte>, o: Oracle) returns (ok: bool, len: nat)
    requires conn.Inv() && o.Sound() && conn.state == State.ServerHello
    modifies conn`alertLevel, conn`alertDescription, conn`state, conn`serverRandom, conn`sessionId, conn`sessionResumed
    modifies conn`prevCipherSuite, conn`masterSecret, conn`useSessionTicket, conn.rl
    ensures conn.Wf() && conn.rl.writeCbc == old(conn.rl.writeCbc) && conn.rl.readCbc == old(conn.rl.readCbc)
    ensures !ok ==> conn.alertLevel != 0
    ensures ok ==> conn.Inv() && conn.alertLevel == old(conn.alertLevel) && 0 < len <= |buf| && ct == CT_HANDSHAKE
    ensures ok ==>
              conn.state == if conn.sessionResumed || conn.useSessionTicket then ServerChangeCipherSpec else ServerCertificate
    ensures ok <==> old(OpeningGood(conn, ct, buf, o))
    ensures ok ==> |buf| >= 4 && buf[0] == HS_SERVER_HELLO && len == 4 + GetBE24(buf[1..4])
    ensures ok ==> HelloMoves(old(Now(conn)), old(WouldResume(conn, buf)), conn, buf, len, o)
    ensures ok && conn.state == ServerChangeCipherSpec ==> Keyed(conn)
    ensures ok ==> len == Extent(ct, buf)
    ensures Ongoing(conn.state)
  {
    hide HelloGood, HelloTaken, Resumes, GetBE24, Opening, TlsClient.InProgress, TlsClient.Ciphers, TlsClient.History,
         TlsClient.LayerReady, RecordLayer.KeyedBy, Oracle.Sound, Keyed, ReadsFresh, RecordLayer.Configured,
         TlsClient.Wf, TicketUsed, TicketRefused, GetBE16, SuiteIn, TlsClient.Parameters, TlsClient.AsksTicket,
         RecordLayer.Settings;
    var f := Unframe(ct, buf);
    if f.Malformed? && ct == CT_HANDSHAKE && |buf| >= 4 && buf[0] != HS_SERVER_HELLO {
      ok, len := Fail(conn, ALERT_UNEXPECTED_MESSAGE);
      return;
    }
    if f.Malformed? {
      ok, len := Fail(conn, f.alert);
      return;
    }
    if f.kind != HS_SERVER_HELLO {
      ok, len := Fail(conn, ALERT_UNEXPECTED_MESSAGE);
      return;
    }
    var alert := FollowHello(conn, buf[4..4 + f.len], o);
    if alert.Some? {
      ok, len := Fail(conn, alert.value);
      return;
    }
    ok, len := true, 4 + f.len;
  }

  lemma OpeningWf(conn: TlsClient)
    requires Opening(conn)
    ensures conn.Wf() && NULL_SUITE !in conn.cipherSuites
  {
  }

  method KeysWhileOpening(conn: TlsClient)
    requires Opening(conn)
    modifies conn`masterSecret
    modifies conn.rl`writeMacSecret, conn.rl`readMacSecret, conn.rl`writeKey, conn.rl`readKey
    modifies conn.rl`writeIv, conn.rl`readIv
    ensures Opening(conn) && Keyed(conn)
  {
    hide Count, Started, VerifyHash.Holds, Transcript, TlsClient.LayerReady, RecordLayer.KeyedBy, Env.Sound, Vouched;
    DeriveKeys(conn, None);
  }

  // ---------------------------------------------------------------- ChangeCipherSpec and Finished

  /** A handshake message of the server that was accepted joins transcript and history. */
  method Accept(conn: TlsClient, m: seq<Byte>)
    requires conn.Inv() && conn.state != State.ClientHello
    modifies conn`log, conn.verify
    ensures conn.Inv() && conn.log == old(conn.log) + [Accepted(m)]
  {
    hide Env.Sound, TlsClient.LayerReady, Legal, Count, Transcript, Started, Vouched, KeyForSuite, Progress,
         VerifyHash.Holds, VerifyHash.Live, VerifyHash.ClientDone, TlsClient.Parameters;
    ParametersKept(conn, Accepted(m));
    PlainEvent(conn.env.hashing, conn.rl.tlsVersion, conn.masterSecret, conn.log, Accepted(m));
    QuietProgress(conn, Accepted(m));
    StillVouched(conn, Accepted(m));
    conn.verify.Add(m, Transcript(conn.log));
    conn.log := conn.log + [Accepted(m)];
  }

  /** The server answered a session ticket with something else than ChangeCipherSpec: back to a full
      handshake. */
  method TicketFallback(conn: TlsClient, o: Oracle) returns (ok: bool)
    requires conn.Inv() && conn.state == ServerChangeCipherSpec && conn.useSessionTicket
    modifies conn`useSessionTicket, conn`state
    ensures conn.Wf() && (ok <==> o.fallback >= 0)
    ensures ok ==> conn.Inv() && conn.state == ServerCertificate && !conn.useSessionTicket
    ensures Ongoing(conn.state)
  {
    hide Env.Sound, TlsClient.LayerReady, Legal, Count, Transcript, Started, VerifyHash.Holds, VerifyHash.ClientDone;
    conn.useSessionTicket := false;
    if o.fallback < 0 {
      return false;
    }
    conn.state := ServerCertificate;
    ok := true;
  }

  /** The read cipher changes. */
  method TakeChangeCipherSpec(conn: TlsClient)
    requires conn.Inv() && conn.state == ServerChangeCipherSpec
    modifies conn`log, conn`state, conn.rl`readCipherSuite, conn.rl`readSeqNum, conn.rl`readCbc
    ensures conn.Inv() && conn.state == State.ServerFinished && conn.log == old(conn.log) + [ReadSwitched]
    ensures ReadsFresh(conn.rl) && (conn.rl.readCbc == null || fresh(conn.rl.readCbc))
  {
    hide Env.Sound, TlsClient.LayerReady, Legal, Count, Transcript, Started, VerifyHash.Holds, VerifyHash.ClientDone,
         ReadsFresh;
    PlainEvent(conn.env.hashing, conn.rl.tlsVersion, conn.masterSecret, conn.log, ReadSwitched);
    assert Transcript(conn.log) + [] == Transcript(conn.log);
    StillVouched(conn, ReadSwitched);
    ParametersKept(conn, ReadSwitched);
    var done := conn.SwitchRead();
    conn.state := State.ServerFinished;
  }

  /** tls_process_server_change_cipher_spec. */
  method ProcessServerChangeCipherSpec(conn: TlsClient, ct: Byte, buf: seq<Byte>, o: Oracle) returns (ok: bool, len: nat)
    requires conn.Inv() && conn.state == ServerChangeCipherSpec
    modifies conn`alertLevel, conn`alertDescription, conn`state, conn`certificateRequested, conn`dh, conn`serverRsaKey
    modifies conn`useSessionTicket, conn`log, conn.rl`readCipherSuite, conn.rl`readSeqNum, conn.rl`readCbc
    ensures conn.Wf() && (conn.rl.readCbc == old(conn.rl.readCbc) || conn.rl.readCbc == null || fresh(conn.rl.readCbc))
    ensures !ok ==> conn.alertLevel != 0
    ensures ok ==> conn.Inv() && conn.alertLevel == old(conn.alertLevel) && 0 < len <= |buf| && conn.state != State.ClientHello
    ensures ok <==> if ct == CT_CHANGE_CIPHER_SPEC then |buf| > 0 && buf[0] == 1
                    else old(conn.useSessionTicket) && o.fallback >= 0 && old(Acceptable(conn, MIDDLE_KINDS, ct, buf))
    ensures ok && ct == CT_CHANGE_CIPHER_SPEC ==> len == 1 && SameMode(conn) && ReadsFresh(conn.rl)
    ensures ok && ct != CT_CHANGE_CIPHER_SPEC ==> MiddleMoves(old(Now(conn)), conn, buf, len) && unchanged(conn.rl)
    ensures ok ==> if ct == CT_CHANGE_CIPHER_SPEC
                   then conn.state == State.ServerFinished && conn.log == old(conn.log) + [ReadSwitched]
                   else old(conn.useSessionTicket) && Middle(conn.state) && !conn.useSessionTicket
                        && ct == CT_HANDSHAKE && Taken(MIDDLE_KINDS, buf, len, conn.state)
    ensures Ongoing(conn.state)
  {
    hide TlsClient.Wf, TlsClient.InProgress, TlsClient.Ciphers, TlsClient.History, TlsClient.LayerReady, Acceptable,
         CertificatesTaken, TlsClient.Parameters, CertificatesGood, ParamsGood, DhParams, Keyed, ReadsFresh;
    if ct != CT_CHANGE_CIPHER_SPEC {
      if conn.useSessionTicket {
        ok := TicketFallback(conn, o);
        if !ok {
          ok, len := Fail(conn, ALERT_HANDSHAKE_FAILURE);
          return;
        }
        ok, len := ProcessCertificate(conn, ct, buf);
        return;
      }
      ok, len := Fail(conn, ALERT_UNEXPECTED_MESSAGE);
      return;
    }
    if |buf| < 1 {
      ok, len := Fail(conn, ALERT_DECODE_ERROR);
      return;
    }
    if buf[0] != 1 {
      ok, len := Fail(conn, ALERT_UNEXPECTED_MESSAGE);
      return;
    }
    TakeChangeCipherSpec(conn);
    ok, len := true, 1;
  }

  /** The server's Finished matched. */
  lemma MatchEvent(h: Hashing, version: nat, master: seq<Byte>, log: seq<Event>, verifyData: seq<Byte>)
    ensures var l := log + [Matched(verifyData)];
            && CcsSent(l) == CcsSent(log) && FinishedSent(l) == FinishedSent(log)
            && ReadSwitches(l) == ReadSwitches(log) && Matches(l) == Matches(log) + 1
            && Transcript(l) == Transcript(log) && (Started(log) ==> Started(l))
            && (Legal(h, version, master, log) && ReadSwitches(log) > 0
                && verifyData == VerifyData(h, version, master, "server finished", Transcript(log))
                ==> Legal(h, version, master, l))
  {
    hide Legal, Count, Transcript, VerifyData, Started;
    Append(log, Matched(verifyData));
    assert Transcript(log) + [] == Transcript(log);
    if Legal(h, version, master, log) && ReadSwitches(log) > 0
       && verifyData == VerifyData(h, version, master, "server finished", Transcript(log)) {
      AppendLegal(h, version, master, log, Matched(verifyData));
    }
  }

  /** The verify_data the client expects; the hash contexts behind it are used up. */
  method Expected(conn: TlsClient) returns (verifyData: Option<seq<Byte>>)
    requires conn.Inv() && conn.state == State.ServerFinished
    modifies conn.verify`md5Server, conn.verify`sha1Server, conn.verify`sha256Server
    ensures conn.Wf() && conn.InProgress() && conn.Ciphers() && conn.Parameters(conn.log)
    ensures conn.alertLevel == 0 ==> Summed(conn)
    ensures conn.alertLevel == 0 ==>
              verifyData == Some(VerifyData(conn.env.hashing, conn.rl.tlsVersion, conn.masterSecret, "server finished",
                                            Transcript(conn.log)))
  {
    hide Env.Sound, TlsClient.LayerReady, Legal, Count, Transcript, VerifyHash.Holds, Digest, Vouched,
         TlsClient.Ciphers, Started, VerifyHash.ClientDone, TlsClient.Parameters;
    var digest := conn.verify.FinishServer(conn.env.hashing, conn.rl.tlsVersion, Transcript(conn.log));
    if digest.None? {
      return None;
    }
    verifyData := Some(conn.env.hashing.prf(conn.rl.tlsVersion, conn.masterSecret, "server finished", digest.value,
                                            VERIFY_DATA_LEN));
  }

  /** A history whose server contexts are used up. */
  ghost predicate Summed(conn: TlsClient)
    reads conn`masterSecret, conn`log, conn`serverRsaKey, conn.rl`tlsVersion, conn.verify
  {
    && Legal(conn.env.hashing, conn.rl.tlsVersion, conn.masterSecret, conn.log) && conn.verify.Holds(Transcript(conn.log))
    && (FinishedSent(conn.log) == 0 ==> conn.verify.md5Client.Some? && conn.verify.sha256Client.Some?)
    && Vouched(conn.env, conn.log, conn.serverRsaKey)
  }

  /** The verify_data is the one that was expected. */
  method TakeMatch(conn: TlsClient, received: seq<Byte>)
    requires conn.Wf() && conn.InProgress() && conn.Ciphers() && conn.Parameters(conn.log)
    requires conn.state == State.ServerFinished
    requires conn.alertLevel == 0 ==>
               Summed(conn) && received == VerifyData(conn.env.hashing, conn.rl.tlsVersion, conn.masterSecret,
                                                      "server finished", Transcript(conn.log))
    modifies conn`log, conn`state
    ensures conn.Inv() && conn.log == old(conn.log) + [Matched(received)]
    ensures conn.state == if conn.sessionResumed || conn.useSessionTicket then State.ChangeCipherSpec else AckFinished
  {
    hide TlsClient.Wf, Legal, Count, Transcript, Started, VerifyHash.Holds, VerifyData, Vouched, KeyForSuite,
         VerifyHash.ClientDone, ParamsFor;
    ParametersKept(conn, Matched(received));
    MatchEvent(conn.env.hashing, conn.rl.tlsVersion, conn.masterSecret, conn.log, received);
    if conn.alertLevel == 0 {
      VouchedNext(conn.env, conn.log, conn.serverRsaKey, Matched(received));
    }
    conn.log := conn.log + [Matched(received)];
    conn.state := if conn.sessionResumed || conn.useSessionTicket then State.ChangeCipherSpec else AckFinished;
  }

  /** The verify_data the client expects, compared with what came. */
  method CheckFinished(conn: TlsClient, received: seq<Byte>) returns (alert: Option<Byte>)
    requires conn.Inv() && conn.state == State.ServerFinished
    modifies conn`log, conn`state, conn.verify
    ensures conn.Wf()
    ensures old(conn.alertLevel) == 0 ==>
              (alert.None? <==> received == old(VerifyData(conn.env.hashing, conn.rl.tlsVersion, conn.masterSecret,
                                                           "server finished", Transcript(conn.log))))
    ensures alert.None? ==> conn.Inv() && conn.log == old(conn.log) + [Matched(received)]
    ensures alert.None? ==>
              conn.state == if conn.sessionResumed || conn.useSessionTicket then State.ChangeCipherSpec else AckFinished
    ensures Ongoing(conn.state)
  {
    hide TlsClient.Inv, TlsClient.Wf, TlsClient.InProgress, TlsClient.Ciphers, TlsClient.Parameters, Summed, Transcript,
         VerifyData;
    var verifyData := Expected(conn);
    if verifyData.None? {
      return Some(ALERT_INTERNAL_ERROR);
    }
    if received != verifyData.value {
      return Some(ALERT_DECRYPT_ERROR);
    }
    TakeMatch(conn, received);
    alert := None;
  }

  /** tls_process_server_finished. */
  method ProcessServerFinished(conn: TlsClient, ct: Byte, buf: seq<Byte>) returns (ok: bool, len: nat)
    requires conn.Inv() && conn.state == State.ServerFinished
    modifies conn`alertLevel, conn`alertDescription, conn`log, conn`state, conn.verify
    ensures conn.Wf() && (!ok ==> conn.alertLevel != 0)
    ensures ok ==> conn.Inv() && conn.alertLevel == old(conn.alertLevel) && ct == CT_HANDSHAKE
    ensures ok ==> len == 16 <= |buf| && GetBE24(buf[1..4]) == 12 && buf[..4] == [HS_FINISHED, 0, 0, 12]
                   && conn.log == old(conn.log) + [Matched(buf[4..16])]
    ensures ok ==>
              conn.state == if conn.sessionResumed || conn.useSessionTicket then State.ChangeCipherSpec else AckFinished
    ensures old(conn.alertLevel) == 0 ==>
              (ok <==> var f := Unframe(ct, buf);
                 f.Whole? && f.kind == HS_FINISHED && f.len == VERIFY_DATA_LEN
                 && buf[4..16] == old(VerifyData(conn.env.hashing, conn.rl.tlsVersion, conn.masterSecret, "server finished",
                                                 Transcript(conn.log))))
    ensures Ongoing(conn.state)
  {
    hide TlsClient.InProgress, TlsClient.Ciphers, TlsClient.History, TlsClient.LayerReady, VerifyData, Transcript;
    var f := Unframe(ct, buf);
    if f.Malformed? && ct == CT_HANDSHAKE && |buf| >= 4 && buf[0] != HS_FINISHED {
      ok, len := Fail(conn, ALERT_UNEXPECTED_MESSAGE);
      return;
    }
    if f.Malformed? {
      ok, len := Fail(conn, f.alert);
      return;
    }
    if f.kind != HS_FINISHED {
      ok, len := Fail(conn, ALERT_UNEXPECTED_MESSAGE);
      return;
    }
    if f.len != VERIFY_DATA_LEN {
      ok, len := Fail(conn, ALERT_DECODE_ERROR);
      return;
    }
    var alert := CheckFinished(conn, buf[4..16]);
    if alert.Some? {
      ok, len := Fail(conn, alert.value);
      return;
    }
    assert buf[1..4] == [0, 0, 12] by { TwelveLength(buf[1..4]); }
    assert buf[..4] == [buf[0]] + buf[1..4];
    ok, len := true, 16;
  }

  lemma TwelveLength(s: seq<Byte>)
    requires |s| == 3 && GetBE24(s) == 12
    ensures s == [0, 0, 12]
  {
  }

  // ---------------------------------------------------------------- dispatch

  /** The handshake messages each state accepts, and the state behind them. */
  predicate StateStep(from: State, kind: Byte, to: State)
  {
    match from
    case ServerHello => kind == HS_SERVER_HELLO && (to == ServerChangeCipherSpec || to == ServerCertificate)
    case ServerCertificate => kind in MIDDLE_KINDS && to == AfterKind(kind)
    case ServerKeyExchange =>
      kind in {HS_SERVER_KEY_EXCHANGE, HS_CERTIFICATE_REQUEST, HS_SERVER_HELLO_DONE} && to == AfterKind(kind)
    case ServerCertificateRequest => kind in {HS_CERTIFICATE_REQUEST, HS_SERVER_HELLO_DONE} && to == AfterKind(kind)
    case ServerHelloDone => kind == HS_SERVER_HELLO_DONE && to == AfterKind(kind)
    case ServerChangeCipherSpec => kind in MIDDLE_KINDS && to == AfterKind(kind)
    case ServerFinished => kind == HS_FINISHED && (to == State.ChangeCipherSpec || to == AckFinished)
    case AckFinished => to == AckFinished
    case _ => false
  }

  /** What the states in the middle of a full handshake accept: the message they wait for or a later one. */
  ghost predicate MiddleGood(conn: TlsClient, ct: Byte, buf: seq<Byte>)
    reads conn`state, conn`serverRsaKey, conn`clientRandom, conn`serverRandom, conn.rl`cipherSuite, conn.rl`tlsVersion
  {
    match conn.state
    case ServerCertificate => Acceptable(conn, MIDDLE_KINDS, ct, buf)
    case ServerKeyExchange =>
      Acceptable(conn, {HS_SERVER_KEY_EXCHANGE, HS_CERTIFICATE_REQUEST, HS_SERVER_HELLO_DONE}, ct, buf)
    case ServerCertificateRequest => Acceptable(conn, {HS_CERTIFICATE_REQUEST, HS_SERVER_HELLO_DONE}, ct, buf)
    case ServerHelloDone => Acceptable(conn, {HS_SERVER_HELLO_DONE}, ct, buf)
    case _ => false
  }

  /** What ends a handshake: the server's ChangeCipherSpec, or any message of a full handshake if a ticket
      turns out not to be in use, and the server's Finished with the verify_data of the messages so far. */
  ghost predicate ClosingGood(conn: TlsClient, ct: Byte, buf: seq<Byte>, o: Oracle)
    reads conn`state, conn`useSessionTicket, conn`serverRsaKey, conn`clientRandom, conn`serverRandom, conn`masterSecret
    reads conn`log, conn.rl`cipherSuite, conn.rl`tlsVersion
  {
    if conn.state == ServerChangeCipherSpec then
      if ct == CT_CHANGE_CIPHER_SPEC then |buf| > 0 && buf[0] == 1
      else conn.useSessionTicket && o.fallback >= 0 && Acceptable(conn, MIDDLE_KINDS, ct, buf)
    else
      var f := Unframe(ct, buf);
      f.Whole? && f.kind == HS_FINISHED && f.len == VERIFY_DATA_LEN
      && buf[4..16] == VerifyData(conn.env.hashing, conn.rl.tlsVersion, conn.masterSecret, "server finished",
                                  Transcript(conn.log))
  }

  /** How much of the input a message takes up. */
  function Extent(ct: Byte, buf: seq<Byte>): nat
  {
    if ct == CT_CHANGE_CIPHER_SPEC then 1 else if |buf| < 4 then |buf| else 4 + GetBE24(buf[1..4])
  }

  /** What each state accepts, while no alert is pending. */
  ghost predicate MessageGood(conn: TlsClient, ct: Byte, buf: seq<Byte>, o: Oracle)
    reads conn`state, conn`useSessionTicket, conn`serverRsaKey, conn`clientRandom, conn`serverRandom, conn`masterSecret
    reads conn`log, conn`sessionId, conn`prevCipherSuite, conn.rl`cipherSuite, conn.rl`tlsVersion
  {
    match conn.state
    case ServerHello => OpeningGood(conn, ct, buf, o)
    case ServerChangeCipherSpec => ClosingGood(conn, ct, buf, o)
    case ServerFinished => ClosingGood(conn, ct, buf, o)
    case _ => MiddleGood(conn, ct, buf)
  }

  /** What an accepted message does to the connection, the history aside. */
  ghost predicate MovesOn(b: Before, resumes: bool, conn: TlsClient, ct: Byte, buf: seq<Byte>, len: nat, o: Oracle)
    requires |buf| > 0
    reads conn`state, conn`sessionResumed, conn`useSessionTicket, conn`certificateRequested, conn`dh, conn`inherited
    reads conn`used, conn`serverRsaKey, conn`clientRandom, conn`serverRandom, conn`sessionId
    reads conn.rl`cipherSuite, conn.rl`tlsVersion, conn.rl`cipherAlg, conn.rl`keyMaterialLen, conn.rl`ivSize
    reads conn.rl`macAlg, conn.rl`hashSize
  {
    && (b.state == State.ServerHello ==> HelloMoves(b, resumes, conn, buf, len, o))
    && (b.state == ServerChangeCipherSpec || b.state == State.ServerFinished ==> ClosingMoves(b, conn, ct, buf, len))
    && (WaitsForMiddle(b.state) ==> conn.useSessionTicket == b.ticket && MiddleMoves(b, conn, buf, len))
  }

  /** The four states before the client's key exchange. */
  predicate WaitsForMiddle(st: State)
  {
    st == ServerCertificate || st == State.ServerKeyExchange || st == ServerCertificateRequest || st == State.ServerHelloDone
  }

  /** What each state accepts, written out; the messages of the middle as in AcceptableIs, the ServerHello as in
      HelloGoodIs. */
  lemma MessageGoodIs(conn: TlsClient, ct: Byte, buf: seq<Byte>, o: Oracle)
    ensures conn.state == State.ServerHello ==>
              (MessageGood(conn, ct, buf, o) <==>
                && ct == 22 && |buf| >= 4 && 4 + BytesVal(buf[1..4]) <= |buf| && buf[0] == 2
                && HelloGood(conn, buf[4..4 + BytesVal(buf[1..4])])
                && !(conn.sessionTicketIncluded && conn.ticketCallback && o.ticket < 0))
    ensures conn.state == ServerCertificate ==>
              (MessageGood(conn, ct, buf, o) <==> Acceptable(conn, {11, 12, 13, 14}, ct, buf))
    ensures conn.state == State.ServerKeyExchange ==>
              (MessageGood(conn, ct, buf, o) <==> Acceptable(conn, {12, 13, 14}, ct, buf))
    ensures conn.state == ServerCertificateRequest ==>
              (MessageGood(conn, ct, buf, o) <==> Acceptable(conn, {13, 14}, ct, buf))
    ensures conn.state == State.ServerHelloDone ==> (MessageGood(conn, ct, buf, o) <==> Acceptable(conn, {14}, ct, buf))
    ensures conn.state == ServerChangeCipherSpec ==>
              (MessageGood(conn, ct, buf, o) <==>
                if ct == 20 then |buf| > 0 && buf[0] == 1
                else conn.useSessionTicket && o.fallback >= 0 && Acceptable(conn, {11, 12, 13, 14}, ct, buf))
    ensures conn.state == State.ServerFinished ==>
              var t, h := Transcript(conn.log), conn.env.hashing;
              (MessageGood(conn, ct, buf, o) <==>
                && ct == 22 && |buf| >= 16 && buf[0] == 20 && BytesVal(buf[1..4]) == 12
                && buf[4..16] == h.prf(conn.rl.tlsVersion, conn.masterSecret, "server finished",
                                       if conn.rl.tlsVersion >= 0x0303 then h.sha256(t) else h.md5(t) + h.sha1(t), 12))
    ensures conn.state in {State.ClientHello, State.ClientKeyExchange, State.ChangeCipherSpec, AckFinished, Established, Failed}
            ==> !MessageGood(conn, ct, buf, o)
  {
    hide HelloGood, Acceptable, GetBE24, BytesVal, Transcript, VerifyData;
    if |buf| >= 4 {
      FieldsRead(buf[1..4]);
      assert buf[1..4][..3] == buf[1..4];
    }
    FinishedIs(conn.env.hashing, conn.rl.tlsVersion, conn.masterSecret, "server finished", Transcript(conn.log));
  }

  /** The kinds each state takes and where they lead. */
  lemma StateStepIs(from: State, kind: Byte, to: State)
    ensures from == State.ServerHello ==>
              (StateStep(from, kind, to) <==> kind == 2 && to in {ServerChangeCipherSpec, ServerCertificate})
    ensures from in {ServerCertificate, State.ServerKeyExchange, ServerCertificateRequest, State.ServerHelloDone,
                     ServerChangeCipherSpec} ==>
              (StateStep(from, kind, to) <==>
                || (kind == 11 && from in {ServerCertificate, ServerChangeCipherSpec} && to == State.ServerKeyExchange)
                || (kind == 12 && from in {ServerCertificate, State.ServerKeyExchange, ServerChangeCipherSpec}
                    && to == ServerCertificateRequest)
                || (kind == 13 && from != State.ServerHelloDone && to == State.ServerHelloDone)
                || (kind == 14 && to == State.ClientKeyExchange))
    ensures from == State.ServerFinished ==>
              (StateStep(from, kind, to) <==> kind == 20 && to in {State.ChangeCipherSpec, AckFinished})
    ensures from == AckFinished ==> (StateStep(from, kind, to) <==> to == AckFinished)
    ensures from in {State.ClientHello, State.ClientKeyExchange, State.ChangeCipherSpec, Established, Failed} ==>
              !StateStep(from, kind, to)
  {
  }

  /** What an accepted message changes, written out. */
  lemma MovesOnIs(b: Before, resumes: bool, conn: TlsClient, ct: Byte, buf: seq<Byte>, len: nat, o: Oracle)
    requires |buf| > 0 && MovesOn(b, resumes, conn, ct, buf, len, o)
    ensures b.state == State.ServerHello || WaitsForMiddle(b.state) ==>
              4 <= len <= |buf| && len == 4 + BytesVal(buf[1..4]) && conn.inherited == b.inherited && conn.used == b.used
    ensures b.state == State.ServerHello ==>
              && len >= 41 && 41 + buf[38] <= len
              && conn.rl.tlsVersion == BytesVal(buf[4..6]) && conn.serverRandom == buf[6..38]
              && conn.sessionId == buf[39..39 + buf[38]] && conn.rl.cipherSuite == BytesVal(buf[39 + buf[38]..41 + buf[38]])
              && conn.sessionResumed == resumes && conn.certificateRequested == b.requested && conn.dh == b.dh
              && conn.useSessionTicket == (if conn.sessionTicketIncluded && conn.ticketCallback then o.ticket != 0
                                           else b.ticket)
              && conn.state == if conn.sessionResumed || conn.useSessionTicket then ServerChangeCipherSpec
                               else ServerCertificate
    ensures WaitsForMiddle(b.state) ==>
              && buf[0] in {11, 12, 13, 14}
              && conn.state == (if buf[0] == 11 then State.ServerKeyExchange else if buf[0] == 12 then ServerCertificateRequest
                                else if buf[0] == 13 then State.ServerHelloDone else State.ClientKeyExchange)
              && conn.certificateRequested == (b.requested || buf[0] == 13)
              && (if buf[0] == 12 then DhParams(buf[4..len]).Some? && conn.dh == Some(DhParams(buf[4..len]).value.0)
                  else conn.dh == b.dh)
              && (if buf[0] == 11 then
                    && len >= 7 && CertificateList(buf[7..len]).Some?
                    && var chain := CertificateList(buf[7..len]).value;
                       conn.serverRsaKey == if chain != [] then conn.env.certKey(chain[0]) else b.key
                  else conn.serverRsaKey == b.key)
    ensures b.state == State.ServerFinished || (b.state == ServerChangeCipherSpec && ct == 20) ==>
              conn.sessionResumed == b.resumed && conn.useSessionTicket == b.ticket && conn.used == b.used
    ensures b.state == State.ServerFinished ==>
              conn.state == if conn.sessionResumed || conn.useSessionTicket then State.ChangeCipherSpec else AckFinished
    ensures b.state == ServerChangeCipherSpec && ct == 20 ==> conn.state == State.ServerFinished
  {
    hide DhParams, CertificateList, GetBE16, GetBE24, BytesVal, GoodChain, RecordLayer.Configured;
    if |buf| >= 4 {
      FieldsRead(buf[1..4]);
      assert buf[1..4][..3] == buf[1..4];
    }
    if b.state == State.ServerHello {
      HelloFields(buf, len);
    } else if WaitsForMiddle(b.state) && buf[0] == 11 {
      assert |buf[4..len]| >= 3 ==> buf[4..len][3..] == buf[7..len];
    }
  }

  lemma HelloFields(buf: seq<Byte>, len: nat)
    requires 41 <= len <= |buf| && 41 + buf[38] <= len
    ensures var body, n := buf[4..len], buf[38];
            && body[34] == n && GetBE16(body[..2]) == BytesVal(buf[4..6]) && body[2..34] == buf[6..38]
            && body[35..35 + n] == buf[39..39 + n] && GetBE16(body[35 + n..37 + n]) == BytesVal(buf[39 + n..41 + n])
  {
    hide BytesVal, GetBE16;
    var n: nat := buf[38];
    SubSlice(buf, 4, len - 4, 0, 2);
    SubSlice(buf, 4, len - 4, 2, 34);
    SubSlice(buf, 4, len - 4, 35, 35 + n);
    SubSlice(buf, 4, len - 4, 35 + n, 37 + n);
    FieldIs(buf[4..6]);
    FieldIs(buf[39 + n..41 + n]);
  }

  /** A session is taken up if the accepted ServerHello names the one that was offered. */
  lemma WouldResumeIs(conn: TlsClient, buf: seq<Byte>)
    ensures WouldResume(conn, buf) <==>
              && |buf| >= 4 && 4 + BytesVal(buf[1..4]) <= |buf|
              && var body := buf[4..4 + BytesVal(buf[1..4])];
                 HelloGood(conn, body) && conn.sessionId != [] && conn.sessionId == body[35..35 + body[34]]
  {
    hide BytesVal, GetBE24, AllowedVersion, SuiteData, TailAlert, SuiteIn;
    if |buf| >= 4 {
      FieldsRead(buf[1..4]);
      assert buf[1..4][..3] == buf[1..4];
    }
  }

  /** What accepted certificates and parameters leave behind: the key of the first certificate, the parameters, and the
      evidence in the history. */
  lemma EvidenceIs(conn: TlsClient, body: seq<Byte>)
    ensures CertificatesTaken(conn, body) ==>
              && |body| >= 3 && CertificateList(body[3..]).Some?
              && var chain := CertificateList(body[3..]).value;
                 && conn.log != [] && conn.log[|conn.log| - 1] == ChainAccepted(chain)
                 && (chain != [] ==> conn.serverRsaKey == conn.env.certKey(chain[0]))
    ensures KeyExchangeTaken(conn, body) ==>
              && DhParams(body).Some? && conn.dh == Some(DhParams(body).value.0)
              && (conn.rl.cipherSuite in {0x0016, 0x0033, 0x0039, 0x0067, 0x006b} ==>
                    && conn.serverRsaKey.Some? && conn.log != []
                    && conn.log[|conn.log| - 1]
                       == ParamsAccepted(conn.serverRsaKey.value, conn.rl.tlsVersion, conn.clientRandom + conn.serverRandom, body))
  {
    hide DhParams, CertificateList, SignedSuite, ParamsGood;
    SignedSuites(conn.rl.cipherSuite);
  }

  /** How much of the input a message takes up: a ChangeCipherSpec one octet, a handshake message what it says. */
  lemma ExtentIs(ct: Byte, buf: seq<Byte>)
    ensures Extent(ct, buf) == if ct == 20 then 1 else if |buf| < 4 then |buf| else 4 + BytesVal(buf[1..4])
  {
    hide BytesVal, GetBE24;
    if |buf| >= 4 {
      FieldsRead(buf[1..4]);
      assert buf[1..4][..3] == buf[1..4];
    }
  }

  /** The switch over the state, for the middle of a full handshake. */
  method DispatchMiddle(conn: TlsClient, ct: Byte, buf: seq<Byte>) returns (ok: bool, len: nat)
    requires conn.Inv() && WaitsForMiddle(conn.state) && |buf| > 0
    modifies conn`alertLevel, conn`alertDescription, conn`state, conn`certificateRequested, conn`dh
    modifies conn`serverRsaKey, conn`log
    ensures conn.Wf() && (!ok ==> conn.alertLevel != 0)
    ensures ok ==> conn.Inv() && conn.alertLevel == old(conn.alertLevel) && ct == CT_HANDSHAKE
    ensures ok ==> 4 <= |buf| && len == Extent(ct, buf) == 4 + GetBE24(buf[1..4]) <= |buf|
    ensures ok ==> Middle(conn.state) && StateStep(old(conn.state), buf[0], conn.state)
    ensures ok <==> old(MiddleGood(conn, ct, buf))
    ensures ok ==> MiddleMoves(old(Now(conn)), conn, buf, len)
    ensures ok && buf[0] != HS_CERTIFICATE && buf[0] != HS_SERVER_KEY_EXCHANGE ==> conn.log == old(conn.log)
    ensures Ongoing(conn.state)
  {
    hide TlsClient.Wf, TlsClient.InProgress, TlsClient.Ciphers, TlsClient.History, TlsClient.LayerReady, Acceptable,
         KeyTaken, CertificatesTaken, ParamsGood, DhParams;
    ok, len := false, |buf|;
    match conn.state {
      case ServerCertificate => ok, len := ProcessCertificate(conn, ct, buf);
      case ServerKeyExchange => ok, len := ProcessServerKeyExchange(conn, ct, buf);
      case ServerCertificateRequest => ok, len := ProcessCertificateRequest(conn, ct, buf);
      case ServerHelloDone => ok, len := ProcessServerHelloDone(conn, ct, buf);
    }
  }

  /** What an accepted message at the end of a handshake does. */
  ghost predicate ClosingMoves(b: Before, conn: TlsClient, ct: Byte, buf: seq<Byte>, len: nat)
    reads conn`state, conn`sessionResumed, conn`useSessionTicket, conn`certificateRequested, conn`dh, conn`inherited
    reads conn`used, conn`serverRsaKey, conn`clientRandom, conn`serverRandom, conn.rl`cipherSuite, conn.rl`tlsVersion
  {
    && conn.used == b.used && conn.inherited == b.inherited && conn.rl.cipherSuite == b.suite
    && (b.state == State.ServerFinished || ct == CT_CHANGE_CIPHER_SPEC ==>
          conn.sessionResumed == b.resumed && conn.useSessionTicket == b.ticket)
    && (b.state == State.ServerFinished ==>
          conn.state == if conn.sessionResumed || conn.useSessionTicket then State.ChangeCipherSpec else AckFinished)
    && (b.state != State.ServerFinished && ct == CT_CHANGE_CIPHER_SPEC ==> conn.state == State.ServerFinished)
    && (b.state != State.ServerFinished && ct != CT_CHANGE_CIPHER_SPEC ==>
          MiddleMoves(b, conn, buf, len) && !conn.useSessionTicket)
  }

  /** The switch over the state, for what ends a handshake. */
  method DispatchClosing(conn: TlsClient, ct: Byte, buf: seq<Byte>, o: Oracle) returns (ok: bool, len: nat)
    requires conn.Inv() && (conn.state == ServerChangeCipherSpec || conn.state == State.ServerFinished) && |buf| > 0
    modifies conn`alertLevel, conn`alertDescription, conn`state, conn`certificateRequested, conn`dh
    modifies conn`serverRsaKey, conn`log
    modifies conn`useSessionTicket, conn.rl`readCipherSuite, conn.rl`readSeqNum, conn.rl`readCbc, conn.verify
    ensures conn.Wf() && (conn.rl.readCbc == old(conn.rl.readCbc) || conn.rl.readCbc == null || fresh(conn.rl.readCbc))
    ensures !ok ==> conn.alertLevel != 0
    ensures ok ==> conn.Inv() && conn.alertLevel == old(conn.alertLevel) && 0 < len <= |buf|
    ensures ok ==> conn.state != State.ClientHello && conn.state != Failed && conn.state != Established
    ensures ok && ct == CT_HANDSHAKE ==> StateStep(old(conn.state), buf[0], conn.state)
    ensures old(conn.alertLevel) == 0 ==> (ok <==> old(ClosingGood(conn, ct, buf, o)))
    ensures ok ==> ClosingMoves(old(Now(conn)), conn, ct, buf, len)
    ensures ok && old(conn.state) == ServerChangeCipherSpec && ct == CT_CHANGE_CIPHER_SPEC ==>
              conn.log == old(conn.log) + [ReadSwitched] && ReadsFresh(conn.rl)
    ensures ok && old(conn.state) == ServerChangeCipherSpec && ct != CT_CHANGE_CIPHER_SPEC ==> unchanged(conn.rl)
    ensures old(conn.state) == State.ServerFinished ==> unchanged(conn.rl)
    ensures ok ==> len == Extent(ct, buf)
    ensures ok && old(conn.state) == State.ServerFinished ==>
              ct == CT_HANDSHAKE && |buf| >= 16 && conn.log == old(conn.log) + [Matched(buf[4..16])]
    ensures Ongoing(conn.state)
  {
    hide TlsClient.Wf, TlsClient.InProgress, TlsClient.Ciphers, TlsClient.History, TlsClient.LayerReady, Acceptable,
         VerifyData, Transcript, Keyed, ReadsFresh;
    if conn.state == ServerChangeCipherSpec {
      ok, len := ProcessServerChangeCipherSpec(conn, ct, buf, o);
    } else {
      ok, len := ProcessServerFinished(conn, ct, buf);
    }
  }

  /** The switch over the state; application data is handed out. */
  method Dispatch(conn: TlsClient, ct: Byte, buf: seq<Byte>, o: Oracle, wantData: bool)
    returns (ok: bool, len: nat, data: Option<seq<Byte>>)
    requires conn.Inv() && o.Sound() && |buf| > 0 && NULL_SUITE !in conn.cipherSuites
    modifies conn, conn.rl, conn.verify
    ensures conn.Wf() && (conn.rl.readCbc == old(conn.rl.readCbc) || conn.rl.readCbc == null || fresh(conn.rl.readCbc))
    ensures conn.rl.writeCbc == old(conn.rl.writeCbc)
    ensures !ok ==> conn.alertLevel != 0 || (conn.Inv() && conn.state == old(conn.state))
    ensures ok ==> conn.Inv() && 0 < len <= |buf| && conn.state != State.ClientHello && conn.state != Failed
    ensures ok ==> conn.alertLevel == old(conn.alertLevel)
    ensures old(conn.alertLevel) != 0 ==> conn.alertLevel != 0
    ensures old(conn.state) == Failed ==> conn.state == Failed
    ensures (Ongoing(conn.state) || conn.state == old(conn.state)) && conn.inherited == old(conn.inherited)
    ensures conn.state == State.ClientHello ==> conn.dh == old(conn.dh)
    ensures ok && ct == CT_HANDSHAKE ==> StateStep(old(conn.state), buf[0], conn.state)
    ensures old(conn.alertLevel == 0 && conn.state != AckFinished) ==> (ok <==> old(MessageGood(conn, ct, buf, o)))
    ensures ok ==> MovesOn(old(Now(conn)), old(WouldResume(conn, buf)), conn, ct, buf, len, o)
    ensures ok && old(conn.state) == State.ServerHello ==> ct == CT_HANDSHAKE && conn.log == old(conn.log)
    ensures ok && WaitsForMiddle(old(conn.state)) && buf[0] != HS_CERTIFICATE && buf[0] != HS_SERVER_KEY_EXCHANGE ==>
              conn.log == old(conn.log)
    ensures ok && ct == CT_CHANGE_CIPHER_SPEC && old(conn.state) == ServerChangeCipherSpec ==>
              conn.log == old(conn.log) + [ReadSwitched]
    ensures ok && old(conn.state) == State.ServerFinished ==>
              ct == CT_HANDSHAKE && |buf| >= 16 && conn.log == old(conn.log) + [Matched(buf[4..16])]
    ensures ok && old(conn.state) == State.ServerHello && conn.state == ServerChangeCipherSpec ==> Keyed(conn)
    ensures ok && old(conn.state) != State.ServerHello ==>
              FixedPart(conn.rl) == old(FixedPart(conn.rl)) && (old(Keyed(conn)) ==> Keyed(conn))
    ensures ok && old(conn.state) == ServerChangeCipherSpec && ct == CT_CHANGE_CIPHER_SPEC ==> ReadsFresh(conn.rl)
    ensures ok && old(conn.state) != State.ServerHello && ct != CT_CHANGE_CIPHER_SPEC ==> unchanged(conn.rl)
    ensures data.Some? ==> old(conn.state) == AckFinished
    ensures ok && old(conn.state) != AckFinished ==> len == Extent(ct, buf)
  {
    hide TlsClient.Wf, TlsClient.InProgress, TlsClient.Ciphers, TlsClient.History, TlsClient.LayerReady, Oracle.Sound,
         OpeningGood, HelloGood, HelloTaken, KeyTaken, Resumes, Acceptable, ClosingGood, TlsClient.Parameters, Keyed,
         ReadsFresh, MiddleMoves, GetBE24, Extent, HelloMoves, ClosingMoves, Now, WouldResume, FixedPart;
    ok, len, data := false, |buf|, None;
    if conn.state == State.ServerHello {
      ok, len := ProcessServerHello(conn, ct, buf, o);
    } else if WaitsForMiddle(conn.state) {
      ok, len := DispatchMiddle(conn, ct, buf);
    } else if conn.state == ServerChangeCipherSpec || conn.state == State.ServerFinished {
      ok, len := DispatchClosing(conn, ct, buf, o);
    } else if conn.state == AckFinished {
      if wantData && ct != CT_APPLICATION_DATA {
        ok, len := Fail(conn, ALERT_UNEXPECTED_MESSAGE);
      } else {
        ok, len := true, |buf|;
        data := if wantData then Some(buf) else None;
      }
    }
  }

  predicate HelloRequest(ct: Byte, buf: seq<Byte>)
  {
    ct == CT_HANDSHAKE && |buf| >= 4 && buf[0] == HS_HELLO_REQUEST
  }

  /** Exactly one message, and one that is accepted. */
  ghost predicate Sole(conn: TlsClient, ct: Byte, m: seq<Byte>, o: Oracle)
    reads conn`state, conn`useSessionTicket, conn`serverRsaKey, conn`clientRandom, conn`serverRandom, conn`masterSecret
    reads conn`log, conn`sessionId, conn`prevCipherSuite, conn`alertLevel, conn.rl`cipherSuite, conn.rl`tlsVersion
  {
    && conn.alertLevel == 0 && conn.state != AckFinished && ct != CT_ALERT && |m| > 0 && !HelloRequest(ct, m)
    && (ct == CT_CHANGE_CIPHER_SPEC ==> conn.state == ServerChangeCipherSpec) && Extent(ct, m) == |m|
    && MessageGood(conn, ct, m, o)
  }

  /** The connection before a message, with its record layer. */
  datatype Full = Full(before: Before, resumes: bool, keyed: bool, sent: nat, fixed: Fixed)

  ghost function NowFull(conn: TlsClient, m: seq<Byte>): (b: Full)
    reads conn`state, conn`sessionResumed, conn`useSessionTicket, conn`certificateRequested, conn`dh, conn`inherited
    reads conn`used, conn`serverRsaKey, conn`clientRandom, conn`serverRandom, conn`masterSecret, conn`sessionId
    reads conn`prevCipherSuite, conn`log, conn.rl`tlsVersion, conn.rl`ivSize, conn.rl`macAlg, conn.rl`cipherSuite
    reads conn.rl`cipherAlg, conn.rl`hashSize, conn.rl`keyMaterialLen, conn.rl`writeMacSecret, conn.rl`readMacSecret
    reads conn.rl`writeKey, conn.rl`readKey, conn.rl`writeIv, conn.rl`readIv, conn.rl`writeCipherSuite
    reads conn.rl`writeSeqNum, conn.rl`writeCbc, conn.rl.writeCbc
    ensures b.before.state == conn.state
  {
    Full(Now(conn), WouldResume(conn, m), Keyed(conn), FinishedSent(conn.log), FixedPart(conn.rl))
  }

  /** What such a message does: but for a ServerHello only ChangeCipherSpec touches the record layer. */
  ghost predicate Advanced(b: Full, conn: TlsClient, ct: Byte, m: seq<Byte>, o: Oracle)
    reads conn`state, conn`sessionResumed, conn`useSessionTicket, conn`certificateRequested, conn`dh, conn`inherited
    reads conn`used, conn`serverRsaKey, conn`clientRandom, conn`serverRandom, conn`sessionId, conn`masterSecret
    reads conn`alertLevel, conn`log, conn.rl, conn.rl.readCbc, conn.rl.writeCbc
  {
    var st := b.before.state;
    && |m| > 0 && conn.alertLevel == 0 && MovesOn(b.before, b.resumes, conn, ct, m, |m|, o)
    && (st == State.ServerHello && conn.state == ServerChangeCipherSpec ==> Keyed(conn))
    && (st != State.ServerHello ==> FixedPart(conn.rl) == b.fixed && (b.keyed ==> Keyed(conn)))
    && (st == State.ServerHello || st == State.ServerFinished || ct == CT_CHANGE_CIPHER_SPEC ==>
          FinishedSent(conn.log) == b.sent)
    && (st != State.ServerHello && ct == CT_CHANGE_CIPHER_SPEC ==> ReadsFresh(conn.rl))
  }

  /** What is received is no Finished that was sent. */
  lemma Unsent(log0: seq<Event>, log: seq<Event>, ct: Byte, m: seq<Byte>, len: nat)
    requires len <= |m|
    ensures log == log0 + [Accepted(m[..len])] || log == log0 + [ReadSwitched]
            || (|m| >= 16 && log == log0 + [Matched(m[4..16])] + [Accepted(m[..len])])
            ==> FinishedSent(log) == FinishedSent(log0)
  {
    hide Count, Transcript, Started;
    if log == log0 + [ReadSwitched] {
      Append(log0, ReadSwitched);
    } else if log == log0 + [Accepted(m[..len])] {
      Append(log0, Accepted(m[..len]));
    } else if |m| >= 16 {
      Append(log0, Matched(m[4..16]));
      Append(log0 + [Matched(m[4..16])], Accepted(m[..len]));
    }
  }

  /** tlsv1_client_process_handshake: one message. */
  method ProcessHandshake(conn: TlsClient, ct: Byte, buf: seq<Byte>, o: Oracle, wantData: bool)
    returns (ok: bool, len: nat, data: Option<seq<Byte>>)
    requires conn.Inv() && o.Sound() && |buf| > 0 && NULL_SUITE !in conn.cipherSuites
    modifies conn, conn.rl, conn.verify
    ensures conn.Wf() && (conn.rl.readCbc == old(conn.rl.readCbc) || conn.rl.readCbc == null || fresh(conn.rl.readCbc))
    ensures conn.rl.writeCbc == old(conn.rl.writeCbc)
    ensures conn.alertLevel != 0 || conn.Inv()
    ensures ok ==> conn.Inv() && 0 < len <= |buf| && conn.alertLevel == old(conn.alertLevel)
    ensures old(conn.alertLevel) != 0 ==> conn.alertLevel != 0
    ensures old(conn.state) == Failed ==> conn.state == Failed
    ensures (Ongoing(conn.state) || conn.state == old(conn.state)) && conn.inherited == old(conn.inherited)
    ensures conn.state == State.ClientHello ==> conn.dh == old(conn.dh)
    ensures ct == CT_ALERT ==> !ok && (|buf| >= 2 ==> conn.state == Failed && conn.log == old(conn.log))
    ensures ct == CT_ALERT && |buf| >= 2 ==>
              conn.alertLevel == old(conn.alertLevel) && conn.dh == old(conn.dh)
              && conn.useSessionTicket == old(conn.useSessionTicket)
    ensures ok && HelloRequest(ct, buf) ==> conn.state == old(conn.state) && conn.log == old(conn.log)
    ensures ct == 22 && |buf| >= 4 && buf[0] == 0 ==>
              (ok <==> 4 + GetBE24(buf[1..4]) <= |buf|) && (ok ==> len == 4 + GetBE24(buf[1..4]) && unchanged(conn))
    ensures ok && ct == CT_HANDSHAKE && !HelloRequest(ct, buf) ==>
              && StateStep(old(conn.state), buf[0], conn.state)
              && |conn.log| > 0 && conn.log[|conn.log| - 1] == Accepted(buf[..len])
    ensures old(conn.alertLevel == 0 && conn.state != AckFinished) && ct != CT_ALERT && !HelloRequest(ct, buf) ==>
              (ok <==> old(MessageGood(conn, ct, buf, o)))
    ensures ok && !HelloRequest(ct, buf) ==> MovesOn(old(Now(conn)), old(WouldResume(conn, buf)), conn, ct, buf, len, o)
    ensures ok && ct == CT_HANDSHAKE && old(conn.state) == State.ServerHello && !HelloRequest(ct, buf) ==>
              conn.log == old(conn.log) + [Accepted(buf[..len])]
    ensures ok && ct == CT_HANDSHAKE && WaitsForMiddle(old(conn.state)) && !HelloRequest(ct, buf)
            && buf[0] != HS_CERTIFICATE && buf[0] != HS_SERVER_KEY_EXCHANGE ==>
              conn.log == old(conn.log) + [Accepted(buf[..len])]
    ensures ok && old(conn.state) == ServerChangeCipherSpec && ct == CT_CHANGE_CIPHER_SPEC ==>
              conn.log == old(conn.log) + [ReadSwitched]
    ensures ok && ct == CT_HANDSHAKE && old(conn.state) == State.ServerFinished && !HelloRequest(ct, buf) ==>
              |buf| >= 16 && conn.log == old(conn.log) + [Matched(buf[4..16])] + [Accepted(buf[..len])]
    ensures ok && old(conn.state) == State.ServerHello && conn.state == ServerChangeCipherSpec ==> Keyed(conn)
    ensures ok && old(conn.state) != State.ServerHello ==>
              FixedPart(conn.rl) == old(FixedPart(conn.rl)) && (old(Keyed(conn)) ==> Keyed(conn))
    ensures ok && old(conn.state) == ServerChangeCipherSpec && ct == CT_CHANGE_CIPHER_SPEC ==> ReadsFresh(conn.rl)
    ensures ok && old(conn.state) != State.ServerHello && ct != CT_CHANGE_CIPHER_SPEC ==> unchanged(conn.rl)
    ensures data.Some? ==> old(conn.state) == AckFinished
    ensures old(Sole(conn, ct, buf, o)) ==>
              ok && len == |buf| && data.None? && Advanced(old(NowFull(conn, buf)), conn, ct, buf, o)
  {
    hide TlsClient.Wf, TlsClient.InProgress, TlsClient.Ciphers, TlsClient.History, TlsClient.LayerReady, Oracle.Sound,
         MessageGood, MovesOn, TlsClient.Parameters, Keyed, ReadsFresh, Count, Extent, Now, WouldResume, FixedPart;
    ok, len, data := false, |buf|, None;
    ghost var log := conn.log;
    if ct == CT_ALERT {
      if |buf| < 2 {
        ok, len := Fail(conn, ALERT_DECODE_ERROR);
        return;
      }
      GoFailed(conn);
      return;
    }
    if HelloRequest(ct, buf) {
      var n := GetBE24(buf[1..4]);
      if n > |buf| - 4 {
        ok, len := Fail(conn, ALERT_DECODE_ERROR);
        return;
      }
      ok, len := true, 4 + n;
      return;
    }
    ok, len, data := Dispatch(conn, ct, buf, o, wantData);
    if ok && ct == CT_HANDSHAKE {
      Accept(conn, buf[..len]);
    }
    if ok {
      Unsent(log, conn.log, ct, buf, len);
    }
  }

  /** The end of a connection: nothing more is claimed of it. */
  method GoFailed(conn: TlsClient)
    requires conn.Wf() && (conn.alertLevel != 0 || conn.Inv()) && NULL_SUITE !in conn.cipherSuites
    modifies conn`state
    ensures conn.Inv() && conn.state == Failed
  {
    hide Env.Sound, TlsClient.LayerReady, Legal, Count, Transcript, Started, VerifyHash.Holds, VerifyHash.ClientDone;
    conn.state := Failed;
  }
}
