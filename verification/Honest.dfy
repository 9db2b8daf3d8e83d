/** A server that follows the protocol gets through: from the messages it sends the connection becomes
    established, with a session or a ticket in use and without. */
module Honest {
  import Client
  import opened Bytes
  import opened DhParameters
  import opened ClientRead
  import opened ClientWrite
  import opened Options
  import opened Record
  import opened RecordLayers
  import opened TlsClients
  import opened TlsLog

  /** ServerHelloDone, a message without a body. */
  const DONE: seq<Byte> := [HS_SERVER_HELLO_DONE, 0, 0, 0]

  lemma FinishedFrame(conn: TlsClient, verifyData: seq<Byte>, o: Oracle)
    requires conn.state == State.ServerFinished && |verifyData| == VERIFY_DATA_LEN
    requires verifyData == VerifyData(conn.env.hashing, conn.rl.tlsVersion, conn.masterSecret, "server finished",
                                      Transcript(conn.log))
    ensures ClosingGood(conn, CT_HANDSHAKE, FinishedMessage(verifyData), o)
  {
    hide VerifyData, Transcript;
    var m := FinishedMessage(verifyData);
    assert m[1..4] == [0, 0, VERIFY_DATA_LEN] && m[4..16] == verifyData;
  }

  lemma DoneFrame()
    ensures Unframe(CT_HANDSHAKE, DONE) == Whole(HS_SERVER_HELLO_DONE, 0)
  {
    assert DONE[1..4] == [0, 0, 0];
  }

  lemma SeenByServer(conn: TlsClient)
    requires conn.Inv() && conn.alertLevel == 0 && conn.state == State.ServerFinished
    ensures conn.verify.md5Server == conn.verify.sha256Server == Some(Transcript(conn.log))
  {
    hide Transcript, Legal, Count, Vouched;
  }

  /** The server's Finished, over the messages that both sides have seen, under the secret both have. */
  method ServerFinishes(conn: TlsClient, o: Oracle) returns (m: seq<Byte>)
    requires conn.Inv() && conn.alertLevel == 0 && conn.state == State.ServerFinished
    ensures ClosingGood(conn, CT_HANDSHAKE, m, o) && |m| == 16 && m[0] == HS_FINISHED
  {
    hide TlsClient.InProgress, TlsClient.Ciphers, TlsClient.History, TlsClient.LayerReady, Transcript, Digest,
         ClosingGood;
    SeenByServer(conn);
    var seen := if conn.rl.tlsVersion >= VERSION_1_2 then conn.verify.sha256Server.value else conn.verify.md5Server.value;
    var verifyData := VerifyData(conn.env.hashing, conn.rl.tlsVersion, conn.masterSecret, "server finished", seen);
    FinishedFrame(conn, verifyData, o);
    m := FinishedMessage(verifyData);
  }

  /** No certificates and no signed parameters were accepted. */
  ghost predicate NoEvidence(log: seq<Event>)
  {
    forall k :: 0 <= k < |log| ==> !log[k].ParamsAccepted? && !log[k].ChainAccepted?
  }

  /** ChangeCipherSpec and Finished of the server. */
  method ServerCloses(conn: TlsClient, o: Oracle)
    requires conn.Inv() && conn.alertLevel == 0 && conn.state == ServerChangeCipherSpec && o.Sound()
    requires NULL_SUITE !in conn.cipherSuites
    modifies conn, conn.rl, conn.verify
    ensures conn.Inv() && conn.alertLevel == 0 && SameMode(conn)
    ensures conn.rl.writeCbc == old(conn.rl.writeCbc)
    ensures conn.rl.readCbc == old(conn.rl.readCbc) || conn.rl.readCbc == null || fresh(conn.rl.readCbc)
    ensures FinishedSent(conn.log) == old(FinishedSent(conn.log)) && (old(NoEvidence(conn.log)) ==> NoEvidence(conn.log))
    ensures conn.used == old(conn.used) && conn.inherited == old(conn.inherited)
    ensures conn.rl.cipherSuite == old(conn.rl.cipherSuite)
    ensures conn.state == if conn.sessionResumed || conn.useSessionTicket then State.ChangeCipherSpec else AckFinished
  {
    hide TlsClient.Wf, Oracle.Sound, Count, Transcript, VerifyData, TlsClient.Inv, NoEvidence, WouldResume, NowFull,
         Advanced, Sole, FixedPart, Keyed, ReadsFresh;
    ghost var log0 := conn.log;
    var ok, len, data := ProcessHandshake(conn, CT_CHANGE_CIPHER_SPEC, [1], o, false);
    QuietFor(log0, ReadSwitched);
    ServerMatches(conn, o);
  }

  /** An event that accepts nothing. */
  lemma QuietFor(log: seq<Event>, e: Event)
    requires !e.ParamsAccepted? && !e.ChainAccepted?
    ensures !IsFinished(e) ==> FinishedSent(log + [e]) == FinishedSent(log)
    ensures NoEvidence(log) ==> NoEvidence(log + [e])
  {
    hide Count, Transcript, Started;
    Append(log, e);
  }

  /** The server's Finished. */
  method ServerMatches(conn: TlsClient, o: Oracle)
    requires conn.Inv() && conn.alertLevel == 0 && conn.state == State.ServerFinished && o.Sound()
    requires NULL_SUITE !in conn.cipherSuites
    modifies conn, conn.rl, conn.verify
    ensures conn.Inv() && conn.alertLevel == 0 && SameMode(conn)
    ensures conn.rl.writeCbc == old(conn.rl.writeCbc)
    ensures conn.rl.readCbc == old(conn.rl.readCbc) || conn.rl.readCbc == null || fresh(conn.rl.readCbc)
    ensures FinishedSent(conn.log) == old(FinishedSent(conn.log)) && (old(NoEvidence(conn.log)) ==> NoEvidence(conn.log))
    ensures conn.used == old(conn.used) && conn.inherited == old(conn.inherited)
    ensures conn.rl.cipherSuite == old(conn.rl.cipherSuite)
    ensures conn.state == if conn.sessionResumed || conn.useSessionTicket then State.ChangeCipherSpec else AckFinished
  {
    hide TlsClient.Inv, TlsClient.Wf, Oracle.Sound, Count, NoEvidence, VerifyData, Transcript, WouldResume, NowFull,
         Advanced, Sole, FixedPart, Keyed, ReadsFresh;
    ghost var log := conn.log;
    var m := ServerFinishes(conn, o);
    var ok, len, data := ProcessHandshake(conn, CT_HANDSHAKE, m, o, false);
    QuietFor(log, Matched(m[4..16]));
    QuietFor(log + [Matched(m[4..16])], Accepted(m[..len]));
  }

  lemma AtServerHello(conn: TlsClient)
    requires conn.Inv() && conn.state == State.ServerHello
    ensures FinishedSent(conn.log) == 0 && NULL_SUITE !in conn.cipherSuites
  {
  }

  lemma AtClientHello(conn: TlsClient)
    requires conn.Inv() && conn.state == State.ClientHello
    ensures NoEvidence(conn.log)
  {
  }

  lemma AtCertificate(conn: TlsClient)
    requires conn.Inv() && conn.state == ServerCertificate
    ensures !conn.useSessionTicket
  {
  }

  /** The body of a handshake message. */
  function BodyOf(m: seq<Byte>): seq<Byte>
    requires Unframe(CT_HANDSHAKE, m).Whole?
  {
    m[4..4 + Unframe(CT_HANDSHAKE, m).len]
  }

  /** ServerHello. */
  method ServerGreets(conn: TlsClient, hello: seq<Byte>, o: Oracle)
    requires conn.Inv() && conn.alertLevel == 0 && conn.state == State.ServerHello && o.Sound()
    requires OpeningGood(conn, CT_HANDSHAKE, hello, o)
    modifies conn, conn.rl, conn.verify
    ensures conn.Inv() && conn.alertLevel == 0 && NULL_SUITE !in conn.cipherSuites
    ensures conn.rl.writeCbc == old(conn.rl.writeCbc)
    ensures conn.rl.readCbc == old(conn.rl.readCbc) || conn.rl.readCbc == null || fresh(conn.rl.readCbc)
    ensures FinishedSent(conn.log) == 0 && HelloTaken(conn, BodyOf(hello))
    ensures conn.dh == old(conn.dh) && conn.inherited == old(conn.inherited) && conn.clientRandom == old(conn.clientRandom)
    ensures old(NoEvidence(conn.log)) ==> NoEvidence(conn.log)
    ensures conn.sessionResumed == old(HelloGood(conn, BodyOf(hello)) && Resumes(conn, BodyOf(hello)))
    ensures conn.useSessionTicket == TicketUsed(conn, o, old(conn.useSessionTicket))
    ensures conn.state == if conn.sessionResumed || conn.useSessionTicket then ServerChangeCipherSpec else ServerCertificate
    ensures conn.certificateRequested == old(conn.certificateRequested)
  {
    hide TlsClient.Wf, Oracle.Sound, Count, HelloGood, HelloTaken, Resumes, GetBE24, TlsClient.Inv, NoEvidence,
         NowFull, Advanced, Sole, FixedPart, Keyed, ReadsFresh;
    AtServerHello(conn);
    ghost var log := conn.log;
    var ok, len, data := ProcessHandshake(conn, CT_HANDSHAKE, hello, o, false);
    QuietFor(log, Accepted(hello[..len]));
  }

  /** ClientHello and ServerHello. */
  method Hellos(conn: TlsClient, hello: seq<Byte>, o: Oracle)
    requires conn.Inv() && conn.alertLevel == 0 && conn.state == State.ClientHello && o.Sound()
    requires OpeningGood(conn, CT_HANDSHAKE, hello, o)
    modifies conn, conn.rl, conn.verify, conn.rl.writeCbc
    ensures conn.Inv() && conn.alertLevel == 0 && NULL_SUITE !in conn.cipherSuites
    ensures conn.rl.writeCbc == old(conn.rl.writeCbc)
    ensures conn.rl.readCbc == old(conn.rl.readCbc) || conn.rl.readCbc == null || fresh(conn.rl.readCbc)
    ensures FinishedSent(conn.log) == 0 && HelloTaken(conn, BodyOf(hello))
    ensures conn.dh == conn.inherited == old(conn.dh) && NoEvidence(conn.log)
    ensures conn.sessionResumed == old(HelloGood(conn, BodyOf(hello)) && Resumes(conn, BodyOf(hello)))
    ensures conn.useSessionTicket == TicketUsed(conn, o, old(conn.useSessionTicket))
    ensures conn.state == if conn.sessionResumed || conn.useSessionTicket then ServerChangeCipherSpec else ServerCertificate
    ensures conn.certificateRequested == old(conn.certificateRequested) && conn.clientRandom == o.random(0, 32)
  {
    hide TlsClient.Wf, Oracle.Sound, Count, HelloGood, HelloBody, HelloTaken, Resumes, OpeningGood, TlsClient.Inv,
         NoEvidence;
    AtClientHello(conn);
    ghost var log := conn.log;
    var out := SendClientHello(conn, o);
    QuietFor(log, conn.log[|log|]);
    ServerGreets(conn, hello, o);
  }

  /** The abbreviated handshake: the server takes up the session or the ticket that was offered. */
  method Abbreviated(conn: TlsClient, hello: seq<Byte>, o: Oracle)
    requires conn.Inv() && conn.alertLevel == 0 && conn.state == State.ClientHello && o.Sound()
    requires OpeningGood(conn, CT_HANDSHAKE, hello, o)
    requires Resumes(conn, BodyOf(hello)) || (conn.AsksTicket() && o.ticket > 0)
    modifies conn, conn.rl, conn.verify, conn.rl.writeCbc, conn.rl.readCbc
    ensures conn.Inv() && conn.alertLevel == 0 && conn.state == Established
  {
    hide TlsClient.Wf, Oracle.Sound, Count, HelloGood, HelloTaken, Resumes, TlsClient.Inv, NoEvidence, EndsFresh,
         Keyed, KeysFrom, PreMaster;
    Hellos(conn, hello, o);
    ServerCloses(conn, o);
    var reply := HandshakeWrite(conn, o, true);
  }

  /** The key a Certificate message brings. */
  predicate BringsKey(env: Env, certificates: seq<Byte>, key: seq<Byte>)
  {
    var f := Unframe(CT_HANDSHAKE, certificates);
    && f.Whole? && f.kind == HS_CERTIFICATE && |BodyOf(certificates)| >= 3
    && CertificateList(BodyOf(certificates)[3..]).Some?
    && var chain := CertificateList(BodyOf(certificates)[3..]).value;
       |chain| > 0 && env.certKey(chain[0]) == Some(key)
  }

  /** ServerHelloDone, in its turn or in place of what should come before it. */
  method ServerEnds(conn: TlsClient, o: Oracle)
    requires conn.Inv() && conn.alertLevel == 0 && WaitsForMiddle(conn.state) && o.Sound()
    requires NULL_SUITE !in conn.cipherSuites
    modifies conn, conn.rl, conn.verify
    ensures conn.Inv() && conn.alertLevel == 0 && conn.state == State.ClientKeyExchange && SameMode(conn)
    ensures conn.rl.writeCbc == old(conn.rl.writeCbc) && conn.rl.cipherSuite == old(conn.rl.cipherSuite)
    ensures conn.rl.readCbc == old(conn.rl.readCbc) || conn.rl.readCbc == null || fresh(conn.rl.readCbc)
    ensures conn.dh == old(conn.dh) && conn.inherited == old(conn.inherited)
    ensures conn.serverRsaKey == old(conn.serverRsaKey)
    ensures conn.certificateRequested == old(conn.certificateRequested)
    ensures old(NoEvidence(conn.log)) ==> NoEvidence(conn.log)
  {
    hide TlsClient.Inv, TlsClient.Wf, Oracle.Sound, Count, NoEvidence, WouldResume, NowFull, Advanced, Sole,
         FixedPart, Keyed, ReadsFresh;
    DoneFrame();
    ghost var log := conn.log;
    var ok, len, data := ProcessHandshake(conn, CT_HANDSHAKE, DONE, o, false);
    QuietFor(log, Accepted(DONE[..len]));
  }

  lemma KeyMoved(b: Before, resumes: bool, conn: TlsClient, m: seq<Byte>, len: nat, o: Oracle, key: seq<Byte>)
    requires BringsKey(conn.env, m, key) && CertificatesGood(conn.env, BodyOf(m))
    requires MovesOn(b, resumes, conn, CT_HANDSHAKE, m, len, o)
    requires b.state == ServerCertificate || b.state == ServerChangeCipherSpec
    ensures conn.state == State.ServerKeyExchange && conn.sessionResumed == b.resumed && conn.serverRsaKey == Some(key)
    ensures b.state == ServerCertificate ==> conn.useSessionTicket == b.ticket
    ensures b.state == ServerChangeCipherSpec ==> !conn.useSessionTicket
    ensures conn.rl.cipherSuite == b.suite && conn.rl.tlsVersion == b.version
    ensures conn.clientRandom == b.clientRandom && conn.serverRandom == b.serverRandom
    ensures conn.certificateRequested == b.requested
  {
    hide CertificateList, GetBE24, DhParams;
  }

  lemma CertificateFits(conn: TlsClient, m: seq<Byte>, o: Oracle, key: seq<Byte>)
    requires BringsKey(conn.env, m, key) && CertificatesGood(conn.env, BodyOf(m))
    requires conn.state == ServerCertificate
             || (conn.state == ServerChangeCipherSpec && conn.useSessionTicket && o.fallback >= 0)
    ensures |m| >= 4 && MessageGood(conn, CT_HANDSHAKE, m, o) && !HelloRequest(CT_HANDSHAKE, m)
  {
    hide CertificatesGood, CertificateList, GetBE24;
  }

  /** Certificate, in a full handshake or in place of the answer to a ticket. */
  method ServerCertifies(conn: TlsClient, certificates: seq<Byte>, key: seq<Byte>, o: Oracle)
    requires conn.Inv() && conn.alertLevel == 0 && o.Sound() && NULL_SUITE !in conn.cipherSuites
    requires conn.state == ServerCertificate
             || (conn.state == ServerChangeCipherSpec && conn.useSessionTicket && o.fallback >= 0)
    requires BringsKey(conn.env, certificates, key) && CertificatesGood(conn.env, BodyOf(certificates))
    modifies conn, conn.rl, conn.verify
    ensures conn.Inv() && conn.alertLevel == 0 && conn.state == State.ServerKeyExchange
    ensures conn.sessionResumed == old(conn.sessionResumed) && !conn.useSessionTicket
    ensures conn.rl.writeCbc == old(conn.rl.writeCbc) && conn.rl.cipherSuite == old(conn.rl.cipherSuite)
    ensures conn.rl.readCbc == old(conn.rl.readCbc) || conn.rl.readCbc == null || fresh(conn.rl.readCbc)
    ensures conn.serverRsaKey == Some(key) && conn.certificateRequested == old(conn.certificateRequested)
    ensures conn.clientRandom == old(conn.clientRandom) && conn.serverRandom == old(conn.serverRandom)
    ensures conn.rl.tlsVersion == old(conn.rl.tlsVersion)
  {
    hide TlsClient.Inv, TlsClient.Wf, Oracle.Sound, CertificatesGood, CertificateList, WouldResume, NowFull, Advanced,
         Sole, FixedPart, Keyed, ReadsFresh, MovesOn, MessageGood, BringsKey, HelloRequest;
    if conn.state == ServerCertificate {
      AtCertificate(conn);
    }
    CertificateFits(conn, certificates, o, key);
    ghost var b, resumes := Now(conn), WouldResume(conn, certificates);
    var ok, len, data := ProcessHandshake(conn, CT_HANDSHAKE, certificates, o, false);
    KeyMoved(b, resumes, conn, certificates, len, o, key);
  }

  /** Certificate and ServerHelloDone, in a full handshake or in place of the answer to a ticket. */
  method ServerProves(conn: TlsClient, certificates: seq<Byte>, key: seq<Byte>, o: Oracle)
    requires conn.Inv() && conn.alertLevel == 0 && o.Sound() && NULL_SUITE !in conn.cipherSuites
    requires conn.state == ServerCertificate
             || (conn.state == ServerChangeCipherSpec && conn.useSessionTicket && o.fallback >= 0)
    requires BringsKey(conn.env, certificates, key) && CertificatesGood(conn.env, BodyOf(certificates))
    modifies conn, conn.rl, conn.verify
    ensures conn.Inv() && conn.alertLevel == 0 && conn.state == State.ClientKeyExchange
    ensures conn.sessionResumed == old(conn.sessionResumed) && !conn.useSessionTicket
    ensures conn.rl.writeCbc == old(conn.rl.writeCbc) && conn.rl.cipherSuite == old(conn.rl.cipherSuite)
    ensures conn.rl.readCbc == old(conn.rl.readCbc) || conn.rl.readCbc == null || fresh(conn.rl.readCbc)
    ensures conn.serverRsaKey == Some(key) && conn.certificateRequested == old(conn.certificateRequested)
  {
    hide TlsClient.Inv, TlsClient.Wf, Oracle.Sound, CertificatesGood, BringsKey, NoEvidence;
    ServerCertifies(conn, certificates, key, o);
    ServerEnds(conn, o);
  }

  lemma FlightBrings(log0: seq<Event>, log: seq<Event>, requested: bool, hasKey: bool)
    requires NoEvidence(log0) && ClientFlight(log0, log, requested, hasKey)
    ensures NoEvidence(log)
  {
    hide Kinds;
    var mid: seq<Event> :| KeyFlight(log0, mid, requested, hasKey) && LastPair(mid, log);
    forall k | 0 <= k < |mid|
      ensures !mid[k].ParamsAccepted? && !mid[k].ChainAccepted?
    {
      if k < |log0| {
        assert mid[k] == log0[k];
      }
    }
  }

  /** The flight of a full handshake. */
  method SendsFlight(conn: TlsClient, o: Oracle)
    requires conn.Inv() && conn.alertLevel == 0 && conn.state == State.ClientKeyExchange && o.Sound()
    requires FlightFits(conn, o)
    modifies conn, conn.rl, conn.rl.writeCbc, conn.verify
    ensures conn.Inv() && conn.alertLevel == 0 && conn.state == ServerChangeCipherSpec && SameMode(conn)
    ensures conn.rl.writeCbc == old(conn.rl.writeCbc) || conn.rl.writeCbc == null || fresh(conn.rl.writeCbc)
    ensures conn.rl.readCbc == old(conn.rl.readCbc) && conn.rl.cipherSuite == old(conn.rl.cipherSuite)
    ensures FinishedSent(conn.log) == 1 && (old(NoEvidence(conn.log)) ==> NoEvidence(conn.log))
    ensures conn.inherited == old(conn.inherited) && (Ephemeral(conn.rl.cipherSuite) ==> conn.used == old(conn.dh))
  {
    hide TlsClient.Inv, TlsClient.Wf, Oracle.Sound, Count, NoEvidence, ClientFlight, FlightFits, Ephemeral, EndsFresh,
         Keyed, KeysFrom, PreMaster;
    var flight := HandshakeWrite(conn, o, true);
    if old(NoEvidence(conn.log)) {
      FlightBrings(old(conn.log), conn.log, conn.certificateRequested, conn.env.hasClientKey);
    }
  }

  /** From the client's flight to the end: its messages, those of the server, and what it makes of them. */
  method Finishes(conn: TlsClient, o: Oracle)
    requires conn.Inv() && conn.alertLevel == 0 && conn.state == State.ClientKeyExchange && o.Sound()
    requires FlightFits(conn, o) && NULL_SUITE !in conn.cipherSuites && !conn.useSessionTicket
    modifies conn, conn.rl, conn.rl.writeCbc, conn.rl.readCbc, conn.verify
    ensures if old(conn.sessionResumed) then Client.Doomed(conn)
            else conn.Inv() && conn.alertLevel == 0 && conn.state == Established
    ensures old(!conn.sessionResumed) ==>
              && !conn.sessionResumed
              && conn.rl.cipherSuite == old(conn.rl.cipherSuite) && conn.inherited == old(conn.inherited)
              && (Ephemeral(conn.rl.cipherSuite) ==> conn.used == old(conn.dh))
              && (old(NoEvidence(conn.log)) ==> NoEvidence(conn.log))
  {
    hide TlsClient.Inv, TlsClient.Wf, Oracle.Sound, Count, NoEvidence, FlightFits, Ephemeral, ClientFlight, LastPair,
         EndsFresh, Keyed, KeysFrom, PreMaster;
    SendsFlight(conn, o);
    ServerCloses(conn, o);
    var reply := HandshakeWrite(conn, o, true);
  }

  lemma RsaFits(conn: TlsClient, key: seq<Byte>, o: Oracle)
    requires conn.alertLevel == 0 && !conn.certificateRequested && conn.serverRsaKey == Some(key)
    requires !Ephemeral(conn.rl.cipherSuite)
    requires RsaFlight(conn, key, o)
    ensures FlightFits(conn, o)
  {
  }

  /** The pre-master secret can be encrypted to the key, and the result fits the flight. */
  predicate RsaFlight(conn: TlsClient, key: seq<Byte>, o: Oracle)
  {
    var c := conn.env.rsaEncrypt(key, BE16(conn.HighestVersion()) + o.random(3, 46), o.random(4, 46));
    c.Some? && |c.value| <= 1800
  }

  /** The full handshake with an RSA suite: no session or ticket is taken up, the certificates are good, and
      the pre-master secret can be encrypted to the server's key. */
  method Complete(conn: TlsClient, hello: seq<Byte>, certificates: seq<Byte>, key: seq<Byte>, o: Oracle)
    requires conn.Inv() && conn.alertLevel == 0 && conn.state == State.ClientHello && o.Sound()
    requires OpeningGood(conn, CT_HANDSHAKE, hello, o) && !Resumes(conn, BodyOf(hello)) && !conn.certificateRequested
    requires if conn.AsksTicket() then o.ticket == 0 else !conn.useSessionTicket
    requires !Ephemeral(SuiteIn(BodyOf(hello)))
    requires BringsKey(conn.env, certificates, key) && CertificatesGood(conn.env, BodyOf(certificates))
    requires RsaFlight(conn, key, o)
    modifies conn, conn.rl, conn.verify, conn.rl.writeCbc, conn.rl.readCbc
    ensures conn.Inv() && conn.alertLevel == 0 && conn.state == Established && !conn.sessionResumed
  {
    hide TlsClient.Wf, Oracle.Sound, Count, HelloGood, Resumes, CertificatesGood, BringsKey, TlsClient.Inv, NoEvidence;
    Hellos(conn, hello, o);
    ServerProves(conn, certificates, key, o);
    RsaFits(conn, key, o);
    Finishes(conn, o);
  }

  /** The server gives the ticket up and goes on with its certificates. Only a connection that has not taken the
      session to be resumed as well gets through: otherwise it would send a second Finished, which fails. */
  method FallsBack(conn: TlsClient, hello: seq<Byte>, certificates: seq<Byte>, key: seq<Byte>, o: Oracle)
    requires conn.Inv() && conn.alertLevel == 0 && conn.state == State.ClientHello && o.Sound()
    requires OpeningGood(conn, CT_HANDSHAKE, hello, o) && conn.AsksTicket() && o.ticket > 0 && o.fallback >= 0
    requires !conn.certificateRequested && !Ephemeral(SuiteIn(BodyOf(hello)))
    requires BringsKey(conn.env, certificates, key) && CertificatesGood(conn.env, BodyOf(certificates))
    requires RsaFlight(conn, key, o)
    modifies conn, conn.rl, conn.verify, conn.rl.writeCbc, conn.rl.readCbc
    ensures conn.alertLevel == 0 && conn.state == Established <==> !old(Resumes(conn, BodyOf(hello)))
    ensures conn.alertLevel == 0 ==> conn.Inv()
    ensures old(Resumes(conn, BodyOf(hello))) ==> Client.Doomed(conn)
  {
    hide TlsClient.Inv, TlsClient.Wf, Oracle.Sound, Count, HelloGood, Resumes, CertificatesGood, BringsKey;
    Hellos(conn, hello, o);
    ServerProves(conn, certificates, key, o);
    RsaFits(conn, key, o);
    Finishes(conn, o);
  }

  // ---------------------------------------------------------------- parameters left over

  lemma DhFits(conn: TlsClient, o: Oracle)
    requires conn.alertLevel == 0 && !conn.certificateRequested && conn.dh.Some? && SignedSuite(conn.rl.cipherSuite)
    requires var c := conn.env.dhShare(conn.dh, o.random(3, |conn.dh.value.p|)); c.Some? && |c.value.0| <= 1800
    ensures FlightFits(conn, o) && Ephemeral(conn.rl.cipherSuite)
  {
  }

  lemma NothingSigned(conn: TlsClient)
    requires NoEvidence(conn.log)
    ensures !Client.UsedSigned(conn)
  {
  }

  /** Whatever parameters are there when the ClientHello is sent, a server can have them used with a DHE_RSA
      suite although it proves nothing: it sends ServerHelloDone right behind its ServerHello. */
  method LeftOver(conn: TlsClient, hello: seq<Byte>, o: Oracle)
    requires conn.Inv() && conn.alertLevel == 0 && conn.state == State.ClientHello && o.Sound() && conn.dh.Some?
    requires OpeningGood(conn, CT_HANDSHAKE, hello, o) && !Resumes(conn, BodyOf(hello)) && !conn.certificateRequested
    requires if conn.AsksTicket() then o.ticket == 0 else !conn.useSessionTicket
    requires SignedSuite(SuiteIn(BodyOf(hello)))
    requires var c := conn.env.dhShare(conn.dh, o.random(3, |conn.dh.value.p|)); c.Some? && |c.value.0| <= 1800
    modifies conn, conn.rl, conn.verify, conn.rl.writeCbc, conn.rl.readCbc
    ensures conn.Inv() && conn.alertLevel == 0 && conn.state == Established && !conn.sessionResumed
    ensures SignedSuite(conn.rl.cipherSuite) && conn.used == conn.inherited == old(conn.dh)
    ensures NoEvidence(conn.log) && !Client.UsedSigned(conn)
  {
    hide TlsClient.Inv, TlsClient.Wf, Oracle.Sound, Count, HelloGood, Resumes, NoEvidence, ClientFlight, Client.UsedSigned;
    Hellos(conn, hello, o);
    ServerEnds(conn, o);
    DhFits(conn, o);
    Finishes(conn, o);
    NothingSigned(conn);
  }

  /** A whole ServerKeyExchange message with well-formed parameters, signed under the key for these randoms. */
  ghost predicate SignedExchange(env: Env, exchange: seq<Byte>, version: nat, key: seq<Byte>, randoms: seq<Byte>)
  {
    var f := Unframe(CT_HANDSHAKE, exchange);
    && f.Whole? && f.kind == HS_SERVER_KEY_EXCHANGE && DhParams(BodyOf(exchange)).Some?
    && SignedParams(env, ParamsAccepted(key, version, randoms, BodyOf(exchange)))
  }

  lemma ExchangeFits(conn: TlsClient, m: seq<Byte>, o: Oracle, key: seq<Byte>)
    requires conn.state == State.ServerKeyExchange && conn.serverRsaKey == Some(key) && SignedSuite(conn.rl.cipherSuite)
    requires SignedExchange(conn.env, m, conn.rl.tlsVersion, key, conn.clientRandom + conn.serverRandom)
    ensures |m| >= 4 && MessageGood(conn, CT_HANDSHAKE, m, o) && !HelloRequest(CT_HANDSHAKE, m)
  {
    hide SignedProperly, DhParams, GetBE24;
  }

  lemma ParamsMoved(b: Before, resumes: bool, conn: TlsClient, m: seq<Byte>, len: nat, o: Oracle)
    requires Unframe(CT_HANDSHAKE, m).Whole? && m[0] == HS_SERVER_KEY_EXCHANGE && DhParams(BodyOf(m)).Some?
    requires MovesOn(b, resumes, conn, CT_HANDSHAKE, m, len, o) && b.state == State.ServerKeyExchange
    ensures conn.state == ServerCertificateRequest && conn.dh == Some(DhParams(BodyOf(m)).value.0)
    ensures conn.useSessionTicket == b.ticket
  {
    hide DhParams, GetBE24;
  }

  /** Certificate and ServerKeyExchange. */
  method ServerExchanges(conn: TlsClient, certificates: seq<Byte>, key: seq<Byte>, exchange: seq<Byte>, o: Oracle)
    requires conn.Inv() && conn.alertLevel == 0 && conn.state == ServerCertificate && o.Sound()
    requires NULL_SUITE !in conn.cipherSuites && SignedSuite(conn.rl.cipherSuite)
    requires BringsKey(conn.env, certificates, key) && CertificatesGood(conn.env, BodyOf(certificates))
    requires SignedExchange(conn.env, exchange, conn.rl.tlsVersion, key, conn.clientRandom + conn.serverRandom)
    modifies conn, conn.rl, conn.verify
    ensures conn.Inv() && conn.alertLevel == 0 && conn.state == ServerCertificateRequest
    ensures conn.rl.writeCbc == old(conn.rl.writeCbc)
    ensures conn.rl.readCbc == old(conn.rl.readCbc) || conn.rl.readCbc == null || fresh(conn.rl.readCbc)
    ensures conn.dh == Some(DhParams(BodyOf(exchange)).value.0) && !conn.useSessionTicket
  {
    hide TlsClient.Inv, TlsClient.Wf, Oracle.Sound, CertificatesGood, BringsKey, SignedProperly, DhParams,
         WouldResume, NowFull, Advanced, Sole, FixedPart, Keyed, ReadsFresh, MovesOn, MessageGood, HelloRequest,
         SignedSuite;
    ServerCertifies(conn, certificates, key, o);
    ExchangeFits(conn, exchange, o, key);
    ghost var b, resumes := Now(conn), WouldResume(conn, exchange);
    var ok, len, data := ProcessHandshake(conn, CT_HANDSHAKE, exchange, o, false);
    ParamsMoved(b, resumes, conn, exchange, len, o);
  }

  /** Then an alert: the connection fails without an alert of its own and keeps the parameters. */
  method ServerBreaksOff(conn: TlsClient, o: Oracle)
    requires conn.Inv() && conn.alertLevel == 0 && o.Sound() && NULL_SUITE !in conn.cipherSuites
    modifies conn, conn.rl, conn.verify
    ensures conn.Inv() && conn.alertLevel == 0 && conn.state == Failed
    ensures conn.rl.writeCbc == old(conn.rl.writeCbc)
    ensures conn.rl.readCbc == old(conn.rl.readCbc) || conn.rl.readCbc == null || fresh(conn.rl.readCbc)
    ensures conn.dh == old(conn.dh) && conn.useSessionTicket == old(conn.useSessionTicket)
  {
    hide TlsClient.Inv, TlsClient.Wf, Oracle.Sound, WouldResume, NowFull, Advanced, Sole, FixedPart, Keyed, ReadsFresh;
    var ok, len, data := ProcessHandshake(conn, CT_ALERT, [ALERT_LEVEL_FATAL, ALERT_HANDSHAKE_FAILURE], o, false);
  }

  /** A ServerHello that does not depend on what the connection remembers: it names no session. */
  predicate NewHello(conn: TlsClient, hello: seq<Byte>, o: Oracle)
  {
    && Unframe(CT_HANDSHAKE, hello).Whole? && Unframe(CT_HANDSHAKE, hello).kind == HS_SERVER_HELLO
    && var body := BodyOf(hello);
       && |body| >= 37 && body[34] == 0 && AllowedVersion(conn, GetBE16(body[..2]))
       && SuiteIn(body) in conn.cipherSuites && SuiteData(SuiteIn(body)).Some? && TailAlert(body[37..]).None?
       && (conn.AsksTicket() ==> o.ticket == 0)
  }

  lemma NewHelloGood(conn: TlsClient, hello: seq<Byte>, o: Oracle)
    requires NewHello(conn, hello, o)
    ensures OpeningGood(conn, CT_HANDSHAKE, hello, o) && HelloGood(conn, BodyOf(hello)) && !Resumes(conn, BodyOf(hello))
    ensures conn.AsksTicket() ==> o.ticket == 0
  {
    hide TailAlert, GetBE16, SuiteData;
  }

  // ---------------------------------------------------------------- what is asked of the server's messages, written out

  lemma WholeMessage(m: seq<Byte>, kind: Byte)
    ensures Unframe(CT_HANDSHAKE, m).Whole? && Unframe(CT_HANDSHAKE, m).kind == kind <==>
              |m| >= 4 && m[0] == kind && 4 + BytesVal(m[1..4]) <= |m|
    ensures Unframe(CT_HANDSHAKE, m).Whole? ==>
              |m| >= 4 && 4 + BytesVal(m[1..4]) <= |m| && BodyOf(m) == m[4..4 + BytesVal(m[1..4])]
  {
    hide BytesVal, GetBE24;
    if |m| >= 4 {
      FieldsRead(m[1..4]);
      assert m[1..4][..3] == m[1..4];
    }
  }

  lemma BringsKeyIs(env: Env, m: seq<Byte>, key: seq<Byte>)
    ensures BringsKey(env, m, key) <==>
              && |m| >= 4 && m[0] == 11 && 4 + BytesVal(m[1..4]) <= |m| && BytesVal(m[1..4]) >= 3
              && var chain := CertificateList(m[4..4 + BytesVal(m[1..4])][3..]);
                 chain.Some? && chain.value != [] && env.certKey(chain.value[0]) == Some(key)
  {
    hide BytesVal, GetBE24, CertificateList, Unframe;
    WholeMessage(m, 11);
  }

  lemma RsaFlightIs(conn: TlsClient, key: seq<Byte>, o: Oracle)
    ensures RsaFlight(conn, key, o) <==>
              var c := conn.env.rsaEncrypt(key, [3, if conn.disable12 then 2 else 3] + o.random(3, 46), o.random(4, 46));
              c.Some? && |c.value| <= 1800
  {
  }

  lemma SignedExchangeIs(env: Env, m: seq<Byte>, version: nat, key: seq<Byte>, randoms: seq<Byte>)
    ensures SignedExchange(env, m, version, key, randoms) <==>
              && |m| >= 4 && m[0] == 12 && 4 + BytesVal(m[1..4]) <= |m|
              && var body := m[4..4 + BytesVal(m[1..4])];
                 && DhParams(body).Some?
                 && var n := DhParams(body).value.1;
                    && env.paramsSigned(version, Some(key), randoms, body[..n], body[n..])
                    && (version == 0x0303 ==> |body| >= n + 2 && body[n] in {4, 5, 6} && body[n + 1] == 1)
  {
    hide BytesVal, GetBE24, DhParams, Unframe;
    WholeMessage(m, 12);
  }

  lemma NewHelloIs(conn: TlsClient, m: seq<Byte>, o: Oracle)
    ensures NewHello(conn, m, o) <==>
              && |m| >= 4 && m[0] == 2 && 4 + BytesVal(m[1..4]) <= |m|
              && var body := m[4..4 + BytesVal(m[1..4])];
                 && |body| >= 37 && body[34] == 0 && !Resumes(conn, body)
                 && HelloGood(conn, body)
                 && (conn.sessionTicketIncluded && conn.ticketCallback ==> o.ticket == 0)
  {
    hide BytesVal, GetBE24, GetBE16, SuiteData, TailAlert, Unframe;
    WholeMessage(m, 2);
  }

  /** Two connections of one client object: the first is broken off behind its ServerKeyExchange, and after a
      shutdown the second one agrees on those parameters with a server that has shown nothing. */
  method TwoConnections(conn: TlsClient, hello: seq<Byte>, certificates: seq<Byte>, key: seq<Byte>, exchange: seq<Byte>,
                        o: Oracle, again: seq<Byte>, next: Oracle)
    requires conn.Inv() && conn.alertLevel == 0 && conn.state == State.ClientHello && o.Sound() && next.Sound()
    requires !conn.useSessionTicket && NewHello(conn, hello, o) && NewHello(conn, again, next)
    requires SignedSuite(SuiteIn(BodyOf(hello))) && SignedSuite(SuiteIn(BodyOf(again)))
    requires BringsKey(conn.env, certificates, key) && CertificatesGood(conn.env, BodyOf(certificates))
    requires SignedExchange(conn.env, exchange, GetBE16(BodyOf(hello)[..2]), key, o.random(0, 32) + BodyOf(hello)[2..34])
    requires var dh := DhParams(BodyOf(exchange)).value.0;
             var c := conn.env.dhShare(Some(dh), next.random(3, |dh.p|)); c.Some? && |c.value.0| <= 1800
    modifies conn, conn.rl, conn.verify, conn.rl.writeCbc, conn.rl.readCbc
    ensures conn.Inv() && conn.alertLevel == 0 && conn.state == Established && !conn.sessionResumed
    ensures SignedSuite(conn.rl.cipherSuite) && conn.used == Some(DhParams(BodyOf(exchange)).value.0)
    ensures NoEvidence(conn.log) && !Client.UsedSigned(conn)
  {
    hide Client.UsedSigned, TlsClient.Inv, TlsClient.Wf, Oracle.Sound, Count, HelloGood, Resumes, NoEvidence,
         OpeningGood, NewHello, BringsKey, CertificatesGood, SignedExchange, SignedSuite;
    NewHelloGood(conn, hello, o);
    Hellos(conn, hello, o);
    ServerExchanges(conn, certificates, key, exchange, o);
    ServerBreaksOff(conn, o);
    Client.Shutdown(conn);
    NewHelloGood(conn, again, next);
    LeftOver(conn, again, next);
  }
}
