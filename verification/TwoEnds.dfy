/** The client and a server that follows the protocol, each with its record layer: from the ClientHello through the
    handshake's records to application data in both directions. */
module TwoEnds {
  import Cipher
  import Honest
  import Streams
  import opened Bytes
  import opened Client
  import opened ClientRead
  import opened ClientWrite
  import opened DhParameters
  import opened Options
  import opened Record
  import opened RecordLayers
  import opened TlsClients
  import opened TlsLog

  /** The record layer of the server works, and shares nothing with the client's. */
  ghost predicate Beside(conn: TlsClient, server: RecordLayer)
    reads conn.rl`writeCbc, conn.rl`readCbc, server, server.writeCbc
  {
    && server != conn.rl && server.prim == conn.env.prim && server.WriteReady()
    && (server.writeCbc == null || (server.writeCbc != conn.rl.writeCbc && server.writeCbc != conn.rl.readCbc))
    && (server.readCbc == null
        || (server.readCbc != conn.rl.writeCbc && server.readCbc != conn.rl.readCbc && server.readCbc != server.writeCbc))
  }

  /** The client can read what the server sends next: both in the clear, or the one reading what the other writes. */
  ghost predicate Hears(conn: TlsClient, server: RecordLayer)
    reads conn.rl, conn.rl.readCbc, server, server.writeCbc
  {
    && conn.rl.ReadReady() && server.WriteReady()
    && ((server.writeCipherSuite == NULL_SUITE && conn.rl.readCipherSuite == NULL_SUITE)
        || (server.Settings() == conn.rl.Settings() && Mirrored(conn.rl.Settings(), server.Writing(), conn.rl.Reading())))
  }

  /** The server sends a record. */
  method Emit(server: RecordLayer, ct: Byte, m: seq<Byte>, rnd: seq<Byte>) returns (record: seq<Byte>)
    requires server.WriteReady() && ValidDirection(server.Settings(), server.Writing()) && |rnd| == server.ivSize
    modifies server`writeSeqNum, server.writeCbc
    ensures server.WriteReady()
    ensures record == old(RecordOf(server.Settings(), server.Writing(), ct, m, rnd))
    ensures server.Writing() == old(Stepped(server.Settings(), server.Writing(),
                                            Body(server.Settings(), server.Writing(), ct, m, rnd)))
  {
    hide RecordLayer.WriteReady, ValidDirection, RecordOf, Body, Stepped;
    WritingValid(server);
    BodySize(server.Settings(), server.Writing(), ct, m, rnd);
    var buf := new Byte[HEADER_LEN + |m| + 64];
    var ok, n := server.Send(ct, buf, buf.Length, m, rnd);
    record := buf[..n];
  }

  /** What the client's record layer makes of that record. */
  lemma Heard(conn: TlsClient, server: RecordLayer, ct: Byte, m: seq<Byte>, rnd: seq<Byte>)
    requires Hears(conn, server) && |rnd| == server.ivSize && KnownType(ct) && |m| <= 17403
    ensures ValidDirection(server.Settings(), server.Writing()) && ValidDirection(conn.rl.Settings(), conn.rl.Reading())
    ensures var p, w := server.Settings(), server.Writing();
            var r := Arrival(conn, RecordOf(p, w, ct, m, rnd));
            && r.Good? && r.used == |RecordOf(p, w, ct, m, rnd)| && r.ct == ct && r.payload == m
            && (Mirrored(conn.rl.Settings(), w, conn.rl.Reading()) && p == conn.rl.Settings() ==>
                  Mirrored(p, Stepped(p, w, Body(p, w, ct, m, rnd)), r.next))
  {
    hide Receipt, RecordOf, Body, Stepped, ValidDirection, RecordLayer.WriteReady, RecordLayer.ReadReady;
    WritingValid(server);
    ReadingValid(conn.rl);
    var p, w := server.Settings(), server.Writing();
    var record := RecordOf(p, w, ct, m, rnd);
    assert record + [] == record;
    SizeOf(p, w, ct, m, rnd);
    if p == conn.rl.Settings() && Mirrored(p, w, conn.rl.Reading()) {
      RecordRoundTrip(p, w, conn.rl.Reading(), ct, m, rnd, [], |record|);
    } else {
      ClearRecord(conn.rl.Settings(), conn.rl.Reading(), p, w, ct, m, rnd);
    }
  }

  lemma SizeOf(p: Params, w: Direction, ct: Byte, m: seq<Byte>, rnd: seq<Byte>)
    requires ValidParams(p) && ValidDirection(p, w) && (ExplicitIv(p) ==> |rnd| == p.ivSize) && |m| <= 17403
    ensures |Body(p, w, ct, m, rnd)| < 65536
    ensures |RecordOf(p, w, ct, m, rnd)| == HEADER_LEN + |Body(p, w, ct, m, rnd)|
  {
    BodySize(p, w, ct, m, rnd);
  }

  /** The server's record reaches the client, which makes of it what it makes of the message. */
  method Hand(conn: TlsClient, server: RecordLayer, ct: Byte, m: seq<Byte>, rnd: seq<Byte>, o: Oracle)
    returns (out: seq<Byte>, ghost d: Delivery)
    requires conn.Inv() && o.Sound() && conn.partialInput == [] && Sole(conn, ct, m, o) && KnownType(ct) && |m| <= 17403
    requires Beside(conn, server) && Hears(conn, server) && |rnd| == server.ivSize
    modifies conn, conn.rl, conn.verify, conn.rl.writeCbc, conn.rl.readCbc, server`writeSeqNum, server.writeCbc
    ensures conn.Inv() && conn.partialInput == [] && Beside(conn, server)
    ensures conn.rl.readCbc == old(conn.rl.readCbc) || conn.rl.readCbc == null || fresh(conn.rl.readCbc)
    ensures conn.rl.writeCbc == old(conn.rl.writeCbc) || conn.rl.writeCbc == null || fresh(conn.rl.writeCbc)
    ensures d.record.Good? && d.record.ct == ct && d.record.payload == m && d.before == old(NowFull(conn, m))
    ensures Answered(d, old(FlightFits(conn, o)), conn, out, o)
    ensures old(InStep(conn, server)) ==> Mirrored(server.Settings(), server.Writing(), d.record.next)
  {
    hide TlsClient.Inv, Oracle.Sound, Sole, NowFull, FlightFits, Answered, Mirrored, RecordOf, Body, Stepped, Receipt,
         ValidDirection, RecordLayer.WriteReady, RecordLayer.ReadReady, RecordLayer.Writing, RecordLayer.Reading;
    Heard(conn, server, ct, m, rnd);
    var record := Emit(server, ct, m, rnd);
    assert Carries(conn, record, o);
    d := Parcel(conn, record);
    var flight, data, more := Handshake(conn, record, o, true, true);
    out := flight.value;
  }

  ghost predicate InStep(conn: TlsClient, server: RecordLayer)
    reads conn.rl, conn.rl.readCbc, server, server.writeCbc
  {
    && conn.rl.ReadReady() && server.WriteReady() && server.Settings() == conn.rl.Settings()
    && Mirrored(conn.rl.Settings(), server.Writing(), conn.rl.Reading())
  }

  lemma FullParts(conn: TlsClient, m: seq<Byte>)
    ensures var b := NowFull(conn, m);
            && b.before == Now(conn) && b.resumes == WouldResume(conn, m) && b.keyed == Keyed(conn)
            && b.sent == FinishedSent(conn.log) && b.fixed == FixedPart(conn.rl)
  {
  }

  // ---------------------------------------------------------------- what the client makes of each message

  lemma HelloHeard(d: Delivery, fits: bool, conn: TlsClient, out: seq<Byte>, o: Oracle)
    requires Answered(d, fits, conn, out, o) && d.before.before.state == State.ServerHello
    requires d.record.ct == CT_HANDSHAKE && d.record.payload[0] == HS_SERVER_HELLO
    ensures var b, m := d.before.before, d.record.payload;
            && conn.alertLevel == 0 && 4 <= |m| && |m| == 4 + GetBE24(m[1..4]) && HelloTaken(conn, m[4..|m|])
            && conn.sessionResumed == d.before.resumes && conn.useSessionTicket == TicketUsed(conn, o, b.ticket)
            && conn.state == (if conn.sessionResumed || conn.useSessionTicket then ServerChangeCipherSpec else ServerCertificate)
            && conn.certificateRequested == b.requested && FinishedSent(conn.log) == d.before.sent
            && (conn.state == ServerChangeCipherSpec ==> Keyed(conn))
  {
    hide HelloTaken, TicketUsed, Keyed, FixedPart, Count, ReadsFresh, GetBE24;
  }

  lemma CertificateHeard(d: Delivery, fits: bool, conn: TlsClient, out: seq<Byte>, o: Oracle, key: seq<Byte>)
    requires Answered(d, fits, conn, out, o) && d.before.before.state == ServerCertificate
    requires d.record.ct == CT_HANDSHAKE && d.record.payload[0] == HS_CERTIFICATE
    requires Honest.BringsKey(conn.env, d.record.payload, key)
    ensures var b := d.before.before;
            && conn.alertLevel == 0 && conn.state == State.ServerKeyExchange && conn.serverRsaKey == Some(key)
            && conn.sessionResumed == b.resumed && conn.useSessionTicket == b.ticket
            && conn.certificateRequested == b.requested && FixedPart(conn.rl) == d.before.fixed
  {
    hide Keyed, FixedPart, Count, ReadsFresh, DhParams, CertificateList;
  }

  lemma SwitchHeard(d: Delivery, fits: bool, conn: TlsClient, out: seq<Byte>, o: Oracle)
    requires Answered(d, fits, conn, out, o) && d.before.before.state == ServerChangeCipherSpec
    requires d.record.ct == CT_CHANGE_CIPHER_SPEC
    ensures var b := d.before.before;
            && conn.alertLevel == 0 && conn.state == State.ServerFinished && conn.sessionResumed == b.resumed
            && conn.useSessionTicket == b.ticket && FinishedSent(conn.log) == d.before.sent
            && FixedPart(conn.rl) == d.before.fixed && (d.before.keyed ==> Keyed(conn)) && ReadsFresh(conn.rl)
  {
    hide Keyed, FixedPart, Count, ReadsFresh, DhParams;
  }

  lemma SoleHello(conn: TlsClient, hello: seq<Byte>, o: Oracle)
    requires conn.alertLevel == 0 && conn.state == State.ServerHello && OpeningGood(conn, CT_HANDSHAKE, hello, o)
    requires Extent(CT_HANDSHAKE, hello) == |hello|
    ensures Sole(conn, CT_HANDSHAKE, hello, o) && hello[0] == HS_SERVER_HELLO
    ensures WouldResume(conn, hello) == (HelloGood(conn, Honest.BodyOf(hello)) && Resumes(conn, Honest.BodyOf(hello)))
    ensures Honest.BodyOf(hello) == hello[4..|hello|]
  {
    hide HelloGood, Resumes, GetBE24;
  }

  /** Until the server's ChangeCipherSpec the client reads in the clear. */
  lemma StillClear(conn: TlsClient)
    requires conn.Inv()
    ensures conn.rl.ReadReady() && conn.rl.WriteReady()
    ensures conn.state == State.ServerHello || conn.state == ServerChangeCipherSpec || WaitsForMiddle(conn.state) ==>
              conn.rl.readCipherSuite == NULL_SUITE
  {
    hide Count, Started, Transcript, Legal, Vouched;
  }

  lemma RandomSize(s: Oracle, use: nat, n: nat)
    requires s.Sound()
    ensures |s.random(use, n)| == n
  {
  }

  lemma Chosen(conn: TlsClient, body: seq<Byte>)
    requires conn.Inv() && HelloTaken(conn, body)
    requires conn.state == ServerChangeCipherSpec || conn.state == ServerCertificate
    ensures conn.rl.Configured() && conn.rl.cipherAlg != Cipher.Null && VERSION_1 <= conn.rl.tlsVersion <= VERSION_1_2
    ensures conn.rl.prim == conn.env.prim && conn.rl.cipherSuite != NULL_SUITE
  {
    hide Count, Started, Transcript, Legal, Vouched, SuiteData, GetBE16;
  }

  /** The server configures its record layer for the suite and the version it has chosen. */
  method Choose(conn: TlsClient, server: RecordLayer)
    requires Beside(conn, server) && server.writeCipherSuite == server.readCipherSuite == NULL_SUITE
    requires conn.rl.Configured() && conn.rl.cipherAlg != Cipher.Null && VERSION_1 <= conn.rl.tlsVersion <= VERSION_1_2
    requires conn.rl.prim == conn.env.prim && conn.rl.cipherSuite != NULL_SUITE
    modifies server`tlsVersion, server`cipherSuite, server`macAlg, server`hashSize, server`keyMaterialLen, server`ivSize
    modifies server`cipherAlg
    ensures Beside(conn, server) && Agreed(conn.rl, server)
  {
    hide SuiteData, Primitives.Sound;
    server.tlsVersion := conn.rl.tlsVersion;
    var ok := server.SetCipherSuite(conn.rl.cipherSuite);
  }

  /** ServerHello. */
  method Greet(conn: TlsClient, server: RecordLayer, hello: seq<Byte>, o: Oracle, s: Oracle)
    requires conn.Inv() && conn.alertLevel == 0 && conn.state == State.ServerHello && o.Sound() && s.Sound()
    requires conn.partialInput == [] && OpeningGood(conn, CT_HANDSHAKE, hello, o)
    requires Extent(CT_HANDSHAKE, hello) == |hello| <= 17403
    requires Beside(conn, server) && server.writeCipherSuite == server.readCipherSuite == NULL_SUITE
    modifies conn, conn.rl, conn.verify, conn.rl.writeCbc, conn.rl.readCbc, server, server.writeCbc
    ensures conn.Inv() && conn.alertLevel == 0 && conn.partialInput == [] && Beside(conn, server)
    ensures conn.rl.readCbc == old(conn.rl.readCbc) || conn.rl.readCbc == null || fresh(conn.rl.readCbc)
    ensures conn.rl.writeCbc == old(conn.rl.writeCbc) || conn.rl.writeCbc == null || fresh(conn.rl.writeCbc)
    ensures server.writeCbc == old(server.writeCbc) && server.readCbc == old(server.readCbc)
    ensures server.writeCipherSuite == server.readCipherSuite == NULL_SUITE
    ensures HelloTaken(conn, Honest.BodyOf(hello)) && Agreed(conn.rl, server)
    ensures FinishedSent(conn.log) == old(FinishedSent(conn.log))
    ensures conn.sessionResumed == old(HelloGood(conn, Honest.BodyOf(hello)) && Resumes(conn, Honest.BodyOf(hello)))
    ensures conn.useSessionTicket == TicketUsed(conn, o, old(conn.useSessionTicket))
    ensures conn.state == if conn.sessionResumed || conn.useSessionTicket then ServerChangeCipherSpec else ServerCertificate
    ensures conn.state == ServerChangeCipherSpec ==> Keyed(conn)
    ensures conn.certificateRequested == old(conn.certificateRequested)
  {
    hide TlsClient.Inv, Oracle.Sound, Sole, NowFull, Answered, OpeningGood, HelloGood, Resumes, HelloTaken,
         TicketUsed, Keyed, Count, WouldResume, RecordLayer.WriteReady, RecordLayer.ReadReady, FlightFits, FixedPart,
         Agreed, RecordLayer.Configured, Extent, RecordLayer.Reading, RecordLayer.Writing, RecordLayer.CanRead,
         RecordLayer.CanWrite, RecordLayer.Settings, Mirrored;
    StillClear(conn);
    SoleHello(conn, hello, o);
    FullParts(conn, hello);
    RandomSize(s, 0, server.ivSize);
    ghost var fits := FlightFits(conn, o);
    var out, d := Hand(conn, server, CT_HANDSHAKE, hello, s.random(0, server.ivSize), o);
    HelloHeard(d, fits, conn, out, o);
    Chosen(conn, Honest.BodyOf(hello));
    Choose(conn, server);
  }

  lemma SoleCertificate(conn: TlsClient, certificates: seq<Byte>, key: seq<Byte>, o: Oracle)
    requires conn.alertLevel == 0 && conn.state == ServerCertificate && Honest.BringsKey(conn.env, certificates, key)
    requires CertificatesGood(conn.env, Honest.BodyOf(certificates))
    requires Extent(CT_HANDSHAKE, certificates) == |certificates|
    ensures Sole(conn, CT_HANDSHAKE, certificates, o) && certificates[0] == HS_CERTIFICATE
  {
    hide CertificatesGood, CertificateList, GetBE24;
  }

  lemma SoleDone(conn: TlsClient, o: Oracle)
    requires conn.alertLevel == 0 && WaitsForMiddle(conn.state)
    ensures Sole(conn, CT_HANDSHAKE, Honest.DONE, o)
  {
    Honest.DoneFrame();
  }

  /** Certificate. */
  method Certify(conn: TlsClient, server: RecordLayer, certificates: seq<Byte>, key: seq<Byte>, o: Oracle, s: Oracle)
    requires conn.Inv() && conn.alertLevel == 0 && conn.state == ServerCertificate && o.Sound() && s.Sound()
    requires conn.partialInput == [] && Beside(conn, server) && server.writeCipherSuite == NULL_SUITE
    requires Honest.BringsKey(conn.env, certificates, key) && CertificatesGood(conn.env, Honest.BodyOf(certificates))
    requires Extent(CT_HANDSHAKE, certificates) == |certificates| <= 17403
    modifies conn, conn.rl, conn.verify, conn.rl.writeCbc, conn.rl.readCbc, server`writeSeqNum, server.writeCbc
    ensures conn.Inv() && conn.alertLevel == 0 && conn.partialInput == [] && Beside(conn, server)
    ensures conn.rl.readCbc == old(conn.rl.readCbc) || conn.rl.readCbc == null || fresh(conn.rl.readCbc)
    ensures conn.rl.writeCbc == old(conn.rl.writeCbc) || conn.rl.writeCbc == null || fresh(conn.rl.writeCbc)
    ensures conn.state == State.ServerKeyExchange && conn.serverRsaKey == Some(key)
    ensures conn.sessionResumed == old(conn.sessionResumed) && conn.useSessionTicket == old(conn.useSessionTicket)
    ensures conn.certificateRequested == old(conn.certificateRequested) && FixedPart(conn.rl) == old(FixedPart(conn.rl))
  {
    hide TlsClient.Inv, Oracle.Sound, Sole, NowFull, Answered, Keyed, Count, WouldResume, RecordLayer.WriteReady,
         RecordLayer.ReadReady, FlightFits, FixedPart, Extent, CertificatesGood, Honest.BringsKey;
    StillClear(conn);
    SoleCertificate(conn, certificates, key, o);
    FullParts(conn, certificates);
    RandomSize(s, 1, server.ivSize);
    ghost var fits := FlightFits(conn, o);
    var out, d := Hand(conn, server, CT_HANDSHAKE, certificates, s.random(1, server.ivSize), o);
    CertificateHeard(d, fits, conn, out, o, key);
  }

  /** ServerHelloDone, and the client's flight. */
  method Finalize(conn: TlsClient, server: RecordLayer, o: Oracle, s: Oracle) returns (flight: seq<Byte>)
    requires conn.Inv() && WaitsForMiddle(conn.state) && o.Sound() && s.Sound() && FlightFits(conn, o)
    requires conn.partialInput == [] && Beside(conn, server) && server.writeCipherSuite == NULL_SUITE
    modifies conn, conn.rl, conn.verify, conn.rl.writeCbc, conn.rl.readCbc, server`writeSeqNum, server.writeCbc
    ensures conn.Inv() && conn.partialInput == [] && Beside(conn, server)
    ensures conn.rl.readCbc == old(conn.rl.readCbc) || conn.rl.readCbc == null || fresh(conn.rl.readCbc)
    ensures conn.rl.writeCbc == old(conn.rl.writeCbc) || conn.rl.writeCbc == null || fresh(conn.rl.writeCbc)
    ensures Flown(old(Now(conn)), conn, flight) && SameConfig(old(FixedPart(conn.rl)), conn.rl)
  {
    hide TlsClient.Inv, Oracle.Sound, Sole, NowFull, Keyed, Count, WouldResume, RecordLayer.WriteReady,
         RecordLayer.ReadReady, FixedPart, Extent, Flown, SameConfig, ClientShare, Arrived, Closed;
    StillClear(conn);
    SoleDone(conn, o);
    FullParts(conn, Honest.DONE);
    RandomSize(s, 2, server.ivSize);
    var out, d := Hand(conn, server, CT_HANDSHAKE, Honest.DONE, s.random(2, server.ivSize), o);
    flight := out;
  }

  // ---------------------------------------------------------------- under the new keys

  /** What was sent ends with a record that leaves a reader in that state. */
  ghost predicate ReadTo(p: Params, d: Direction, sent: seq<Byte>, r: Direction)
    requires ValidDirection(p, d)
  {
    exists front: seq<Byte>, record: seq<Byte>, m: seq<Byte> {:trigger Ends(sent, front, record, m)} ::
      Ends(sent, front, record, m) && Receipt(p, d, record, |record|) == Good(|record|, CT_HANDSHAKE, m, r)
  }

  predicate Ends(sent: seq<Byte>, front: seq<Byte>, record: seq<Byte>, m: seq<Byte>)
  {
    sent == front + record && |m| <= 16
  }

  /** The server reads the client's Finished, and from then on what the client writes. */
  lemma FlightRead(rl: RecordLayer, d: Direction, flight: seq<Byte>) returns (r: Direction)
    requires EndsFresh(rl, flight) && rl.WriteReady() && rl.KeysFit() && Mirrored(rl.Settings(), rl.FreshWriting(), d)
    ensures ReadTo(rl.Settings(), d, flight, r) && Mirrored(rl.Settings(), rl.Writing(), r)
  {
    hide Receipt, RecordOf, Body, Stepped, Mirrored, ValidDirection, RecordLayer.WriteReady, RecordLayer.Writing,
         RecordLayer.FreshWriting, RecordLayer.Settings, RecordLayer.KeysFit;
    var front: seq<Byte>, record: seq<Byte>, m: seq<Byte>, rnd: seq<Byte> :|
      flight == front + record && FirstRecord(rl, record, m, rnd);
    IvSize(rl);
    ValidSettings(rl);
    Streams.MirroredValid(rl.Settings(), rl.FreshWriting(), d);
    SizeOf(rl.Settings(), rl.FreshWriting(), CT_HANDSHAKE, m, rnd);
    assert record + [] == record;
    RecordRoundTrip(rl.Settings(), rl.FreshWriting(), d, CT_HANDSHAKE, m, rnd, [], |record|);
    r := Receipt(rl.Settings(), d, record, |record|).next;
    assert Ends(flight, front, record, m);
  }

  lemma IvSize(rl: RecordLayer)
    requires rl.WriteReady()
    ensures rl.Valid() && rl.Settings().ivSize == rl.ivSize
  {
  }

  lemma SoleSwitch(conn: TlsClient, o: Oracle)
    requires conn.alertLevel == 0 && conn.state == ServerChangeCipherSpec
    ensures Sole(conn, CT_CHANGE_CIPHER_SPEC, [1], o)
  {
  }

  /** The reading direction the dealt keys give. */
  ghost function FreshOf(f: Fixed): Direction
    requires |f.readIv| == 16 && f.keyMaterialLen <= |f.readKey| && f.hashSize <= |f.readMacSecret|
  {
    Direction(if f.cipherSuite == NULL_SUITE then None
              else Some(FreshState(f.settings.prim, f.cipherAlg, f.readIv, f.readKey[..f.keyMaterialLen])),
              f.readMacSecret[..f.hashSize], Zeros(8))
  }

  lemma SameReading(rl: RecordLayer, f: Fixed)
    requires rl.KeysFit() && FixedPart(rl) == f
    ensures |f.readIv| == 16 && f.keyMaterialLen <= |f.readKey| && f.hashSize <= |f.readMacSecret|
    ensures rl.FreshReading() == FreshOf(f) && SameConfig(f, rl)
  {
  }

  /** Agreement with a record layer that had those parameters. */
  ghost predicate AgreesWith(f: Fixed, b: RecordLayer)
    reads b`tlsVersion, b`ivSize, b`macAlg, b`cipherSuite, b`cipherAlg, b`hashSize, b`keyMaterialLen
  {
    && f.settings == b.Settings() && f.cipherAlg == b.cipherAlg && f.hashSize == b.hashSize
    && f.keyMaterialLen == b.keyMaterialLen && f.cipherSuite == b.cipherSuite
    && (f.cipherSuite != NULL_SUITE ==> f.cipherAlg != Cipher.Null)
  }

  lemma AgreedAs(a: RecordLayer, b: RecordLayer, f: Fixed)
    requires SameConfig(f, a)
    ensures Agreed(a, b) <==> AgreesWith(f, b)
    ensures a.Settings() == f.settings
  {
  }

  /** The server switches its write cipher. */
  method Change(conn: TlsClient, server: RecordLayer)
    requires Beside(conn, server) && Agreed(conn.rl, server) && server.KeysFit() && ReadsFresh(conn.rl)
    requires Mirrored(conn.rl.Settings(), server.FreshWriting(), conn.rl.FreshReading())
    modifies server`writeCipherSuite, server`writeSeqNum, server`writeCbc
    ensures Beside(conn, server) && InStep(conn, server) && (server.writeCbc == null || fresh(server.writeCbc))
  {
    hide Mirrored, FreshState, Primitives.Sound;
    var ok := server.ChangeWriteCipher();
  }

  /** ChangeCipherSpec of the server, which then switches its own write cipher. */
  method Switch(conn: TlsClient, server: RecordLayer, o: Oracle, s: Oracle)
    requires conn.Inv() && conn.alertLevel == 0 && conn.state == ServerChangeCipherSpec && o.Sound() && s.Sound()
    requires conn.partialInput == [] && Beside(conn, server) && server.writeCipherSuite == NULL_SUITE
    requires Agreed(conn.rl, server) && server.KeysFit() && conn.rl.KeysFit() && Keyed(conn)
    requires Mirrored(conn.rl.Settings(), server.FreshWriting(), conn.rl.FreshReading())
    modifies conn, conn.rl, conn.verify, conn.rl.writeCbc, conn.rl.readCbc, server`writeSeqNum, server`writeCipherSuite
    modifies server`writeCbc, server.writeCbc
    ensures conn.Inv() && conn.alertLevel == 0 && conn.partialInput == [] && Beside(conn, server) && Keyed(conn)
    ensures conn.rl.readCbc == old(conn.rl.readCbc) || conn.rl.readCbc == null || fresh(conn.rl.readCbc)
    ensures conn.rl.writeCbc == old(conn.rl.writeCbc) || conn.rl.writeCbc == null || fresh(conn.rl.writeCbc)
    ensures server.writeCbc == null || fresh(server.writeCbc)
    ensures conn.state == State.ServerFinished && InStep(conn, server)
    ensures conn.sessionResumed == old(conn.sessionResumed) && conn.useSessionTicket == old(conn.useSessionTicket)
    ensures FinishedSent(conn.log) == old(FinishedSent(conn.log)) && FixedPart(conn.rl) == old(FixedPart(conn.rl))
  {
    hide TlsClient.Inv, Oracle.Sound, Sole, NowFull, Answered, Keyed, Count, WouldResume, RecordLayer.WriteReady,
         RecordLayer.ReadReady, FlightFits, Extent, Mirrored, FixedPart, Agreed, RecordLayer.FreshReading,
         RecordLayer.FreshWriting, AgreesWith, Beside, InStep, RecordLayer.Reading, RecordLayer.Writing,
         RecordLayer.CanRead, RecordLayer.CanWrite, RecordLayer.Settings;
    StillClear(conn);
    SoleSwitch(conn, o);
    ghost var f := FixedPart(conn.rl);
    Separate(conn, server);
    SameReading(conn.rl, f);
    AgreedAs(conn.rl, server, f);
    FullParts(conn, [1]);
    RandomSize(s, 3, server.ivSize);
    ghost var fits := FlightFits(conn, o);
    var out, d := Hand(conn, server, CT_CHANGE_CIPHER_SPEC, [1], s.random(3, server.ivSize), o);
    SwitchHeard(d, fits, conn, out, o);
    SameReading(conn.rl, f);
    AgreedAs(conn.rl, server, f);
    Change(conn, server);
  }

  lemma SoleFinished(conn: TlsClient, m: seq<Byte>, o: Oracle)
    requires conn.alertLevel == 0 && conn.state == State.ServerFinished && ClosingGood(conn, CT_HANDSHAKE, m, o)
    requires |m| == 16 && m[0] == HS_FINISHED
    ensures Sole(conn, CT_HANDSHAKE, m, o)
  {
    hide VerifyData, Transcript;
  }

  lemma ClosedAfter(d: Delivery, fits: bool, conn: TlsClient, out: seq<Byte>, o: Oracle)
    requires Answered(d, fits, conn, out, o) && d.before.before.state == State.ServerFinished
    requires d.before.before.resumed || d.before.before.ticket ==> d.before.sent == 0
    ensures Closed(d, conn, out)
  {
    hide Arrived, Flown, Closed;
  }

  /** The server's Finished, and what the client answers. */
  method Close(conn: TlsClient, server: RecordLayer, o: Oracle, s: Oracle) returns (flight: seq<Byte>)
    requires conn.Inv() && conn.alertLevel == 0 && conn.state == State.ServerFinished && o.Sound() && s.Sound()
    requires conn.partialInput == [] && Beside(conn, server) && InStep(conn, server) && Keyed(conn)
    requires conn.sessionResumed || conn.useSessionTicket ==> FinishedSent(conn.log) == 0
    modifies conn, conn.rl, conn.verify, conn.rl.writeCbc, conn.rl.readCbc, server`writeSeqNum, server.writeCbc
    ensures conn.Inv() && conn.alertLevel == 0 && conn.partialInput == [] && Beside(conn, server)
    ensures conn.rl.readCbc == old(conn.rl.readCbc) || conn.rl.readCbc == null || fresh(conn.rl.readCbc)
    ensures conn.rl.writeCbc == old(conn.rl.writeCbc) || conn.rl.writeCbc == null || fresh(conn.rl.writeCbc)
    ensures conn.state == Established && InStep(conn, server) && SameKeys(old(FixedPart(conn.rl)), conn.rl)
    ensures old(conn.sessionResumed || conn.useSessionTicket) ==> EndsFresh(conn.rl, flight)
    ensures old(!conn.sessionResumed && !conn.useSessionTicket) ==> FixedPart(conn.rl) == old(FixedPart(conn.rl))
  {
    hide TlsClient.Inv, Oracle.Sound, Sole, NowFull, Answered, Keyed, Count, WouldResume, RecordLayer.WriteReady,
         RecordLayer.ReadReady, RecordLayer.Reading, RecordLayer.Writing, FlightFits, Extent, Mirrored, FixedPart, EndsFresh,
         ClosingGood;
    var m := Honest.ServerFinishes(conn, o);
    SoleFinished(conn, m, o);
    FullParts(conn, m);
    RandomSize(s, 4, server.ivSize);
    StillClear(conn);
    ghost var f := FixedPart(conn.rl);
    FixedSettings(conn.rl, f);
    ghost var fits := FlightFits(conn, o);
    var out, d := Hand(conn, server, CT_HANDSHAKE, m, s.random(4, server.ivSize), o);
    ClosedAfter(d, fits, conn, out, o);
    StillClear(conn);
    flight := out;
  }

  lemma FixedSettings(rl: RecordLayer, f: Fixed)
    requires FixedPart(rl) == f
    ensures rl.Settings() == f.settings
  {
  }

  // ---------------------------------------------------------------- both kinds of handshake

  /** Each end writes what the other reads with: r is the reading state of the server. */
  ghost predicate Linked(conn: TlsClient, server: RecordLayer, r: Direction)
    reads conn, conn.rl, conn.rl.readCbc, conn.rl.writeCbc, server, server.writeCbc
  {
    && conn.state == Established && conn.alertLevel == 0 && conn.partialInput == []
    && Beside(conn, server) && InStep(conn, server)
    && conn.rl.WriteReady() && Mirrored(conn.rl.Settings(), conn.rl.Writing(), r)
  }

  lemma BothWays(a: RecordLayer, b: RecordLayer, block: seq<Byte>)
    requires a.Valid() && b.Valid() && a.KeysFit() && b.KeysFit() && Agreed(a, b)
    requires a.KeyedBy(block) && b.KeyedBy(Crossed(block, b.hashSize, b.keyMaterialLen))
    ensures Mirrored(a.Settings(), b.FreshWriting(), a.FreshReading())
    ensures Mirrored(a.Settings(), a.FreshWriting(), b.FreshReading())
  {
    hide RecordLayer.KeyedBy, Crossed, Mirrored, RecordLayer.FreshWriting, RecordLayer.FreshReading, RecordLayer.Valid;
    EndsMeet(a, b, block);
    EndsMeet(b, a, block);
  }

  /** What the handshake has left both ends with. */
  datatype Secrets = Secrets(master: seq<Byte>, clientRandom: seq<Byte>, serverRandom: seq<Byte>)

  /** The server expands its own copy of the master secret and the randoms, and deals the key block from its side. */
  method Deal(conn: TlsClient, server: RecordLayer, s: Secrets)
    requires conn.Inv() && Keyed(conn) && Beside(conn, server) && Agreed(conn.rl, server)
    requires s.master == conn.masterSecret && s.clientRandom == conn.clientRandom && s.serverRandom == conn.serverRandom
    requires server.readCipherSuite == server.writeCipherSuite == NULL_SUITE
    modifies server`writeMacSecret, server`readMacSecret, server`writeKey, server`readKey, server`writeIv, server`readIv
    ensures Beside(conn, server) && conn.rl.KeysFit() && server.KeysFit()
    ensures Mirrored(conn.rl.Settings(), server.FreshWriting(), conn.rl.FreshReading())
    ensures Mirrored(conn.rl.Settings(), conn.rl.FreshWriting(), server.FreshReading())
  {
    hide TlsClient.Inv, RecordLayer.KeyedBy, Crossed, Mirrored, Primitives.Sound, RecordLayer.FreshWriting,
         RecordLayer.FreshReading, Keyed;
    LayerValid(conn);
    SameBlock(conn, server, s);
    var v := if server.tlsVersion == VERSION_1 then server.ivSize else 0;
    var block := conn.env.hashing.prf(server.tlsVersion, s.master, "key expansion", s.serverRandom + s.clientRandom,
                                      2 * (server.hashSize + server.keyMaterialLen + v));
    server.DealKeys(Crossed(block, server.hashSize, server.keyMaterialLen));
    BothWays(conn.rl, server, block);
  }

  lemma Listens(a: RecordLayer, server: RecordLayer)
    requires Agreed(a, server)
    ensures server.Settings() == a.Settings() && (server.cipherSuite != NULL_SUITE ==> server.cipherAlg != Cipher.Null)
  {
  }

  /** The server switches its read cipher. */
  method Listen(conn: TlsClient, server: RecordLayer)
    requires Beside(conn, server) && server.KeysFit() && (server.cipherSuite != NULL_SUITE ==> server.cipherAlg != Cipher.Null)
    modifies server`readCipherSuite, server`readSeqNum, server`readCbc
    ensures Beside(conn, server) && ReadsFresh(server) && (server.readCbc == null || fresh(server.readCbc))
  {
    hide Primitives.Sound;
    var ok := server.ChangeReadCipher();
  }

  lemma SameBlock(conn: TlsClient, server: RecordLayer, s: Secrets)
    requires Keyed(conn) && Agreed(conn.rl, server)
    requires s.master == conn.masterSecret && s.clientRandom == conn.clientRandom && s.serverRandom == conn.serverRandom
    ensures var v := if server.tlsVersion == VERSION_1 then server.ivSize else 0;
            var block := conn.env.hashing.prf(server.tlsVersion, s.master, "key expansion", s.serverRandom + s.clientRandom,
                                              2 * (server.hashSize + server.keyMaterialLen + v));
            conn.rl.KeyedBy(block) && |block| == server.KeyBlockLen()
  {
    hide RecordLayer.KeyedBy;
    KeyedMeans(conn);
    KeyedParts(conn.rl, KeyBlock(conn));
  }

  lemma LayerValid(conn: TlsClient)
    requires conn.Inv()
    ensures conn.rl.Valid() && conn.rl.KeysFit() && conn.env.Sound()
  {
  }

  ghost function WritingOf(f: Fixed): Direction
    requires f.hashSize <= |f.writeMacSecret| && (f.writeCipherSuite != NULL_SUITE ==> f.sending.Some?)
  {
    Direction(if f.writeCipherSuite == NULL_SUITE then None else f.sending, f.writeMacSecret[..f.hashSize], f.writeSeqNum)
  }

  lemma SameWriting(rl: RecordLayer, f: Fixed)
    requires rl.WriteReady() && FixedPart(rl) == f
    ensures f.hashSize <= |f.writeMacSecret| && (f.writeCipherSuite != NULL_SUITE ==> f.sending.Some?)
    ensures rl.Writing() == WritingOf(f) && rl.Settings() == f.settings
  {
    hide Primitives.Sound;
  }

  lemma FreshAs(rl: RecordLayer, f: Fixed)
    requires rl.KeysFit() && SameKeys(f, rl)
    ensures |f.writeIv| == 16 && f.keyMaterialLen <= |f.writeKey| && f.hashSize <= |f.writeMacSecret|
    ensures rl.Settings() == f.settings
    ensures rl.FreshWriting() ==
              Direction(if f.cipherSuite == NULL_SUITE then None
                        else Some(FreshState(f.settings.prim, f.cipherAlg, f.writeIv, f.writeKey[..f.keyMaterialLen])),
                        f.writeMacSecret[..f.hashSize], Zeros(8))
  {
  }

  /** The server has its keys and listens with them. */
  method Prepare(conn: TlsClient, server: RecordLayer)
    requires conn.Inv() && Keyed(conn) && Beside(conn, server) && Agreed(conn.rl, server)
    requires server.readCipherSuite == server.writeCipherSuite == NULL_SUITE
    modifies server`writeMacSecret, server`readMacSecret, server`writeKey, server`readKey, server`writeIv, server`readIv
    modifies server`readCipherSuite, server`readSeqNum, server`readCbc
    ensures Beside(conn, server) && conn.rl.KeysFit() && server.KeysFit() && ReadsFresh(server)
    ensures server.readCbc == null || fresh(server.readCbc)
    ensures Mirrored(conn.rl.Settings(), server.FreshWriting(), conn.rl.FreshReading())
    ensures Mirrored(conn.rl.Settings(), conn.rl.FreshWriting(), server.FreshReading())
  {
    hide TlsClient.Inv, Keyed, Mirrored, RecordLayer.FreshWriting, RecordLayer.FreshReading, Agreed, Beside, ReadsFresh;
    Deal(conn, server, Secrets(conn.masterSecret, conn.clientRandom, conn.serverRandom));
    Listens(conn.rl, server);
    Listen(conn, server);
  }

  /** The server's ChangeCipherSpec and Finished. */
  method Finish(conn: TlsClient, server: RecordLayer, o: Oracle, s: Oracle) returns (flight: seq<Byte>)
    requires conn.Inv() && conn.alertLevel == 0 && conn.state == ServerChangeCipherSpec && o.Sound() && s.Sound()
    requires conn.partialInput == [] && Beside(conn, server) && server.writeCipherSuite == NULL_SUITE
    requires Agreed(conn.rl, server) && server.KeysFit() && conn.rl.KeysFit() && Keyed(conn)
    requires Mirrored(conn.rl.Settings(), server.FreshWriting(), conn.rl.FreshReading())
    requires conn.sessionResumed || conn.useSessionTicket ==> FinishedSent(conn.log) == 0
    modifies conn, conn.rl, conn.verify, conn.rl.writeCbc, conn.rl.readCbc, server`writeSeqNum, server`writeCipherSuite
    modifies server`writeCbc, server.writeCbc
    ensures conn.Inv() && conn.alertLevel == 0 && conn.partialInput == [] && Beside(conn, server)
    ensures conn.rl.readCbc == old(conn.rl.readCbc) || conn.rl.readCbc == null || fresh(conn.rl.readCbc)
    ensures conn.rl.writeCbc == old(conn.rl.writeCbc) || conn.rl.writeCbc == null || fresh(conn.rl.writeCbc)
    ensures server.writeCbc == old(server.writeCbc) || server.writeCbc == null || fresh(server.writeCbc)
    ensures conn.state == Established && InStep(conn, server) && SameKeys(old(FixedPart(conn.rl)), conn.rl)
    ensures old(conn.sessionResumed || conn.useSessionTicket) ==> EndsFresh(conn.rl, flight)
    ensures old(!conn.sessionResumed && !conn.useSessionTicket) ==> FixedPart(conn.rl) == old(FixedPart(conn.rl))
  {
    hide TlsClient.Inv, Oracle.Sound, Keyed, Count, EndsFresh, Mirrored, FixedPart, SameKeys, RecordLayer.FreshWriting,
         RecordLayer.FreshReading, RecordLayer.WriteReady, RecordLayer.ReadReady, Agreed, Beside, InStep,
         RecordLayer.KeysFit;
    Switch(conn, server, o, s);
    flight := Close(conn, server, o, s);
  }

  /** What the server's record layer reads with after that flight. */
  ghost predicate Listened(server: RecordLayer, flight: seq<Byte>, r: Direction)
    reads server`readCipherSuite, server`readCbc, server`readMacSecret, server`hashSize, server`readSeqNum
    reads server`tlsVersion, server`ivSize, server`macAlg, server.readCbc
  {
    && server.CanRead() && ValidDirection(server.Settings(), server.Reading())
    && ReadTo(server.Settings(), server.Reading(), flight, r)
  }

  /** From the client's flight of a full handshake to the end. */
  method Complete(conn: TlsClient, server: RecordLayer, flight: seq<Byte>, o: Oracle, s: Oracle) returns (ghost r: Direction)
    requires conn.Inv() && conn.alertLevel == 0 && conn.state == ServerChangeCipherSpec && o.Sound() && s.Sound()
    requires !conn.sessionResumed && !conn.useSessionTicket && conn.partialInput == [] && Keyed(conn)
    requires Beside(conn, server) && Agreed(conn.rl, server) && EndsFresh(conn.rl, flight)
    requires server.readCipherSuite == server.writeCipherSuite == NULL_SUITE
    modifies conn, conn.rl, conn.verify, conn.rl.writeCbc, conn.rl.readCbc, server, server.writeCbc
    ensures conn.Inv() && Linked(conn, server, r) && Listened(server, flight, r)
    ensures conn.rl.readCbc == old(conn.rl.readCbc) || conn.rl.readCbc == null || fresh(conn.rl.readCbc)
    ensures conn.rl.writeCbc == old(conn.rl.writeCbc) || conn.rl.writeCbc == null || fresh(conn.rl.writeCbc)
    ensures server.writeCbc == old(server.writeCbc) || server.writeCbc == null || fresh(server.writeCbc)
  {
    hide TlsClient.Inv, Oracle.Sound, Keyed, Count, EndsFresh, Mirrored, FixedPart, SameKeys,
         RecordLayer.FreshWriting, RecordLayer.FreshReading, RecordLayer.Writing, RecordLayer.Reading,
         RecordLayer.WriteReady, RecordLayer.ReadReady, Agreed, ReadTo, InStep, RecordLayer.KeysFit, ValidDirection,
         Beside, RecordLayer.CanRead, RecordLayer.CanWrite, RecordLayer.Settings;
    Prepare(conn, server);
    Separate(conn, server);
    StillClear(conn);
    Listens(conn.rl, server);
    r := FlightRead(conn.rl, server.FreshReading(), flight);
    ReadingValid(server);
    ghost var f := FixedPart(conn.rl);
    SameWriting(conn.rl, f);
    var out := Finish(conn, server, o, s);
    StillClear(conn);
    SameWriting(conn.rl, f);
  }

  lemma Separate(conn: TlsClient, server: RecordLayer)
    requires Beside(conn, server)
    ensures server != conn.rl && server.WriteReady()
    ensures server.readCbc == null
            || (server.readCbc != conn.rl.writeCbc && server.readCbc != conn.rl.readCbc && server.readCbc != server.writeCbc)
  {
    hide RecordLayer.WriteReady;
  }

  lemma ProveParts(conn: TlsClient, f: Fixed)
    requires FixedPart(conn.rl) == f
    ensures conn.rl.cipherSuite == f.cipherSuite && SameConfig(f, conn.rl)
  {
  }

  /** Certificate and ServerHelloDone, and the client's flight. */
  method Prove(conn: TlsClient, server: RecordLayer, certificates: seq<Byte>, key: seq<Byte>, o: Oracle, s: Oracle)
    returns (flight: seq<Byte>)
    requires conn.Inv() && conn.alertLevel == 0 && conn.state == ServerCertificate && o.Sound() && s.Sound()
    requires conn.partialInput == [] && Beside(conn, server) && server.writeCipherSuite == NULL_SUITE
    requires Agreed(conn.rl, server)
    requires Honest.BringsKey(conn.env, certificates, key) && CertificatesGood(conn.env, Honest.BodyOf(certificates))
    requires Extent(CT_HANDSHAKE, certificates) == |certificates| <= 17403
    requires !conn.certificateRequested && !Ephemeral(conn.rl.cipherSuite) && Honest.RsaFlight(conn, key, o)
    modifies conn, conn.rl, conn.verify, conn.rl.writeCbc, conn.rl.readCbc, server`writeSeqNum, server.writeCbc
    ensures conn.Inv() && conn.alertLevel == 0 && conn.partialInput == [] && Beside(conn, server) && Keyed(conn)
    ensures conn.rl.readCbc == old(conn.rl.readCbc) || conn.rl.readCbc == null || fresh(conn.rl.readCbc)
    ensures conn.rl.writeCbc == old(conn.rl.writeCbc) || conn.rl.writeCbc == null || fresh(conn.rl.writeCbc)
    ensures conn.state == ServerChangeCipherSpec && Agreed(conn.rl, server) && EndsFresh(conn.rl, flight)
    ensures conn.sessionResumed == old(conn.sessionResumed) && conn.useSessionTicket == old(conn.useSessionTicket)
  {
    hide TlsClient.Inv, Oracle.Sound, Keyed, Count, EndsFresh, FixedPart, SameConfig, Agreed, Beside, AgreesWith, Extent,
         CertificatesGood, Honest.BringsKey, Honest.RsaFlight, Ephemeral, FlightFits;
    ghost var f := FixedPart(conn.rl);
    Separate(conn, server);
    ProveParts(conn, f);
    AgreedAs(conn.rl, server, f);
    Certify(conn, server, certificates, key, o, s);
    ProveParts(conn, f);
    Honest.RsaFits(conn, key, o);
    flight := Finalize(conn, server, o, s);
    AgreedAs(conn.rl, server, f);
  }

  /** Where both ends start: nothing kept, everything in the clear. */
  ghost predicate Unconnected(conn: TlsClient, server: RecordLayer)
    reads conn`state, conn`alertLevel, conn`partialInput, conn.rl`writeCbc, conn.rl`readCbc, server, server.writeCbc
  {
    && conn.alertLevel == 0 && conn.state == State.ClientHello && conn.partialInput == [] && Beside(conn, server)
    && server.readCipherSuite == server.writeCipherSuite == NULL_SUITE
  }

  /** ClientHello and ServerHello. */
  method Open(conn: TlsClient, server: RecordLayer, hello: seq<Byte>, o: Oracle, s: Oracle)
    requires conn.Inv() && Unconnected(conn, server) && o.Sound() && s.Sound()
    requires OpeningGood(conn, CT_HANDSHAKE, hello, o) && Extent(CT_HANDSHAKE, hello) == |hello| <= 17403
    modifies conn, conn.rl, conn.verify, conn.rl.writeCbc, conn.rl.readCbc, server, server.writeCbc
    ensures conn.Inv() && conn.alertLevel == 0 && conn.partialInput == [] && Beside(conn, server)
    ensures conn.rl.readCbc == old(conn.rl.readCbc) || conn.rl.readCbc == null || fresh(conn.rl.readCbc)
    ensures conn.rl.writeCbc == old(conn.rl.writeCbc) || conn.rl.writeCbc == null || fresh(conn.rl.writeCbc)
    ensures server.writeCbc == old(server.writeCbc) && server.readCbc == old(server.readCbc)
    ensures server.writeCipherSuite == server.readCipherSuite == NULL_SUITE && Agreed(conn.rl, server)
    ensures |Honest.BodyOf(hello)| >= 37 && conn.rl.cipherSuite == SuiteIn(Honest.BodyOf(hello))
    ensures conn.sessionResumed == old(HelloGood(conn, Honest.BodyOf(hello)) && Resumes(conn, Honest.BodyOf(hello)))
    ensures conn.useSessionTicket == TicketUsed(conn, o, old(conn.useSessionTicket))
    ensures conn.state == if conn.sessionResumed || conn.useSessionTicket then ServerChangeCipherSpec else ServerCertificate
    ensures conn.state == ServerChangeCipherSpec ==> Keyed(conn)
    ensures conn.certificateRequested == old(conn.certificateRequested) && FinishedSent(conn.log) == 0
  {
    hide TlsClient.Inv, Oracle.Sound, Keyed, Count, Agreed, Extent, HelloGood, Resumes, OpeningGood, TicketUsed,
         RecordLayer.WriteReady, RecordLayer.Configured, Answered, Carries, Parcel;
    var first, data, more := Handshake(conn, [], o, true, true);
    Honest.AtServerHello(conn);
    Greet(conn, server, hello, o, s);
  }

  /** The full handshake with an RSA suite, record by record through the entry point of the handshake: the connection
      becomes established, and each end writes what the other one reads. */
  method FullHandshake(conn: TlsClient, server: RecordLayer, hello: seq<Byte>, certificates: seq<Byte>, key: seq<Byte>,
                       o: Oracle, s: Oracle) returns (flight: seq<Byte>, ghost r: Direction)
    requires conn.Inv() && Unconnected(conn, server) && o.Sound() && s.Sound()
    requires OpeningGood(conn, CT_HANDSHAKE, hello, o) && Extent(CT_HANDSHAKE, hello) == |hello| <= 17403
    requires !Resumes(conn, Honest.BodyOf(hello)) && !conn.certificateRequested && !Ephemeral(SuiteIn(Honest.BodyOf(hello)))
    requires if conn.AsksTicket() then o.ticket == 0 else !conn.useSessionTicket
    requires Honest.BringsKey(conn.env, certificates, key) && CertificatesGood(conn.env, Honest.BodyOf(certificates))
    requires Extent(CT_HANDSHAKE, certificates) == |certificates| <= 17403 && Honest.RsaFlight(conn, key, o)
    modifies conn, conn.rl, conn.verify, conn.rl.writeCbc, conn.rl.readCbc, server, server.writeCbc
    ensures conn.Inv() && Linked(conn, server, r) && Listened(server, flight, r)
    ensures conn.rl.readCbc == old(conn.rl.readCbc) || conn.rl.readCbc == null || fresh(conn.rl.readCbc)
    ensures conn.rl.writeCbc == old(conn.rl.writeCbc) || conn.rl.writeCbc == null || fresh(conn.rl.writeCbc)
    ensures server.writeCbc == old(server.writeCbc) || server.writeCbc == null || fresh(server.writeCbc)
  {
    hide TlsClient.Inv, Oracle.Sound, Keyed, Count, EndsFresh, Agreed, Extent, CertificatesGood, Honest.BringsKey,
         Honest.RsaFlight, Ephemeral, HelloGood, Resumes, Linked, Listened, Beside, OpeningGood;
    Open(conn, server, hello, o, s);
    Separate(conn, server);
    flight := Prove(conn, server, certificates, key, o, s);
    r := Complete(conn, server, flight, o, s);
  }

  /** The abbreviated handshake, with the session or the ticket that was offered. */
  method AbbreviatedHandshake(conn: TlsClient, server: RecordLayer, hello: seq<Byte>, o: Oracle, s: Oracle)
    returns (flight: seq<Byte>, ghost r: Direction)
    requires conn.Inv() && Unconnected(conn, server) && o.Sound() && s.Sound()
    requires OpeningGood(conn, CT_HANDSHAKE, hello, o) && Extent(CT_HANDSHAKE, hello) == |hello| <= 17403
    requires Resumes(conn, Honest.BodyOf(hello)) || (conn.AsksTicket() && o.ticket > 0)
    modifies conn, conn.rl, conn.verify, conn.rl.writeCbc, conn.rl.readCbc, server, server.writeCbc
    ensures conn.Inv() && Linked(conn, server, r) && Listened(server, flight, r)
    ensures conn.rl.readCbc == old(conn.rl.readCbc) || conn.rl.readCbc == null || fresh(conn.rl.readCbc)
    ensures conn.rl.writeCbc == old(conn.rl.writeCbc) || conn.rl.writeCbc == null || fresh(conn.rl.writeCbc)
    ensures server.writeCbc == old(server.writeCbc) || server.writeCbc == null || fresh(server.writeCbc)
  {
    hide TlsClient.Inv, Oracle.Sound, Keyed, Count, EndsFresh, Agreed, Extent, HelloGood, Resumes, Beside;
    Open(conn, server, hello, o, s);
    Separate(conn, server);
    flight, r := Resume(conn, server, o, s);
  }

  /** What is left of an abbreviated handshake. */
  method Resume(conn: TlsClient, server: RecordLayer, o: Oracle, s: Oracle) returns (flight: seq<Byte>, ghost r: Direction)
    requires conn.Inv() && conn.alertLevel == 0 && conn.state == ServerChangeCipherSpec && o.Sound() && s.Sound()
    requires conn.sessionResumed || conn.useSessionTicket
    requires FinishedSent(conn.log) == 0 && conn.partialInput == [] && Keyed(conn)
    requires Beside(conn, server) && Agreed(conn.rl, server)
    requires server.readCipherSuite == server.writeCipherSuite == NULL_SUITE
    modifies conn, conn.rl, conn.verify, conn.rl.writeCbc, conn.rl.readCbc, server, server.writeCbc
    ensures conn.Inv() && Linked(conn, server, r) && Listened(server, flight, r)
    ensures conn.rl.readCbc == old(conn.rl.readCbc) || conn.rl.readCbc == null || fresh(conn.rl.readCbc)
    ensures conn.rl.writeCbc == old(conn.rl.writeCbc) || conn.rl.writeCbc == null || fresh(conn.rl.writeCbc)
    ensures server.writeCbc == old(server.writeCbc) || server.writeCbc == null || fresh(server.writeCbc)
  {
    hide TlsClient.Inv, Oracle.Sound, Keyed, Count, EndsFresh, Mirrored, FixedPart, SameKeys,
         RecordLayer.FreshWriting, RecordLayer.FreshReading, RecordLayer.Writing, RecordLayer.Reading,
         RecordLayer.WriteReady, RecordLayer.ReadReady, Agreed, ReadTo, InStep, RecordLayer.KeysFit, ValidDirection,
         Beside, RecordLayer.CanRead, RecordLayer.CanWrite, RecordLayer.Settings, RecordLayer.Valid, Listened;
    Prepare(conn, server);
    Separate(conn, server);
    StillClear(conn);
    Listens(conn.rl, server);
    ReadingValid(server);
    ghost var d, f := server.Reading(), FixedPart(conn.rl);
    KeysAs(conn.rl, f);
    FreshAs(conn.rl, f);
    flight := Finish(conn, server, o, s);
    StillClear(conn);
    LayerValid(conn);
    FreshAs(conn.rl, f);
    r := FlightRead(conn.rl, d, flight);
    ListenedNow(server, flight, r, d, f.settings);
  }

  lemma ListenedNow(server: RecordLayer, flight: seq<Byte>, r: Direction, d: Direction, p: Params)
    requires server.CanRead() && d == server.Reading() && p == server.Settings()
    requires ValidDirection(p, d) && ReadTo(p, d, flight, r)
    ensures Listened(server, flight, r)
  {
    hide ReadTo, ValidDirection;
  }

  lemma KeysAs(rl: RecordLayer, f: Fixed)
    requires FixedPart(rl) == f
    ensures SameKeys(f, rl)
  {
  }

  // ---------------------------------------------------------------- application data

  /** A single record of application data decodes to what was put into it. */
  lemma DecodedOne(p: Params, w: Direction, r: Direction, data: seq<Byte>, rnd: seq<Byte>)
    requires ValidParams(p) && Mirrored(p, w, r) && |data| <= 17403 && (ExplicitIv(p) ==> |rnd| == p.ivSize)
    ensures ValidDirection(p, w) && ValidDirection(p, r)
    ensures var t := Streams.Decoded(p, r, RecordOf(p, w, CT_APPLICATION_DATA, data, rnd));
            && t.failed.None? && t.data == data && t.rest == []
            && Mirrored(p, Stepped(p, w, Body(p, w, CT_APPLICATION_DATA, data, rnd)), t.next)
  {
    hide Receipt, RecordOf, Body, Stepped, Mirrored, ValidDirection, Streams.Decoded;
    Streams.MirroredValid(p, w, r);
    SizeOf(p, w, CT_APPLICATION_DATA, data, rnd);
    var record := RecordOf(p, w, CT_APPLICATION_DATA, data, rnd);
    assert record + [] == record;
    RecordRoundTrip(p, w, r, CT_APPLICATION_DATA, data, rnd, [], |record|);
    Streams.DecodedOnce(p, r, record);
    var next := Receipt(p, r, record, |record|).next;
    NothingLeft(p, r, next, record);
    assert data + [] == data;
  }

  lemma NothingLeft(p: Params, r: Direction, next: Direction, record: seq<Byte>)
    requires ValidDirection(p, next)
    ensures record[|record|..] == [] && Streams.Decoded(p, next, record[|record|..]) == Streams.Decode([], [], next, None)
  {
    hide ValidDirection;
  }

  /** What the application sends arrives at the server. */
  method Upload(conn: TlsClient, server: RecordLayer, data: seq<Byte>, room: nat, o: Oracle, ghost r: Direction)
    returns (record: Option<seq<Byte>>, ghost next: Direction)
    requires conn.Inv() && o.Sound() && Linked(conn, server, r) && |data| <= 17403
    modifies conn`alertLevel, conn`alertDescription, conn`log, conn.rl`writeSeqNum, conn.rl.writeCbc
    ensures conn.Inv() && (HEADER_LEN + |data| + 64 <= room ==> record.Some?)
    ensures record.Some? ==>
              && ValidDirection(conn.rl.Settings(), r) && Linked(conn, server, next)
              && Streams.Decoded(conn.rl.Settings(), r, record.value) == Streams.Decode(data, [], next, None)
  {
    hide TlsClient.Inv, Oracle.Sound, Mirrored, RecordOf, Body, Stepped, Streams.Decoded, ValidDirection,
         RecordLayer.WriteReady, RecordLayer.ReadReady;
    StillClear(conn);
    Outgoing(conn);
    RandomSize(o, 9, conn.rl.ivSize);
    DecodedOne(conn.rl.Settings(), conn.rl.Writing(), r, data, o.random(9, conn.rl.ivSize));
    next := Streams.Decoded(conn.rl.Settings(), r,
                            RecordOf(conn.rl.Settings(), conn.rl.Writing(), CT_APPLICATION_DATA, data,
                                     o.random(9, conn.rl.ivSize))).next;
    record := Encrypt(conn, data, room, o);
    StillClear(conn);
  }

  lemma Outgoing(conn: TlsClient)
    requires conn.Inv()
    ensures ValidParams(conn.rl.Settings()) && conn.rl.Settings().ivSize == conn.rl.ivSize
    ensures conn.rl.writeCbc == null || conn.rl.writeCbc != conn.rl.readCbc
  {
    hide Primitives.Sound;
  }

  /** What the server sends arrives at the application. */
  method Download(conn: TlsClient, server: RecordLayer, data: seq<Byte>, s: Oracle, ghost r: Direction)
    returns (got: Option<seq<Byte>>)
    requires conn.Inv() && s.Sound() && Linked(conn, server, r) && |data| <= 17403
    modifies conn`alertLevel, conn`alertDescription, conn`partialInput, conn.rl`readSeqNum, conn.rl.readCbc
    modifies server`writeSeqNum, server.writeCbc
    ensures conn.Inv() && Linked(conn, server, r) && got == Some(data)
  {
    hide TlsClient.Inv, Oracle.Sound, Mirrored, RecordOf, Body, Stepped, Streams.Decoded, ValidDirection,
         RecordLayer.WriteReady, RecordLayer.ReadReady;
    StillClear(conn);
    Outgoing(conn);
    WritingValid(server);
    ReadingValid(conn.rl);
    RandomSize(s, 5, server.ivSize);
    DecodedOne(server.Settings(), server.Writing(), conn.rl.Reading(), data, s.random(5, server.ivSize));
    var record := Emit(server, CT_APPLICATION_DATA, data, s.random(5, server.ivSize));
    assert conn.partialInput + record == record;
    var more;
    got, more := Decrypt(conn, record, true);
    StillClear(conn);
  }

  /** A server's record layer, nothing agreed yet. */
  method NewServer(conn: TlsClient) returns (server: RecordLayer)
    requires conn.Inv() && conn.alertLevel == 0 && conn.state == State.ClientHello && conn.partialInput == []
    ensures fresh(server) && Unconnected(conn, server) && server.writeCbc == null
  {
    hide TlsClient.Inv, RecordLayer.WriteReady, Primitives.Sound;
    LayerValid(conn);
    server := new RecordLayer(conn.env.prim);
  }

  /** A whole session of a new connection: full handshake, a question and its answer. What the server decodes with
      the reading state that the handshake left is the question, and the application gets the answer. */
  method Session(conn: TlsClient, hello: seq<Byte>, certificates: seq<Byte>, key: seq<Byte>, question: seq<Byte>,
                 answer: seq<Byte>, o: Oracle, s: Oracle)
    returns (flight: seq<Byte>, record: Option<seq<Byte>>, got: Option<seq<Byte>>, server: RecordLayer, ghost r: Direction)
    requires conn.Inv() && conn.alertLevel == 0 && conn.state == State.ClientHello && conn.partialInput == []
    requires o.Sound() && s.Sound() && |question| <= 17403 && |answer| <= 17403
    requires OpeningGood(conn, CT_HANDSHAKE, hello, o) && Extent(CT_HANDSHAKE, hello) == |hello| <= 17403
    requires !Resumes(conn, Honest.BodyOf(hello)) && !conn.certificateRequested && !Ephemeral(SuiteIn(Honest.BodyOf(hello)))
    requires if conn.AsksTicket() then o.ticket == 0 else !conn.useSessionTicket
    requires Honest.BringsKey(conn.env, certificates, key) && CertificatesGood(conn.env, Honest.BodyOf(certificates))
    requires Extent(CT_HANDSHAKE, certificates) == |certificates| <= 17403 && Honest.RsaFlight(conn, key, o)
    modifies conn, conn.rl, conn.verify, conn.rl.writeCbc, conn.rl.readCbc
    ensures conn.Inv() && conn.state == Established && Listened(server, flight, r)
    ensures record.Some? && ValidDirection(conn.rl.Settings(), r)
    ensures var t := Streams.Decoded(conn.rl.Settings(), r, record.value);
            t.data == question && t.rest == [] && t.failed.None?
    ensures got == Some(answer)
  {
    hide TlsClient.Inv, Oracle.Sound, OpeningGood, Extent, CertificatesGood, Honest.BringsKey, Honest.RsaFlight,
         Ephemeral, Resumes, Listened, InStep, Mirrored, Streams.Decoded, ValidDirection, RecordLayer.WriteReady,
         RecordLayer.ReadReady, RecordLayer.Settings, RecordLayer.Writing, RecordLayer.Reading, Unconnected;
    server := NewServer(conn);
    flight, r := FullHandshake(conn, server, hello, certificates, key, o, s);
    ghost var next;
    record, next := Upload(conn, server, question, HEADER_LEN + |question| + 64, o, r);
    got := Download(conn, server, answer, s, next);
  }
}
