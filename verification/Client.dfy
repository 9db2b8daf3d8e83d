/** The entry points of the TLS client: handshake, tunnel data in both directions, shutdown, and arbitrary
    sequences of calls to them. */
module Client {
  import Cipher
  import Streams
  import opened Bytes
  import opened ClientRead
  import opened DhParameters
  import opened ClientWrite
  import opened Options
  import opened Record
  import opened RecordLayers
  import opened TlsClients
  import opened TlsLog

  method ToArray(s: seq<Byte>) returns (a: array<Byte>)
    ensures fresh(a) && a[..] == s
  {
    a := new Byte[|s|](i requires 0 <= i < |s| => s[i]);
  }

  /** What an established connection guarantees, at every point between calls. */
  lemma EstablishedIsCompleted(conn: TlsClient)
    requires conn.Inv() && conn.state == Established
    ensures Completed(conn.env.hashing, conn.rl.tlsVersion, conn.masterSecret, conn.log)
    ensures conn.rl.readCipherSuite == conn.rl.writeCipherSuite == conn.rl.cipherSuite != NULL_SUITE
  {
  }

  /** An established connection that was not resumed and has an RSA suite has, after the ClientHello in its
      history, a good chain whose first certificate gave the server's key. */
  lemma RsaIsVouched(conn: TlsClient) returns (hello: nat, k: nat)
    requires conn.Inv() && conn.state == Established && !conn.sessionResumed
    requires SuiteData(conn.rl.cipherSuite).Some? && SuiteData(conn.rl.cipherSuite).value.kx == RsaKx
    ensures hello < k < |conn.log|
    ensures conn.log[hello].Sent? && conn.log[hello].ct == 22
    ensures conn.log[hello].payload != [] && conn.log[hello].payload[0] == 1
    ensures forall i :: 0 <= i < hello ==> conn.log[i].Sent? && conn.log[i].ct == 23
    ensures conn.serverRsaKey.Some? && conn.log[k].ChainAccepted? && conn.log[k].chain != []
    ensures var chain := conn.log[k].chain;
            && conn.env.certKey(chain[0]) == conn.serverRsaKey && conn.env.chainAlert(chain).None?
            && forall i :: 0 <= i < |chain| ==> conn.env.certParses(chain[i])
  {
    hide SuiteData, TlsClient.Inv;
    FullHandshake(conn);
    k :| 0 <= k < |conn.log| && ChainFor(conn.env, conn.log[k], conn.serverRsaKey.value);
    hello :| 0 <= hello < |conn.log| && IsHello(conn.log[hello]) && OnlyData(conn.log[..hello]);
    ChainAfterHello(conn.env, conn.log, hello, k, conn.serverRsaKey.value);
    assert forall i :: 0 <= i < hello ==> conn.log[i] == conn.log[..hello][i];
  }

  /** What an established connection that was not resumed knows of its history. */
  lemma FullHandshake(conn: TlsClient)
    requires conn.Inv() && conn.state == Established && !conn.sessionResumed
    ensures ParamsFor(conn.rl.cipherSuite, conn.log, conn.used, conn.inherited, conn.clientRandom + conn.serverRandom)
    ensures Vouched(conn.env, conn.log, conn.serverRsaKey) && Started(conn.log)
    ensures KeyForSuite(conn.rl.cipherSuite, conn.serverRsaKey)
  {
    hide ParamsFor, Vouched, Started, KeyForSuite, Legal, Transcript, TlsClient.Wf, VerifyHash.Holds, VerifyHash.Live,
         VerifyHash.ClientDone;
  }

  /** Parameters that were brought in a history are signed there, under a key from a good chain before them. */
  lemma BroughtSigned(env: Env, log: seq<Event>, key: Option<seq<Byte>>, dh: Dh, randoms: seq<Byte>)
    returns (j: nat, k: nat)
    requires Vouched(env, log, key) && Brought(log, dh, randoms)
    ensures j < k < |log| && Brings(log[k], dh, randoms) && SignedParams(env, log[k]) && ChainFor(env, log[j], log[k].key)
  {
    hide SignedParams, ChainFor, DhParams;
    k :| 0 <= k < |log| && Brings(log[k], dh, randoms);
    j :| 0 <= j < k && ChainFor(env, log[j], log[k].key);
  }

  /** A chain is accepted after the ClientHello. */
  lemma ChainAfterHello(env: Env, log: seq<Event>, hello: nat, j: nat, key: seq<Byte>)
    requires hello < |log| && OnlyData(log[..hello]) && IsHello(log[hello]) && j < |log| && ChainFor(env, log[j], key)
    ensures hello < j
  {
    if j < hello {
      DataBefore(log, hello, j);
    }
  }

  /** An established connection that was not resumed and has a DHE_RSA suite used parameters, and unless these
      are the ones that were there before its ClientHello, they came after it: signed, with the randoms of this
      handshake, under a key from a good chain before them. */
  lemma ParamsAreVouched(conn: TlsClient) returns (hello: nat, j: nat, k: nat)
    requires conn.Inv() && conn.state == Established && !conn.sessionResumed && SignedSuite(conn.rl.cipherSuite)
    ensures conn.used.Some? && hello < |conn.log|
    ensures conn.log[hello].Sent? && conn.log[hello].ct == 22
    ensures conn.log[hello].payload != [] && conn.log[hello].payload[0] == 1
    ensures forall i :: 0 <= i < hello ==> conn.log[i].Sent? && conn.log[i].ct == 23
    ensures conn.used != conn.inherited ==>
              && hello < j < k < |conn.log| && conn.log[j].ChainAccepted? && conn.log[k].ParamsAccepted?
              && var chain, e := conn.log[j].chain, conn.log[k];
                 && chain != [] && conn.env.certKey(chain[0]) == Some(e.key) && conn.env.chainAlert(chain).None?
                 && (forall i :: 0 <= i < |chain| ==> conn.env.certParses(chain[i]))
                 && DhParams(e.body).Some? && DhParams(e.body).value.0 == conn.used.value
                 && var n := DhParams(e.body).value.1;
                    && conn.env.paramsSigned(e.version, Some(e.key), conn.clientRandom + conn.serverRandom,
                                             e.body[..n], e.body[n..])
                    && (e.version == 0x0303 ==> |e.body| >= n + 2 && e.body[n] in {4, 5, 6} && e.body[n + 1] == 1)
    ensures conn.used != conn.inherited ==>
              && Brings(conn.log[k], conn.used.value, conn.clientRandom + conn.serverRandom)
              && SignedParams(conn.env, conn.log[k]) && ChainFor(conn.env, conn.log[j], conn.log[k].key)
  {
    hide SignedSuite, SignedParams, ChainFor, Brought, Vouched, TlsClient.Inv, Brings, DhParams;
    FullHandshake(conn);
    hello :| 0 <= hello < |conn.log| && IsHello(conn.log[hello]) && OnlyData(conn.log[..hello]);
    j, k := 0, 0;
    if conn.used != conn.inherited {
      j, k := BroughtSigned(conn.env, conn.log, conn.serverRsaKey, conn.used.value, conn.clientRandom + conn.serverRandom);
      SignedMeans(conn.env, conn.log, j, k, conn.used.value, conn.clientRandom + conn.serverRandom);
      ChainAfterHello(conn.env, conn.log, hello, j, conn.log[k].key);
    }
    assert forall i :: 0 <= i < hello ==> conn.log[i] == conn.log[..hello][i];
  }

  /** Signed parameters and the chain behind them, written out. */
  lemma SignedMeans(env: Env, log: seq<Event>, j: nat, k: nat, dh: Dh, randoms: seq<Byte>)
    requires j < |log| && k < |log| && Brings(log[k], dh, randoms) && SignedParams(env, log[k])
    requires ChainFor(env, log[j], log[k].key)
    ensures log[j].ChainAccepted? && log[k].ParamsAccepted? && DhParams(log[k].body).Some?
    ensures var chain, e := log[j].chain, log[k];
            && chain != [] && env.certKey(chain[0]) == Some(e.key) && env.chainAlert(chain).None?
            && (forall i :: 0 <= i < |chain| ==> env.certParses(chain[i]))
            && DhParams(e.body).value.0 == dh
            && var n := DhParams(e.body).value.1;
               && env.paramsSigned(e.version, Some(e.key), randoms, e.body[..n], e.body[n..])
               && (e.version == 0x0303 ==> |e.body| >= n + 2 && e.body[n] in {4, 5, 6} && e.body[n + 1] == 1)
  {
    hide DhParams;
  }

  /** While no alert is pending every unfinished transcript hash has seen exactly the handshake messages. */
  lemma TranscriptsAgree(conn: TlsClient)
    requires conn.Inv() && conn.alertLevel == 0
    ensures conn.verify.Holds(Transcript(conn.log))
  {
  }

  // ---------------------------------------------------------------- tlsv1_client_handshake

  lemma SoleHolds(conn: TlsClient, ct: Byte, m: seq<Byte>, o: Oracle)
    ensures Sole(conn, ct, m, o) ==> |m| > 0
  {
  }

  /** All messages of one record. */
  method ProcessRecord(conn: TlsClient, ct: Byte, payload: seq<Byte>, o: Oracle, wantData: bool)
    returns (ok: bool, data: Option<seq<Byte>>)
    requires conn.Inv() && o.Sound() && NULL_SUITE !in conn.cipherSuites
    modifies conn, conn.rl, conn.verify
    ensures conn.Wf() && (conn.rl.readCbc == old(conn.rl.readCbc) || conn.rl.readCbc == null || fresh(conn.rl.readCbc))
    ensures conn.rl.writeCbc == old(conn.rl.writeCbc)
    ensures (conn.alertLevel != 0 || conn.Inv()) && (ok ==> conn.Inv() && conn.alertLevel == old(conn.alertLevel))
    ensures old(conn.alertLevel) != 0 ==> conn.alertLevel != 0
    ensures old(conn.state) == Failed ==> conn.state == Failed
    ensures (Ongoing(conn.state) || conn.state == old(conn.state)) && conn.inherited == old(conn.inherited)
    ensures conn.state == State.ClientHello ==> conn.dh == old(conn.dh)
    ensures old(Sole(conn, ct, payload, o)) ==>
              ok && data.None? && Advanced(old(NowFull(conn, payload)), conn, ct, payload, o)
    ensures old(Sole(conn, ct, payload, o) && conn.state != State.ServerHello) && ct != CT_CHANGE_CIPHER_SPEC ==>
              unchanged(conn.rl)
  {
    hide TlsClient.Wf, TlsClient.InProgress, TlsClient.Ciphers, TlsClient.History, TlsClient.LayerReady, Oracle.Sound,
         TlsClient.Parameters, Sole, NowFull, Advanced;
    var pos := 0;
    data := None;
    SoleHolds(conn, ct, payload, o);
    while pos < |payload|
      invariant 0 <= pos <= |payload| && conn.Inv() && conn.alertLevel == old(conn.alertLevel)
      invariant conn.rl.readCbc == old(conn.rl.readCbc) || conn.rl.readCbc == null || fresh(conn.rl.readCbc)
      invariant conn.rl.writeCbc == old(conn.rl.writeCbc)
      invariant old(conn.state) == Failed ==> conn.state == Failed
      invariant (Ongoing(conn.state) || conn.state == old(conn.state)) && conn.inherited == old(conn.inherited)
      invariant conn.state == State.ClientHello ==> conn.dh == old(conn.dh)
      invariant pos == 0 ==> unchanged(conn, conn.rl, conn.verify) && data.None?
      invariant pos > 0 && old(Sole(conn, ct, payload, o)) ==>
                  pos == |payload| && data.None? && Advanced(old(NowFull(conn, payload)), conn, ct, payload, o)
      invariant old(Sole(conn, ct, payload, o) && conn.state != State.ServerHello) && ct != CT_CHANGE_CIPHER_SPEC ==>
                  unchanged(conn.rl)
    {
      assert payload[0..] == payload;
      var len, d;
      ok, len, d := ProcessHandshake(conn, ct, payload[pos..], o, wantData);
      if !ok {
        return false, data;
      }
      if d.Some? {
        data := d;
      }
      pos := pos + len;
    }
    ok := true;
  }

  /** How the record loop of the handshake ended. */
  datatype Outcome = AllDone | NeedsMore(pos: nat) | GaveUp

  lemma InvParts(conn: TlsClient)
    requires conn.Inv()
    ensures conn.LayerReady() && NULL_SUITE !in conn.cipherSuites
    ensures ValidDirection(conn.rl.Settings(), conn.rl.Reading())
  {
    ReadingValid(conn.rl);
  }

  lemma LayerReads(conn: TlsClient)
    requires conn.LayerReady()
    ensures conn.rl.ReadReady()
  {
  }

  lemma InvAfterReceive(conn: TlsClient)
    requires conn.LayerReady() && conn.env.Sound() && conn.verify.Paired()
    requires |conn.sessionId| <= 32 && |conn.clientRandom| == 32 && |conn.serverRandom| == 32 && |conn.masterSecret| == 48
    requires conn.InProgress() && conn.Ciphers() && conn.Parameters(conn.log)
    requires conn.alertLevel == 0 || conn.state == Established ==> conn.History()
    ensures conn.Inv()
  {
  }

  /** Receiving a record leaves the handshake alone. */
  method NextRecord(conn: TlsClient, inp: array<Byte>, pos: nat, inLen: nat, out: array<Byte>)
    returns (used: int, outLen: nat, alert: Byte)
    requires conn.Inv() && inp != out && pos + inLen <= inp.Length && inLen <= out.Length
    requires ValidDirection(conn.rl.Settings(), conn.rl.Reading()) && conn.LayerReady()
    modifies conn.rl`readSeqNum, conn.rl.readCbc, out
    ensures conn.Inv() && conn.LayerReady() && conn.rl.Settings() == old(conn.rl.Settings())
    ensures ValidDirection(conn.rl.Settings(), conn.rl.Reading())
    ensures match old(Receipt(conn.rl.Settings(), conn.rl.Reading(), inp[pos..pos + inLen], inLen))
            case NeedMore => used == 0 && conn.rl.Reading() == old(conn.rl.Reading())
            case Bad(a) => used == -1 && alert == a
            case Good(n, ct, payload, next) =>
              used == n && outLen == |payload| <= out.Length && out[..outLen] == payload && conn.rl.Reading() == next
              && ct == inp[pos] && HEADER_LEN <= n <= inLen
  {
    hide TlsClient.InProgress, TlsClient.Ciphers, TlsClient.History, TlsClient.LayerReady, Receipt, ValidDirection,
         Env.Sound, TlsClient.Parameters;
    used, outLen, alert := conn.ReceiveRecord(inp, pos, inLen, out);
    InvAfterReceive(conn);
  }

  /** The input does not hold a whole record yet. */
  ghost predicate Incomplete(conn: TlsClient, input: seq<Byte>)
    reads conn.rl, conn.rl.readCbc
  {
    && conn.rl.ReadReady() && ValidDirection(conn.rl.Settings(), conn.rl.Reading())
    && Receipt(conn.rl.Settings(), conn.rl.Reading(), input, |input|).NeedMore?
  }

  /** What is kept is less than a header, or less than the record its header announces. */
  lemma IncompleteIs(conn: TlsClient, input: seq<Byte>)
    requires Incomplete(conn, input)
    ensures |input| < 5 || (input[1] == 3 && 5 + BytesVal(input[3..5]) <= 18432 && |input| < 5 + BytesVal(input[3..5]))
  {
    hide Receipt, ValidDirection, BytesVal, RecordLayer.ReadReady;
    HeaderRefused(conn.rl.Settings(), conn.rl.Reading(), input, |input|);
  }

  /** What the record layer makes of the input. */
  ghost function Arrival(conn: TlsClient, input: seq<Byte>): Received
    reads conn.rl, conn.rl.readCbc
  {
    if conn.rl.ReadReady() && ValidDirection(conn.rl.Settings(), conn.rl.Reading())
    then Receipt(conn.rl.Settings(), conn.rl.Reading(), input, |input|) else NeedMore
  }

  /** The input is a single record with a single message in it, and that is one to be accepted. */
  ghost predicate Carries(conn: TlsClient, input: seq<Byte>, o: Oracle)
    reads conn, conn.rl, conn.rl.readCbc
  {
    var r := Arrival(conn, input);
    r.Good? && r.used == |input| && Sole(conn, r.ct, r.payload, o)
  }

  /** What arrives, and the connection it arrives at. */
  datatype Delivery = Delivery(record: Received, before: Full)

  ghost function Parcel(conn: TlsClient, input: seq<Byte>): Delivery
    reads conn, conn.rl, conn.rl.readCbc, conn.rl.writeCbc
  {
    var r := Arrival(conn, input);
    Delivery(r, NowFull(conn, if r.Good? then r.payload else []))
  }

  /** What such a record does; the reading direction is where the record left it. */
  ghost predicate Arrived(d: Delivery, conn: TlsClient, o: Oracle)
    reads conn`state, conn`sessionResumed, conn`useSessionTicket, conn`certificateRequested, conn`dh, conn`inherited
    reads conn`used, conn`serverRsaKey, conn`clientRandom, conn`serverRandom, conn`sessionId, conn`masterSecret
    reads conn`alertLevel, conn`log, conn.rl, conn.rl.readCbc, conn.rl.writeCbc
  {
    && d.record.Good? && Advanced(d.before, conn, d.record.ct, d.record.payload, o)
    && (d.before.before.state != State.ServerHello && d.record.ct != CT_CHANGE_CIPHER_SPEC ==>
          conn.rl.CanRead() && conn.rl.Reading() == d.record.next)
  }

  lemma CarriesSome(conn: TlsClient, input: seq<Byte>, o: Oracle)
    ensures Carries(conn, input, o) ==> |input| > 0 && conn.state != State.ClientHello
  {
    hide RecordLayer.ReadReady, ValidDirection;
  }

  /** One pass of the record loop: 0 when the record is incomplete, -1 when the handshake gives up. */
  method OneRecord(conn: TlsClient, inp: array<Byte>, pos: nat, out: array<Byte>, o: Oracle, wantData: bool)
    returns (used: int, data: Option<seq<Byte>>)
    requires conn.Inv() && o.Sound() && inp != out && pos < inp.Length <= out.Length
    modifies conn, conn.rl, conn.verify, conn.rl.readCbc, out
    ensures conn.Wf() && (conn.rl.readCbc == old(conn.rl.readCbc) || conn.rl.readCbc == null || fresh(conn.rl.readCbc))
    ensures conn.rl.writeCbc == old(conn.rl.writeCbc) && NULL_SUITE !in conn.cipherSuites
    ensures used <= inp.Length - pos && (conn.alertLevel != 0 || conn.Inv())
    ensures used >= 0 ==> conn.Inv() && conn.alertLevel == old(conn.alertLevel)
    ensures old(conn.alertLevel) != 0 ==> conn.alertLevel != 0
    ensures old(conn.state) == Failed ==> conn.state == Failed
    ensures (Ongoing(conn.state) || conn.state == old(conn.state)) && conn.inherited == old(conn.inherited)
    ensures conn.state == State.ClientHello ==> conn.dh == old(conn.dh)
    ensures used == 0 ==> Incomplete(conn, inp[pos..])
    ensures old(Carries(conn, inp[pos..], o)) ==>
              used == inp.Length - pos && data.None? && Arrived(old(Parcel(conn, inp[pos..])), conn, o)
  {
    hide TlsClient.InProgress, TlsClient.Ciphers, TlsClient.History, TlsClient.LayerReady, Oracle.Sound, Receipt,
         ValidDirection, Env.Sound, RecordLayer.ReadReady, RecordLayer.WriteReady, TlsClient.Parameters, Sole,
         NowFull, Advanced, RecordLayer.Reading, RecordLayer.CanRead;
    data := None;
    InvParts(conn);
    var n, alert;
    assert inp[pos..pos + (inp.Length - pos)] == inp[pos..];
    used, n, alert := NextRecord(conn, inp, pos, inp.Length - pos, out);
    LayerReads(conn);
    if used < 0 {
      conn.Alert(ALERT_LEVEL_FATAL, alert);
      return;
    }
    if used > 0 {
      var ok;
      ok, data := ProcessRecord(conn, inp[pos], out[..n], o, wantData);
      LayerReads(conn);
      if !ok {
        used := -1;
      }
    }
  }

  /** The record loop of tlsv1_client_handshake. */
  method ProcessInput(conn: TlsClient, input: seq<Byte>, o: Oracle, wantData: bool)
    returns (outcome: Outcome, data: Option<seq<Byte>>)
    requires conn.Inv() && o.Sound()
    modifies conn, conn.rl, conn.verify, conn.rl.readCbc
    ensures conn.Wf() && (conn.rl.readCbc == old(conn.rl.readCbc) || conn.rl.readCbc == null || fresh(conn.rl.readCbc))
    ensures conn.rl.writeCbc == old(conn.rl.writeCbc) && NULL_SUITE !in conn.cipherSuites
    ensures conn.alertLevel != 0 || conn.Inv()
    ensures !outcome.GaveUp? ==> conn.Inv() && conn.alertLevel == old(conn.alertLevel)
    ensures old(conn.alertLevel) != 0 ==> conn.alertLevel != 0
    ensures old(conn.state) == Failed ==> conn.state == Failed
    ensures (Ongoing(conn.state) || conn.state == old(conn.state)) && conn.inherited == old(conn.inherited)
    ensures conn.state == State.ClientHello ==> conn.dh == old(conn.dh)
    ensures outcome.NeedsMore? ==> outcome.pos < |input| && Incomplete(conn, input[outcome.pos..])
    ensures old(Carries(conn, input, o)) ==> outcome.AllDone? && data.None? && Arrived(old(Parcel(conn, input)), conn, o)
  {
    hide TlsClient.InProgress, TlsClient.Ciphers, TlsClient.History, TlsClient.LayerReady, Oracle.Sound, Env.Sound,
         TlsClient.Parameters, Carries, Parcel, Arrived;
    InvParts(conn);
    CarriesSome(conn, input, o);
    var inp := ToArray(input);
    var out := new Byte[|input|];
    var pos := 0;
    data := None;
    while pos < |input|
      invariant 0 <= pos <= |input| && conn.Inv() && conn.alertLevel == old(conn.alertLevel) && inp[..] == input
      invariant conn.rl.readCbc == old(conn.rl.readCbc) || conn.rl.readCbc == null || fresh(conn.rl.readCbc)
      invariant conn.rl.writeCbc == old(conn.rl.writeCbc)
      invariant old(conn.state) == Failed ==> conn.state == Failed
      invariant (Ongoing(conn.state) || conn.state == old(conn.state)) && conn.inherited == old(conn.inherited)
      invariant conn.state == State.ClientHello ==> conn.dh == old(conn.dh)
      invariant pos == 0 ==> unchanged(conn, conn.rl, conn.verify) && data.None?
      invariant pos == 0 && conn.rl.readCbc != null ==> unchanged(conn.rl.readCbc)
      invariant pos > 0 && old(Carries(conn, input, o)) ==>
                  pos == |input| && data.None? && Arrived(old(Parcel(conn, input)), conn, o)
    {
      assert inp[0..] == input;
      var used, d := OneRecord(conn, inp, pos, out, o, wantData);
      if used < 0 {
        return GaveUp, data;
      }
      if used == 0 {
        assert inp[pos..] == input[pos..];
        return NeedsMore(pos), data;
      }
      if d.Some? {
        data := d;
      }
      pos := pos + used;
    }
    outcome := AllDone;
  }

  lemma SliceEnds(all: seq<Byte>, pos: nat)
    requires pos <= |all|
    ensures EndOf(all[pos..], all)
  {
  }

  predicate EndOf(rest: seq<Byte>, all: seq<Byte>)
  {
    |rest| <= |all| && all[|all| - |rest|..] == rest
  }

  /** No parameters are, or were, older than the handshake. */
  ghost predicate Unencumbered(conn: TlsClient)
    reads conn`state, conn`dh, conn`inherited
  {
    conn.inherited.None? && (conn.state == State.ClientHello ==> conn.dh.None?)
  }

  /** An alert is pending on a connection that is not established. */
  predicate Doomed(conn: TlsClient)
    reads conn`alertLevel, conn`state
  {
    conn.alertLevel != 0 && conn.state != Established
  }

  /** The client's flight is sent: the record layer has the keys, and the flight ends with the first record under
      them. */
  ghost predicate Flown(b: Before, conn: TlsClient, out: seq<Byte>)
    reads conn`state, conn`alertLevel, conn`sessionResumed, conn`useSessionTicket, conn`masterSecret, conn`clientRandom
    reads conn`serverRandom, conn`log, conn.rl, conn.rl.writeCbc
  {
    && conn.alertLevel == 0 && conn.state == ServerChangeCipherSpec && FinishedSent(conn.log) == 1
    && conn.sessionResumed == b.resumed && conn.useSessionTicket == b.ticket
    && conn.rl.cipherSuite == b.suite && conn.rl.tlsVersion == b.version
    && Keyed(conn) && EndsFresh(conn.rl, out)
  }

  /** A message behind which the client goes on waiting. */
  ghost predicate Quiet(d: Delivery)
  {
    && d.record.Good? && |d.record.payload| > 0 && d.before.before.state != State.ServerFinished
    && (d.record.ct == CT_CHANGE_CIPHER_SPEC || d.record.payload[0] != HS_SERVER_HELLO_DONE)
  }

  /** What a connection with no input left over makes of an acceptable message. */
  lemma CarriesWhere(conn: TlsClient, input: seq<Byte>, o: Oracle)
    requires Carries(conn, input, o)
    ensures var d := Parcel(conn, input);
            Proper(d) && d.before.before == Now(conn) && d.before.sent == FinishedSent(conn.log)
  {
    hide RecordLayer.ReadReady, ValidDirection, OpeningGood, ClosingGood, Acceptable, Keyed, FixedPart, Count;
    CarriesSome(conn, input, o);
  }

  /** One of the messages a server may send in the state it was sent to. */
  ghost predicate Proper(d: Delivery)
  {
    var st := d.before.before.state;
    && d.record.Good? && |d.record.payload| > 0
    && (st == State.ServerHello || st == ServerChangeCipherSpec || st == State.ServerFinished || WaitsForMiddle(st))
    && (d.record.ct == CT_CHANGE_CIPHER_SPEC ==> st == ServerChangeCipherSpec)
  }

  lemma AfterQuiet(d: Delivery, conn: TlsClient, o: Oracle)
    requires Arrived(d, conn, o) && Quiet(d)
    requires d.before.before.state == State.ServerHello || d.before.before.state == ServerChangeCipherSpec
             || WaitsForMiddle(d.before.before.state)
    requires d.record.ct == CT_CHANGE_CIPHER_SPEC ==> d.before.before.state == ServerChangeCipherSpec
    ensures conn.alertLevel == 0 && !Speaks(conn.state)
  {
    hide HelloTaken, KeyTaken, GetBE24, DhParams, Keyed, FixedPart, ReadsFresh;
  }

  lemma AfterDone(d: Delivery, conn: TlsClient, o: Oracle)
    requires Arrived(d, conn, o) && WaitsForMiddle(d.before.before.state) && d.record.payload[0] == HS_SERVER_HELLO_DONE
    ensures var b := d.before.before;
            && conn.alertLevel == 0 && conn.state == State.ClientKeyExchange && conn.sessionResumed == b.resumed
            && conn.useSessionTicket == b.ticket && conn.certificateRequested == b.requested && conn.dh == b.dh
            && conn.serverRsaKey == b.key && conn.rl.cipherSuite == b.suite && conn.rl.tlsVersion == b.version
            && SameConfig(d.before.fixed, conn.rl)
  {
    hide HelloTaken, KeyTaken, GetBE24, DhParams, Keyed, ReadsFresh;
  }

  lemma AfterFinished(d: Delivery, conn: TlsClient, o: Oracle)
    requires Arrived(d, conn, o) && d.before.before.state == State.ServerFinished && d.record.ct != CT_CHANGE_CIPHER_SPEC
    ensures var b := d.before.before;
            && conn.alertLevel == 0 && FinishedSent(conn.log) == d.before.sent && FixedPart(conn.rl) == d.before.fixed
            && (d.before.keyed ==> Keyed(conn)) && conn.rl.CanRead() && conn.rl.Reading() == d.record.next
            && SameKeys(d.before.fixed, conn.rl)
            && conn.state == if b.resumed || b.ticket then State.ChangeCipherSpec else AckFinished
  {
    hide HelloTaken, KeyTaken, GetBE24, DhParams, Keyed, ReadsFresh, RecordLayer.ReadReady;
  }

  lemma AfterArrival(d: Delivery, conn: TlsClient, o: Oracle)
    requires Arrived(d, conn, o) && Proper(d)
    ensures conn.alertLevel == 0
    ensures Quiet(d) ==> !Speaks(conn.state)
    ensures var b := d.before.before;
            WaitsForMiddle(b.state) && !Quiet(d) ==>
              && conn.state == State.ClientKeyExchange && conn.sessionResumed == b.resumed && conn.useSessionTicket == b.ticket
              && conn.certificateRequested == b.requested && conn.dh == b.dh && conn.serverRsaKey == b.key
              && conn.rl.cipherSuite == b.suite && conn.rl.tlsVersion == b.version && SameConfig(d.before.fixed, conn.rl)
    ensures var b := d.before.before;
            b.state == State.ServerFinished ==>
              && FinishedSent(conn.log) == d.before.sent && FixedPart(conn.rl) == d.before.fixed
              && (d.before.keyed ==> Keyed(conn)) && conn.rl.CanRead() && conn.rl.Reading() == d.record.next
              && SameKeys(d.before.fixed, conn.rl)
              && conn.state == if b.resumed || b.ticket then State.ChangeCipherSpec else AckFinished
  {
    hide MovesOn, Keyed, FixedPart, ReadsFresh, Count, SameConfig, SameKeys;
    if Quiet(d) {
      AfterQuiet(d, conn, o);
    } else if d.before.before.state == State.ServerFinished {
      AfterFinished(d, conn, o);
    } else if WaitsForMiddle(d.before.before.state) {
      AfterDone(d, conn, o);
    }
  }

  /** The server's Finished is in, and the client's own has gone out, then or before. */
  ghost predicate Closed(d: Delivery, conn: TlsClient, out: seq<Byte>)
    reads conn`state, conn`alertLevel, conn`masterSecret, conn`clientRandom, conn`serverRandom
    reads conn.rl, conn.rl.writeCbc, conn.rl.readCbc
  {
    var b := d.before.before;
    && conn.state == Established && conn.alertLevel == 0 && d.record.Good?
    && (d.before.keyed ==> Keyed(conn)) && SameKeys(d.before.fixed, conn.rl)
    && conn.rl.CanRead() && conn.rl.Reading() == d.record.next
    && (b.resumed || b.ticket ==> EndsFresh(conn.rl, out))
    && (!b.resumed && !b.ticket ==> FixedPart(conn.rl) == d.before.fixed)
  }

  /** What the handshake makes of a single acceptable message: it takes it and waits, or it answers with the flight
      that is due. */
  ghost predicate Answered(d: Delivery, fits: bool, conn: TlsClient, out: seq<Byte>, o: Oracle)
    reads conn`state, conn`sessionResumed, conn`useSessionTicket, conn`certificateRequested, conn`dh, conn`inherited
    reads conn`used, conn`serverRsaKey, conn`clientRandom, conn`serverRandom, conn`sessionId, conn`masterSecret
    reads conn`alertLevel, conn`log, conn.rl, conn.rl.readCbc, conn.rl.writeCbc
  {
    var st := d.before.before.state;
    && d.record.Good? && |d.record.payload| > 0
    && (Quiet(d) ==> out == [] && Arrived(d, conn, o))
    && (WaitsForMiddle(st) && !Quiet(d) && fits ==>
          Flown(d.before.before, conn, out) && SameConfig(d.before.fixed, conn.rl))
    && (st == State.ServerFinished && (d.before.before.resumed || d.before.before.ticket ==> d.before.sent == 0) ==>
          Closed(d, conn, out))
  }

  lemma FlownNow(b: Before, conn: TlsClient, out: seq<Byte>, preMaster: seq<Byte>)
    requires conn.alertLevel == 0 && conn.state == ServerChangeCipherSpec && FinishedSent(conn.log) == 1
    requires conn.sessionResumed == b.resumed && conn.useSessionTicket == b.ticket
    requires conn.rl.cipherSuite == b.suite && conn.rl.tlsVersion == b.version && EndsFresh(conn.rl, out)
    requires KeysFrom(conn, preMaster)
    ensures Flown(b, conn, out)
  {
    hide EndsFresh, Keyed, Count;
  }

  lemma ClosedNow(d: Delivery, conn: TlsClient, out: seq<Byte>)
    requires conn.state == Established && conn.alertLevel == 0 && d.record.Good?
    requires d.before.keyed ==> Keyed(conn)
    requires conn.rl.CanRead() && conn.rl.Reading() == d.record.next && SameKeys(d.before.fixed, conn.rl)
    requires d.before.before.resumed || d.before.before.ticket ==> EndsFresh(conn.rl, out)
    requires !d.before.before.resumed && !d.before.before.ticket ==> FixedPart(conn.rl) == d.before.fixed
    ensures Closed(d, conn, out)
  {
    hide EndsFresh, Keyed;
  }

  /** The answer is not due. */
  ghost predicate Undue(d: Delivery, fits: bool)
  {
    var st := d.before.before.state;
    && d.record.Good? && |d.record.payload| > 0 && !Quiet(d) && !(WaitsForMiddle(st) && fits)
    && !(st == State.ServerFinished && (d.before.before.resumed || d.before.before.ticket ==> d.before.sent == 0))
  }

  lemma NoAnswer(d: Delivery, fits: bool, conn: TlsClient, out: seq<Byte>, o: Oracle)
    requires Answered(d, fits, conn, out, o) && conn.alertLevel != 0
    ensures Undue(d, fits)
  {
    hide MovesOn, EndsFresh, Keyed, FixedPart, ReadsFresh, Count;
  }

  lemma NoneDue(d: Delivery, fits: bool, conn: TlsClient, out: seq<Byte>, o: Oracle)
    requires Undue(d, fits)
    ensures Answered(d, fits, conn, out, o)
  {
    hide Arrived, Flown, Closed;
  }

  lemma AnsweredFits(d: Delivery, fits1: bool, fits2: bool, conn: TlsClient, out: seq<Byte>, o: Oracle)
    requires Answered(d, fits1, conn, out, o)
    requires WaitsForMiddle(d.before.before.state) && !Quiet(d) && fits2 ==> fits1
    ensures Answered(d, fits2, conn, out, o)
  {
    hide Arrived, Flown, Closed;
  }

  lemma AnswerNow(d: Delivery, fits: bool, conn: TlsClient, out: seq<Byte>, o: Oracle)
    requires Proper(d) && (Quiet(d) ==> out == [] && Arrived(d, conn, o))
    requires WaitsForMiddle(d.before.before.state) && !Quiet(d) && fits ==>
               Flown(d.before.before, conn, out) && SameConfig(d.before.fixed, conn.rl)
    requires (d.before.before.state == State.ServerFinished
              && (d.before.before.resumed || d.before.before.ticket ==> d.before.sent == 0)) ==> Closed(d, conn, out)
    ensures Answered(d, fits, conn, out, o)
  {
    hide Arrived, Flown, Closed, SameConfig;
  }

  lemma RepliedState(st0: State, st: State, log0: seq<Event>, log: seq<Event>, out: Option<seq<Byte>>, quiet: bool,
                     requested: bool, hasKey: bool)
    requires Replied(st0, st, log0, log, out, quiet, requested, hasKey)
    ensures st0 == State.ClientKeyExchange && out.Some? ==> st == ServerChangeCipherSpec
    ensures st0 == State.ChangeCipherSpec && out.Some? ==> st == Established
    ensures st0 == AckFinished ==> st == Established
    ensures !Speaks(st0) ==> out.None? && st == st0
  {
    hide ClientFlight, LastPair;
  }

  /** The reply to what has arrived. */
  method Reply(conn: TlsClient, o: Oracle, noApplData: bool, ghost d: Delivery) returns (reply: Option<seq<Byte>>)
    requires conn.Inv() && o.Sound()
    modifies conn`masterSecret, conn`dh, conn`used, conn`alertLevel, conn`alertDescription, conn`log, conn`state
    modifies conn`sessionResumed, conn.rl`writeMacSecret, conn.rl`readMacSecret, conn.rl`writeKey, conn.rl`readKey
    modifies conn.rl`writeIv, conn.rl`readIv, conn.rl`writeCipherSuite, conn.rl`writeSeqNum, conn.rl`writeCbc
    modifies conn.rl.writeCbc, conn.verify
    ensures conn.Wf() && (conn.rl.writeCbc == old(conn.rl.writeCbc) || conn.rl.writeCbc == null || fresh(conn.rl.writeCbc))
    ensures conn.alertLevel != 0 || conn.Inv()
    ensures old(conn.state) == Failed ==> conn.state == Failed
    ensures old(conn.alertLevel) != 0 ==> conn.alertLevel != 0
    ensures conn.state == State.ClientHello ==> old(conn.state) == State.ClientHello && conn.dh == old(conn.dh)
    ensures Proper(d) && old(Arrived(d, conn, o)) ==>
              Answered(d, old(FlightFits(conn, o)), conn, if reply.Some? then reply.value else [], o)
  {
    hide TlsClient.Inv, TlsClient.Wf, Oracle.Sound, EndsFresh, Count, ClientFlight, LastPair, Keyed, MasterSecret,
         Ephemeral, KeyBlock, PreMaster, ClientShare, RecordLayer.Reading, RecordLayer.CanRead, RecordLayer.Settings,
         Arrived, Quiet, Speaks, FixedPart, SameConfig, SameKeys, Flown, Closed, FlightFits, KeysFrom, Answered,
         Replied;
    ghost var fits, preMaster := FlightFits(conn, o), PreMaster(conn, o);
    ghost var st := d.before.before.state;
    ghost var proper := Proper(d) && Arrived(d, conn, o);
    Apart(conn);
    if proper {
      AfterArrival(d, conn, o);
    }
    reply := HandshakeWrite(conn, o, noApplData);
    RepliedState(old(conn.state), conn.state, old(conn.log), conn.log, reply, noApplData, conn.certificateRequested,
                 conn.env.hasClientKey);
    ghost var out := if reply.Some? then reply.value else [];
    if proper {
      if fits && WaitsForMiddle(st) && !Quiet(d) {
        assert reply.Some?;
        FlownNow(d.before.before, conn, out, preMaster);
      }
      if st == State.ServerFinished && (d.before.before.resumed || d.before.before.ticket ==> d.before.sent == 0) {
        ClosedNow(d, conn, out);
      }
      AnswerNow(d, fits, conn, out, o);
    }
  }

  /** The end of tlsv1_client_handshake: the reply, if there is one, or the pending alert. */
  method Conclude(conn: TlsClient, o: Oracle, done: bool, noApplData: bool, ghost d: Delivery) returns (out: seq<Byte>)
    requires conn.Wf() && (conn.alertLevel != 0 || conn.Inv()) && (done ==> conn.Inv())
    requires o.Sound() && NULL_SUITE !in conn.cipherSuites
    modifies conn`masterSecret, conn`dh, conn`used, conn`alertLevel, conn`alertDescription, conn`log, conn`state
    modifies conn`sessionResumed, conn.rl`writeMacSecret, conn.rl`readMacSecret, conn.rl`writeKey, conn.rl`readKey
    modifies conn.rl`writeIv, conn.rl`readIv, conn.rl`writeCipherSuite, conn.rl`writeSeqNum, conn.rl`writeCbc
    modifies conn.rl.writeCbc, conn.verify
    ensures conn.Inv()
    ensures conn.rl.writeCbc == old(conn.rl.writeCbc) || conn.rl.writeCbc == null || fresh(conn.rl.writeCbc)
    ensures old(conn.state) == Failed ==> conn.state == Failed
    ensures old(conn.alertLevel) != 0 ==> conn.alertLevel != 0
    ensures conn.state == State.ClientHello ==> old(conn.state) == State.ClientHello && conn.dh == old(conn.dh)
    ensures conn.alertLevel != 0 ==>
              conn.state == Failed && out == AlertRecord(conn.rl.tlsVersion, conn.alertLevel, conn.alertDescription)
    ensures done && Proper(d) && old(Arrived(d, conn, o)) ==>
              Answered(d, old(FlightFits(conn, o)), conn, out, o)
  {
    hide TlsClient.Inv, TlsClient.Wf, Oracle.Sound, AlertRecord, Arrived, Proper, Answered, FlightFits;
    var reply := None;
    if done {
      reply := Reply(conn, o, noApplData, d);
    }
    if conn.alertLevel != 0 {
      ghost var proper := done && Proper(d) && old(Arrived(d, conn, o));
      if proper {
        NoAnswer(d, old(FlightFits(conn, o)), conn, if reply.Some? then reply.value else [], o);
      }
      GoFailed(conn);
      out := AlertRecord(conn.rl.tlsVersion, conn.alertLevel, conn.alertDescription);
      if proper {
        NoneDue(d, old(FlightFits(conn, o)), conn, out, o);
      }
    } else {
      out := if reply.Some? then reply.value else [];
    }
  }

  /** The record loop and what comes after it, unless the input is incomplete. */
  method Exchange(conn: TlsClient, input: seq<Byte>, o: Oracle, wantData: bool)
    returns (outcome: Outcome, data: Option<seq<Byte>>, out: seq<Byte>)
    requires conn.Inv() && o.Sound()
    modifies conn, conn.rl, conn.verify, conn.rl.writeCbc, conn.rl.readCbc
    ensures conn.Inv()
    ensures conn.rl.readCbc == old(conn.rl.readCbc) || conn.rl.readCbc == null || fresh(conn.rl.readCbc)
    ensures conn.rl.writeCbc == old(conn.rl.writeCbc) || conn.rl.writeCbc == null || fresh(conn.rl.writeCbc)
    ensures old(conn.state) == Failed ==> conn.state == Failed
    ensures old(conn.alertLevel) != 0 ==> conn.alertLevel != 0
    ensures conn.inherited == old(conn.inherited)
    ensures outcome.NeedsMore? ==> Ongoing(conn.state) || conn.state == old(conn.state)
    ensures conn.state == State.ClientHello ==> old(conn.state) == State.ClientHello && conn.dh == old(conn.dh)
    ensures outcome.NeedsMore? ==> outcome.pos < |input| && Incomplete(conn, input[outcome.pos..])
    ensures !outcome.NeedsMore? && conn.alertLevel != 0 ==>
              conn.state == Failed && out == AlertRecord(conn.rl.tlsVersion, conn.alertLevel, conn.alertDescription)
    ensures old(Carries(conn, input, o)) ==>
              !outcome.NeedsMore? && Answered(old(Parcel(conn, input)), old(FlightFits(conn, o)), conn, out, o)
  {
    hide TlsClient.Inv, TlsClient.Wf, Oracle.Sound, AlertRecord, Incomplete, Carries, Parcel, Arrived, FlightFits,
         Speaks, EndsFresh, Keyed, FixedPart, Count, RecordLayer.ReadReady, RecordLayer.WriteReady,
         RecordLayer.Reading, RecordLayer.Settings, RecordLayer.CanRead, Flown, Closed, Proper, Answered, Quiet;
    ghost var carries, fits, d := Carries(conn, input, o), FlightFits(conn, o), Parcel(conn, input);
    if carries {
      CarriesWhere(conn, input, o);
    }
    outcome, data := ProcessInput(conn, input, o, wantData);
    out := [];
    if outcome.NeedsMore? {
      return;
    }
    if carries {
      AfterArrival(d, conn, o);
    }
    ghost var fitsNow := FlightFits(conn, o);
    out := Conclude(conn, o, outcome.AllDone?, data.None?, d);
    if carries {
      AnsweredFits(d, fitsNow, fits, conn, out, o);
    }
  }

  /** tlsv1_client_handshake. Incomplete input is kept, anything else uses it up; a pending alert fails the
      connection and is sent. wantData and wantMore say whether the caller passed the two optional result
      pointers. */
  method Handshake(conn: TlsClient, inData: seq<Byte>, o: Oracle, wantData: bool, wantMore: bool)
    returns (out: Option<seq<Byte>>, data: Option<seq<Byte>>, needMore: bool)
    requires conn.Inv() && o.Sound()
    modifies conn, conn.rl, conn.verify, conn.rl.writeCbc, conn.rl.readCbc
    ensures conn.Inv()
    ensures conn.rl.readCbc == old(conn.rl.readCbc) || conn.rl.readCbc == null || fresh(conn.rl.readCbc)
    ensures conn.rl.writeCbc == old(conn.rl.writeCbc) || conn.rl.writeCbc == null || fresh(conn.rl.writeCbc)
    ensures old(conn.state) == Failed ==> conn.state == Failed
    ensures old(Doomed(conn)) ==> Doomed(conn)
    ensures old(Unencumbered(conn)) ==> Unencumbered(conn)
    ensures out.Some? && old(conn.state) != State.ClientHello ==> conn.partialInput == []
    ensures out.Some? && old(conn.state) != State.ClientHello && conn.alertLevel != 0 ==>
              conn.state == Failed && out == Some(AlertRecord(conn.rl.tlsVersion, conn.alertLevel, conn.alertDescription))
    ensures out.None? && old(conn.state) != State.ClientHello && old(conn.partialInput) + inData != [] ==>
              && conn.partialInput != [] && Incomplete(conn, conn.partialInput) && needMore == wantMore
              && EndOf(conn.partialInput, old(conn.partialInput) + inData)
    ensures old(conn.state) == State.ClientHello && inData == [] ==>
              && out.Some? && conn.state == State.ServerHello && unchanged(conn`alertLevel, conn`partialInput)
              && unchanged(conn`sessionId, conn`prevCipherSuite, conn`useSessionTicket, conn`certificateRequested)
    ensures old(conn.partialInput == [] && Carries(conn, inData, o)) ==>
              && out.Some? && conn.partialInput == []
              && Answered(old(Parcel(conn, inData)), old(FlightFits(conn, o)), conn, out.value, o)
  {
    hide TlsClient.Wf, TlsClient.InProgress, TlsClient.Ciphers, TlsClient.History, TlsClient.LayerReady, Oracle.Sound,
         AlertRecord, Incomplete, EndOf, HelloBody, Message, TlsClient.Parameters, TlsClient.Inv, Answered, Carries,
         Parcel, FlightFits;
    out, data, needMore := None, None, false;
    CarriesSome(conn, inData, o);
    if conn.state == State.ClientHello {
      if |inData| > 0 {
        return;
      }
      out := SendClientHello(conn, o);
      return;
    }
    var input := inData;
    if |conn.partialInput| > 0 {
      conn.partialInput := conn.partialInput + inData;
      input := conn.partialInput;
    } else {
      assert conn.partialInput + inData == inData;
    }
    if |input| == 0 {
      return;
    }
    var outcome, reply;
    outcome, data, reply := Exchange(conn, input, o, wantData);
    if outcome.NeedsMore? {
      SliceEnds(input, outcome.pos);
      conn.partialInput := input[outcome.pos..];
      needMore := wantMore;
      return;
    }
    out := Some(reply);
    conn.partialInput := [];
  }

  // ---------------------------------------------------------------- tunnel data

  /** tlsv1_client_encrypt: no state is asked for. Before the cipher is switched the record goes out in the
      clear. */
  method Encrypt(conn: TlsClient, inData: seq<Byte>, outLen: nat, o: Oracle) returns (record: Option<seq<Byte>>)
    requires conn.Inv() && o.Sound()
    modifies conn`alertLevel, conn`alertDescription, conn`log, conn.rl`writeSeqNum, conn.rl.writeCbc
    ensures conn.Inv()
    ensures record.None? ==> conn.alertLevel != 0 && conn.log == old(conn.log)
    ensures HEADER_LEN + |inData| + 64 <= outLen ==> record.Some?
    ensures record.Some? ==> conn.log == old(conn.log) + [Sent(CT_APPLICATION_DATA, inData)]
    ensures record.Some? ==> conn.alertLevel == old(conn.alertLevel)
    ensures record.Some? ==>
              && record.value == old(RecordOf(conn.rl.Settings(), conn.rl.Writing(), CT_APPLICATION_DATA, inData,
                                              o.random(9, conn.rl.ivSize)))
              && conn.rl.Writing() == old(Stepped(conn.rl.Settings(), conn.rl.Writing(),
                                                  Body(conn.rl.Settings(), conn.rl.Writing(), CT_APPLICATION_DATA, inData,
                                                       o.random(9, conn.rl.ivSize))))
  {
    hide Env.Sound, TlsClient.LayerReady, Legal, Count, Transcript, Started, VerifyHash.Holds, VerifyHash.ClientDone,
         VerifyHash.Paired, Oracle.Sound, RecordOf, RecordLayer.Settings, RecordLayer.Writing, Vouched, KeyForSuite,
         Progress, TlsClient.Parameters, OnlyData, Body, TlsClient.Wf, Stepped;
    QuietProgress(conn, Sent(CT_APPLICATION_DATA, inData));
    PlainEvent(conn.env.hashing, conn.rl.tlsVersion, conn.masterSecret, conn.log, Sent(CT_APPLICATION_DATA, inData));
    assert Transcript(conn.log) + [] == Transcript(conn.log);
    StillVouched(conn, Sent(CT_APPLICATION_DATA, inData));
    ParametersKept(conn, Sent(CT_APPLICATION_DATA, inData));
    var ok, r := conn.SendRecord(CT_APPLICATION_DATA, inData, outLen, o, 9);
    if !ok {
      conn.Alert(ALERT_LEVEL_FATAL, ALERT_INTERNAL_ERROR);
      return None;
    }
    record := Some(r);
  }

  /** The record loop of tlsv1_client_decrypt: it computes what Streams.Decoded says. */
  method DecodeLoop(conn: TlsClient, input: seq<Byte>) returns (ok: bool, data: seq<Byte>, pos: nat, alert: Byte)
    requires conn.Inv() && conn.LayerReady() && ValidDirection(conn.rl.Settings(), conn.rl.Reading())
    modifies conn.rl`readSeqNum, conn.rl.readCbc
    ensures conn.Inv() && conn.LayerReady() && conn.rl.Settings() == old(conn.rl.Settings()) && pos <= |input|
    ensures var t := old(Streams.Decoded(conn.rl.Settings(), conn.rl.Reading(), input));
            && (ok <==> t.failed.None?)
            && (ok ==> data == t.data && input[pos..] == t.rest && conn.rl.Reading() == t.next)
            && (!ok ==> t.failed == Some(alert))
  {
    hide TlsClient.InProgress, TlsClient.Ciphers, TlsClient.History, TlsClient.Wf, Receipt, ValidDirection,
         Streams.Decoding, Streams.Decoded, RecordLayer.ReadReady, RecordLayer.WriteReady, TlsClient.Parameters;
    ghost var p, d0 := conn.rl.Settings(), conn.rl.Reading();
    var inp := ToArray(input);
    var out := new Byte[|input|];
    ok, data, pos, alert := true, [], 0, 0;
    Streams.DecodingStart(p, d0, input);
    while pos < |input|
      modifies conn.rl`readSeqNum, conn.rl.readCbc, out
      invariant 0 <= pos <= |input| && inp[..] == input && conn.Inv() && conn.LayerReady()
      invariant conn.rl.Settings() == p && ValidDirection(p, conn.rl.Reading())
      invariant Streams.Decoding(p, d0, input, conn.rl.Reading(), pos, data)
    {
      ghost var d := conn.rl.Reading();
      assert inp[pos..pos + (|input| - pos)] == input[pos..];
      Streams.DecodingStep(p, d0, input, d, pos, data);
      var used, n;
      used, n, alert := NextRecord(conn, inp, pos, |input| - pos, out);
      if used < 0 {
        ok := false;
        return;
      }
      if used == 0 {
        return;
      }
      var effect := Streams.EffectOf(inp[pos], out[..n]);
      if effect.Stop? {
        ok, alert := false, effect.alert;
        return;
      }
      if effect.More? {
        data := data + effect.data;
      } else {
        assert data + [] == data;
      }
      pos := pos + used;
    }
    Streams.DecodingStep(p, d0, input, conn.rl.Reading(), pos, data);
    EndOfInput(p, conn.rl.Reading(), input[pos..]);
  }

  lemma EndOfInput(p: Params, d: Direction, rest: seq<Byte>)
    requires ValidDirection(p, d) && rest == []
    ensures Receipt(p, d, rest, 0).NeedMore?
  {
  }

  /** tlsv1_client_decrypt, in whatever state. A failure raises an alert and forgets the partial input; the
      connection state stays. */
  method Decrypt(conn: TlsClient, inData: seq<Byte>, wantMore: bool) returns (data: Option<seq<Byte>>, needMore: bool)
    requires conn.Inv() && ValidDirection(conn.rl.Settings(), conn.rl.Reading())
    modifies conn`alertLevel, conn`alertDescription, conn`partialInput, conn.rl`readSeqNum, conn.rl.readCbc
    ensures conn.Inv()
    ensures var t := old(Streams.Decoded(conn.rl.Settings(), conn.rl.Reading(), conn.partialInput + inData));
            && (data.Some? <==> t.failed.None?)
            && (data.Some? ==> data.value == t.data && conn.partialInput == t.rest && conn.rl.Reading() == t.next
                               && needMore == (wantMore && t.rest != []) && conn.alertLevel == old(conn.alertLevel))
            && (data.None? ==> conn.alertLevel == ALERT_LEVEL_FATAL && t.failed == Some(conn.alertDescription)
                               && conn.partialInput == [])
  {
    hide TlsClient.Inv, TlsClient.LayerReady, TlsClient.Wf, Receipt, ValidDirection, Streams.Decoded;
    needMore := false;
    InvParts(conn);
    var input := inData;
    if |conn.partialInput| > 0 {
      conn.partialInput := conn.partialInput + inData;
      input := conn.partialInput;
    } else {
      assert conn.partialInput + inData == inData;
    }
    var ok, plain, pos, alert := DecodeLoop(conn, input);
    if !ok {
      conn.partialInput := [];
      RaiseAlert(conn, alert);
      return None, false;
    }
    conn.partialInput := input[pos..];
    needMore := wantMore && pos < |input|;
    data := Some(plain);
  }

  /** An alert takes nothing from the history of an established connection. */
  method RaiseAlert(conn: TlsClient, description: Byte)
    requires conn.Inv()
    modifies conn`alertLevel, conn`alertDescription
    ensures conn.Inv() && conn.alertLevel == ALERT_LEVEL_FATAL && conn.alertDescription == description
  {
    hide TlsClient.Wf, TlsClient.InProgress, TlsClient.Ciphers, TlsClient.History;
    conn.Alert(ALERT_LEVEL_FATAL, description);
  }

  // ---------------------------------------------------------------- shutdown and runs

  /** tlsv1_client_shutdown: the only way out of the failed state. Pending alerts, partial input and the
      session ticket flag survive it. */
  method Shutdown(conn: TlsClient)
    requires conn.Inv()
    modifies conn`state, conn`log, conn`certificateRequested, conn`serverRsaKey, conn`sessionResumed, conn.rl, conn.verify
    ensures conn.Inv() && conn.state == State.ClientHello && conn.log == [] && !conn.sessionResumed
    ensures conn.dh == old(conn.dh) && conn.alertLevel == old(conn.alertLevel) && !conn.certificateRequested
    ensures conn.rl.writeCbc == null || fresh(conn.rl.writeCbc)
    ensures conn.rl.readCbc == null || fresh(conn.rl.readCbc)
  {
    hide Env.Sound, TlsClient.LayerReady, TlsClient.Wf, TlsClient.InProgress, TlsClient.Ciphers, TlsClient.History;
    InvParts(conn);
    SizesKept(conn);
    conn.state := State.ClientHello;
    conn.verify.Init();
    ResetLayer(conn);
    conn.certificateRequested := false;
    conn.serverRsaKey := None;
    conn.sessionResumed := false;
    conn.log := [];
    StartsOver(conn);
  }

  lemma SizesKept(conn: TlsClient)
    requires conn.Inv()
    ensures conn.env.Sound() && |conn.sessionId| <= 32
    ensures |conn.clientRandom| == 32 && |conn.serverRandom| == 32 && |conn.masterSecret| == 48
  {
  }

  /** Both directions back to the null cipher. */
  method ResetLayer(conn: TlsClient)
    requires conn.LayerReady()
    modifies conn.rl
    ensures conn.LayerReady() && conn.rl.writeCipherSuite == conn.rl.readCipherSuite == conn.rl.cipherSuite == NULL_SUITE
    ensures conn.rl.writeCbc == null || fresh(conn.rl.writeCbc)
    ensures conn.rl.readCbc == null || fresh(conn.rl.readCbc)
  {
    hide Primitives.Sound, SuiteData;
    NullSuite();
    var ok := conn.rl.SetCipherSuite(NULL_SUITE);
    ok := conn.rl.ChangeWriteCipher();
    ok := conn.rl.ChangeReadCipher();
  }

  lemma NullSuite()
    ensures SuiteData(NULL_SUITE) == Some(Suite(NoKx, Cipher.Null, 0, 0, None))
  {
  }

  /** One call by the application. */
  datatype Call =
    | HandshakeCall(input: seq<Byte>, oracle: Oracle, wantData: bool, wantMore: bool)
    | EncryptCall(plain: seq<Byte>, room: nat, oracle: Oracle)
    | DecryptCall(input: seq<Byte>, wantMore: bool)
    | ShutdownCall

  ghost predicate Fair(c: Call)
  {
    (c.HandshakeCall? ==> c.oracle.Sound()) && (c.EncryptCall? ==> c.oracle.Sound())
  }

  /** Any call keeps the invariant, and only shutdown leaves the failed state. */
  method Perform(conn: TlsClient, c: Call)
    requires conn.Inv() && Fair(c)
    modifies conn, conn.rl, conn.verify, conn.rl.writeCbc, conn.rl.readCbc
    ensures conn.Inv()
    ensures conn.rl.readCbc == old(conn.rl.readCbc) || conn.rl.readCbc == null || fresh(conn.rl.readCbc)
    ensures conn.rl.writeCbc == old(conn.rl.writeCbc) || conn.rl.writeCbc == null || fresh(conn.rl.writeCbc)
    ensures old(conn.state) == Failed && !c.ShutdownCall? ==> conn.state == Failed
    ensures old(Doomed(conn)) ==> Doomed(conn)
    ensures old(Unencumbered(conn)) && !c.ShutdownCall? ==> Unencumbered(conn)
  {
    hide TlsClient.InProgress, TlsClient.Ciphers, TlsClient.History, TlsClient.LayerReady, TlsClient.Wf,
         ValidDirection, Oracle.Sound, Receipt, Streams.Decoded, TlsClient.Parameters, TlsClient.Inv, Answered,
         Carries, Parcel, FlightFits, RecordOf, Body, Stepped;
    match c {
      case HandshakeCall(input, oracle, wantData, wantMore) =>
        var out, data, more := Handshake(conn, input, oracle, wantData, wantMore);
      case EncryptCall(plain, room, oracle) =>
        var record := Encrypt(conn, plain, room, oracle);
      case DecryptCall(input, wantMore) =>
        InvParts(conn);
        var data, more := Decrypt(conn, input, wantMore);
      case ShutdownCall =>
        Shutdown(conn);
    }
  }

  /** Any further calls. Once an alert is pending on a connection that is not established, nothing establishes it
      again, not even after a shutdown. */
  method Continue(conn: TlsClient, calls: seq<Call>)
    requires conn.Inv() && forall i :: 0 <= i < |calls| ==> Fair(calls[i])
    modifies conn, conn.rl, conn.verify, conn.rl.writeCbc, conn.rl.readCbc
    ensures conn.Inv() && (old(Doomed(conn)) ==> Doomed(conn))
    ensures old(conn.alertLevel != 0 && conn.state != Established) ==> conn.alertLevel != 0 && conn.state != Established
    ensures (forall i :: 0 <= i < |calls| ==> !calls[i].ShutdownCall?) && old(Unencumbered(conn)) ==> Unencumbered(conn)
  {
    hide TlsClient.Inv, Fair, Doomed, Unencumbered;
    DoomedIs(conn);
    var i := 0;
    while i < |calls|
      invariant 0 <= i <= |calls| && conn.Inv() && (old(Doomed(conn)) ==> Doomed(conn))
      invariant conn.rl.writeCbc == old(conn.rl.writeCbc) || conn.rl.writeCbc == null || fresh(conn.rl.writeCbc)
      invariant conn.rl.readCbc == old(conn.rl.readCbc) || conn.rl.readCbc == null || fresh(conn.rl.readCbc)
      invariant (forall k :: 0 <= k < i ==> !calls[k].ShutdownCall?) && old(Unencumbered(conn)) ==> Unencumbered(conn)
    {
      Perform(conn, calls[i]);
      i := i + 1;
    }
    DoomedIs(conn);
  }

  lemma DoomedIs(conn: TlsClient)
    ensures Doomed(conn) <==> conn.alertLevel != 0 && conn.state != Established
  {
  }

  /** A fair call brings random octets of the sizes that are asked for, and a ticket secret of 48. */
  lemma FairIs(c: Call)
    ensures Fair(c) <==>
              && (c.HandshakeCall? ==> |c.oracle.ticketSecret| == 48
                                        && forall i, n {:trigger c.oracle.random(i, n)} :: |c.oracle.random(i, n)| == n)
              && (c.EncryptCall? ==> |c.oracle.ticketSecret| == 48
                                        && forall i, n {:trigger c.oracle.random(i, n)} :: |c.oracle.random(i, n)| == n)
  {
  }

  /** The parameters a DHE_RSA connection has used came in its handshake, signed under a key from a good chain. */
  ghost predicate UsedSigned(conn: TlsClient)
    reads conn`log, conn`used, conn`clientRandom, conn`serverRandom
  {
    exists j, k :: 0 <= j < k < |conn.log| && conn.used.Some?
      && Brings(conn.log[k], conn.used.value, conn.clientRandom + conn.serverRandom)
      && SignedParams(conn.env, conn.log[k]) && ChainFor(conn.env, conn.log[j], conn.log[k].key)
  }

  /** Every run: whatever a network peer and the application do, a connection that counts as established has
      a completed handshake behind it, and what it agreed on with a DHE_RSA suite was signed in this handshake,
      unless there were parameters left over when the ClientHello was sent; without a shutdown there are none. */
  method Run(env: Env, disable10: bool, disable12: bool, ticketCallback: bool, suites: seq<nat>, ext: seq<Byte>, ticket: bool,
             calls: seq<Call>) returns (conn: TlsClient, ghost j: nat, ghost k: nat)
    requires env.Sound() && NULL_SUITE !in suites && forall i :: 0 <= i < |calls| ==> Fair(calls[i])
    ensures fresh(conn) && conn.Inv() && conn.env == env
    ensures conn.state == Established ==>
              && Completed(env.hashing, conn.rl.tlsVersion, conn.masterSecret, conn.log)
              && conn.rl.readCipherSuite == conn.rl.writeCipherSuite == conn.rl.cipherSuite != NULL_SUITE
    ensures conn.state == Established && !conn.sessionResumed && SignedSuite(conn.rl.cipherSuite) && conn.inherited.None? ==>
              UsedSigned(conn)
    ensures conn.state == Established && !conn.sessionResumed && conn.inherited.None?
            && conn.rl.cipherSuite in {0x0016, 0x0033, 0x0039, 0x0067, 0x006b} ==>
              && conn.used.Some? && 0 <= j < k < |conn.log| && conn.log[j].ChainAccepted? && conn.log[k].ParamsAccepted?
              && var chain, e := conn.log[j].chain, conn.log[k];
                 && chain != [] && env.certKey(chain[0]) == Some(e.key) && env.chainAlert(chain).None?
                 && (forall i :: 0 <= i < |chain| ==> env.certParses(chain[i]))
                 && DhParams(e.body).Some? && DhParams(e.body).value.0 == conn.used.value
                 && var n := DhParams(e.body).value.1;
                    && env.paramsSigned(e.version, Some(e.key), conn.clientRandom + conn.serverRandom, e.body[..n],
                                        e.body[n..])
                    && (e.version == 0x0303 ==> |e.body| >= n + 2 && e.body[n] in {4, 5, 6} && e.body[n + 1] == 1)
    ensures (forall i :: 0 <= i < |calls| ==> !calls[i].ShutdownCall?) ==> conn.inherited.None?
    ensures conn.alertLevel == 0 ==> conn.verify.Holds(Transcript(conn.log))
  {
    hide TlsClient.Inv, Fair, Completed, Brings, SignedParams, ChainFor, SignedSuite, VerifyHash.Holds, Transcript, DhParams;
    j, k := 0, 0;
    conn := new TlsClient(env, disable10, disable12, ticketCallback, suites, ext, ticket);
    Continue(conn, calls);
    if conn.state == Established {
      EstablishedIsCompleted(conn);
      SignedSuites(conn.rl.cipherSuite);
      if !conn.sessionResumed && SignedSuite(conn.rl.cipherSuite) {
        ghost var hello;
        hello, j, k := ParamsAreVouched(conn);
      }
    }
    if conn.alertLevel == 0 {
      TranscriptsAgree(conn);
    }
  }
}
