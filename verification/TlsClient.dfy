/** The TLS client connection object: its fields, the running transcript hashes, and the invariant that
    ties its state to what has happened on the connection. */
module TlsClients {
  import Cipher
  import opened Bytes
  import opened DhParameters
  import opened Options
  import opened Record
  import opened RecordLayers
  import opened TlsLog

  const ALERT_LEVEL_WARNING: Byte := 1
  const ALERT_LEVEL_FATAL: Byte := 2
  const ALERT_HANDSHAKE_FAILURE: Byte := 40
  const ALERT_BAD_CERTIFICATE: Byte := 42
  const ALERT_ILLEGAL_PARAMETER: Byte := 47
  const ALERT_DECODE_ERROR: Byte := 50
  const ALERT_DECRYPT_ERROR: Byte := 51

  /** The handshake states. */
  datatype State =
    | ClientHello | ServerHello | ServerCertificate | ServerKeyExchange | ServerCertificateRequest
    | ServerHelloDone | ClientKeyExchange | ChangeCipherSpec | ServerChangeCipherSpec | ServerFinished
    | AckFinished | Established | Failed

  /** Everything outside the handshake logic, as functions: primitives, certificates, key exchange
      arithmetic, signatures. */
  datatype Env = Env(
    prim: Primitives,
    hashing: Hashing,
    certParses: seq<Byte> -> bool,
    certKey: seq<Byte> -> Option<seq<Byte>>,
    chainAlert: seq<seq<Byte>> -> Option<Byte>,
    paramsSigned: (nat, Option<seq<Byte>>, seq<Byte>, seq<Byte>, seq<Byte>) -> bool,
    dhShare: (Option<Dh>, seq<Byte>) -> Option<(seq<Byte>, seq<Byte>)>,
    rsaEncrypt: (seq<Byte>, seq<Byte>, seq<Byte>) -> Option<seq<Byte>>,
    sign: seq<Byte> -> Option<seq<Byte>>,
    clientChain: seq<seq<Byte>>,
    hasClientKey: bool)
  {
    /** No signature over parameters is right without a key to check it with, and there is no share without
        parameters: an empty modulus has no residues. */
    ghost predicate Sound()
    {
      && prim.Sound() && hashing.Sound()
      && (forall v, r, p, t {:trigger paramsSigned(v, None, r, p, t)} :: !paramsSigned(v, None, r, p, t))
      && (forall r {:trigger dhShare(None, r)} :: dhShare(None, r).None?)
    }
  }

  /** There are such environments. */
  lemma SoundEnvironment() returns (env: Env)
    ensures env.Sound() && env.paramsSigned(0x0303, Some([]), [], [], []) && env.certParses([]) && env.chainAlert([[]]).None?
  {
    var p := Primitives(k => Cipher.Keyed(b => b, b => b, 16), k => Cipher.Keyed(b => b, b => b, 8), (a, k, m) => Zeros(MacLen(a)));
    var h := Hashing(m => m, m => m, m => m, (v, s, l, d, n) => Zeros(n));
    env := Env(p, h, c => true, c => Some(c), c => None, (v, k: Option<seq<Byte>>, r, q, t) => k.Some?,
               (d: Option<Dh>, r) => if d.None? then None else Some((r, r)), (k, m, r) => Some(m), m => Some(m), [], true);
  }

  /** Is the signature over ephemeral parameters of an acceptable kind and right? */
  function SignedProperly(env: Env, version: nat, key: Option<seq<Byte>>, randoms: seq<Byte>, params: seq<Byte>, tail: seq<Byte>):
    bool
  {
    if version == VERSION_1_2 then
      |tail| >= 2 && (tail[0] == 4 || tail[0] == 5 || tail[0] == 6) && tail[1] == 1
      && env.paramsSigned(version, key, randoms, params, tail)
    else env.paramsSigned(version, key, randoms, params, tail)
  }

  /** In TLS 1.2 the signature names its algorithm: SHA-256, SHA-384 or SHA-512 with RSA. */
  lemma SignatureIs(env: Env, version: nat, key: Option<seq<Byte>>, randoms: seq<Byte>, params: seq<Byte>, tail: seq<Byte>)
    ensures SignedProperly(env, version, key, randoms, params, tail) <==>
              && env.paramsSigned(version, key, randoms, params, tail)
              && (version == 0x0303 ==> |tail| >= 2 && tail[0] in {4, 5, 6} && tail[1] == 1)
  {
  }

  /** What the environment contributes to one call: random octets by use, and the session ticket callback's
      answers, when a ServerHello has come and when the ticket turns out not to be in use. */
  datatype Oracle = Oracle(random: (nat, nat) -> seq<Byte>, ticket: int, ticketSecret: seq<Byte>, fallback: int)
  {
    ghost predicate Sound()
    {
      |ticketSecret| == 48 && forall i, n {:trigger random(i, n)} :: |random(i, n)| == n
    }
  }

  // ---------------------------------------------------------------- the transcript hashes

  /** The running hash contexts, each by the octets it has seen; a finished context is gone. */
  class VerifyHash {
    var md5Client: Option<seq<Byte>>
    var sha1Client: Option<seq<Byte>>
    var sha256Client: Option<seq<Byte>>
    var md5Server: Option<seq<Byte>>
    var sha1Server: Option<seq<Byte>>
    var sha256Server: Option<seq<Byte>>
    var md5Cert: Option<seq<Byte>>
    var sha1Cert: Option<seq<Byte>>
    var sha256Cert: Option<seq<Byte>>

    /** MD5 and SHA-1 contexts come and go together. */
    ghost predicate Paired()
      reads this
    {
      && (md5Client.Some? <==> sha1Client.Some?)
      && (md5Server.Some? <==> sha1Server.Some?)
      && (md5Cert.Some? <==> sha1Cert.Some?)
    }

    /** Every unfinished context has seen exactly t. */
    ghost predicate Holds(t: seq<Byte>)
      reads this
    {
      && Seen(md5Client, t) && Seen(sha1Client, t) && Seen(sha256Client, t)
      && Seen(md5Server, t) && Seen(sha1Server, t) && Seen(sha256Server, t)
      && Seen(md5Cert, t) && Seen(sha1Cert, t) && Seen(sha256Cert, t)
    }

    /** The context behind the client's Finished has been used up. */
    ghost predicate ClientDone(version: nat)
      reads this`md5Client, this`sha256Client
    {
      if version >= VERSION_1_2 then sha256Client.None? else md5Client.None?
    }

    /** The contexts behind either Finished are still there as long as that Finished is to come. */
    ghost predicate Live(log: seq<Event>)
      reads this`md5Client, this`sha256Client, this`md5Server, this`sha256Server
    {
      && (FinishedSent(log) == 0 ==> md5Client.Some? && sha256Client.Some?)
      && (Matches(log) == 0 ==> md5Server.Some? && sha256Server.Some?)
    }

    constructor ()
      ensures Paired() && Holds([]) && Live([])
    {
      md5Client, sha1Client, sha256Client := Some([]), Some([]), Some([]);
      md5Server, sha1Server, sha256Server := Some([]), Some([]), Some([]);
      md5Cert, sha1Cert, sha256Cert := Some([]), Some([]), Some([]);
    }

    /** tls_verify_hash_init. */
    method Init()
      modifies this
      ensures Paired() && Holds([]) && Live([])
      ensures md5Client == sha1Client == sha256Client == Some([])
      ensures md5Server == sha1Server == sha256Server == Some([])
      ensures md5Cert == sha1Cert == sha256Cert == Some([])
    {
      md5Client, sha1Client, sha256Client := Some([]), Some([]), Some([]);
      md5Server, sha1Server, sha256Server := Some([]), Some([]), Some([]);
      md5Cert, sha1Cert, sha256Cert := Some([]), Some([]), Some([]);
    }

    /** tls_verify_hash_add. */
    method Add(buf: seq<Byte>, ghost t: seq<Byte>)
      requires Paired()
      modifies this
      ensures Paired()
      ensures old(Holds(t)) ==> Holds(t + buf)
      ensures md5Client == Added(old(md5Client), buf) && sha1Client == Added(old(sha1Client), buf)
      ensures md5Server == Added(old(md5Server), buf) && sha1Server == Added(old(sha1Server), buf)
      ensures md5Cert == Added(old(md5Cert), buf) && sha1Cert == Added(old(sha1Cert), buf)
      ensures sha256Client == Added(old(sha256Client), buf) && sha256Server == Added(old(sha256Server), buf)
      ensures sha256Cert == Added(old(sha256Cert), buf)
      ensures forall log: seq<Event> {:trigger Live(log)} :: Live(log) == old(Live(log))
      ensures forall v: nat {:trigger ClientDone(v)} :: ClientDone(v) == old(ClientDone(v))
    {
      hide Seen;
      if Holds(t) {
        SeenAdded(md5Client, sha1Client, sha256Client, t, buf);
        SeenAdded(md5Server, sha1Server, sha256Server, t, buf);
        SeenAdded(md5Cert, sha1Cert, sha256Cert, t, buf);
      }
      AddPairs(buf);
      if sha256Client.Some? {
        sha256Client := Some(sha256Client.value + buf);
      }
      if sha256Server.Some? {
        sha256Server := Some(sha256Server.value + buf);
      }
      if sha256Cert.Some? {
        sha256Cert := Some(sha256Cert.value + buf);
      }
    }

    /** The MD5 and SHA-1 contexts, which come in pairs. */
    method AddPairs(buf: seq<Byte>)
      requires Paired()
      modifies this`md5Client, this`sha1Client, this`md5Server, this`sha1Server, this`md5Cert, this`sha1Cert
      ensures Paired()
      ensures md5Client == Added(old(md5Client), buf) && sha1Client == Added(old(sha1Client), buf)
      ensures md5Server == Added(old(md5Server), buf) && sha1Server == Added(old(sha1Server), buf)
      ensures md5Cert == Added(old(md5Cert), buf) && sha1Cert == Added(old(sha1Cert), buf)
    {
      if md5Client.Some? && sha1Client.Some? {
        md5Client := Some(md5Client.value + buf);
        sha1Client := Some(sha1Client.value + buf);
      }
      if md5Server.Some? && sha1Server.Some? {
        md5Server := Some(md5Server.value + buf);
        sha1Server := Some(sha1Server.value + buf);
      }
      if md5Cert.Some? && sha1Cert.Some? {
        md5Cert := Some(md5Cert.value + buf);
        sha1Cert := Some(sha1Cert.value + buf);
      }
    }

    /** Finish the contexts behind the client's Finished: the digest, or nothing if they are gone. */
    method FinishClient(h: Hashing, version: nat, ghost t: seq<Byte>) returns (digest: Option<seq<Byte>>)
      requires Paired()
      modifies this`md5Client, this`sha1Client, this`sha256Client
      ensures Paired() && ClientDone(version)
      ensures digest.None? <==> old(ClientDone(version))
      ensures old(Holds(t)) ==> Holds(t) && (digest.Some? ==> digest.value == Digest(h, version, t))
    {
      digest := None;
      if version >= VERSION_1_2 {
        if sha256Client.Some? {
          digest := Some(h.sha256(sha256Client.value));
        }
        sha256Client := None;
      } else {
        if md5Client.Some? && sha1Client.Some? {
          digest := Some(h.md5(md5Client.value) + h.sha1(sha1Client.value));
        }
        md5Client := None;
        sha1Client := None;
      }
    }

    /** The same for the server's Finished. */
    method FinishServer(h: Hashing, version: nat, ghost t: seq<Byte>) returns (digest: Option<seq<Byte>>)
      requires Paired()
      modifies this`md5Server, this`sha1Server, this`sha256Server
      ensures Paired()
      ensures old(Holds(t)) ==> Holds(t) && (digest.Some? ==> digest.value == Digest(h, version, t))
      ensures digest.None? <==> old(if version >= VERSION_1_2 then sha256Server.None? else md5Server.None?)
      ensures if version >= VERSION_1_2 then sha256Server.None? else md5Server.None? && sha1Server.None?
      ensures if version >= VERSION_1_2 then md5Server == old(md5Server) && sha1Server == old(sha1Server)
              else sha256Server == old(sha256Server)
    {
      digest := None;
      if version >= VERSION_1_2 {
        if sha256Server.Some? {
          digest := Some(h.sha256(sha256Server.value));
        }
        sha256Server := None;
      } else {
        if md5Server.Some? && sha1Server.Some? {
          digest := Some(h.md5(md5Server.value) + h.sha1(sha1Server.value));
        }
        md5Server := None;
        sha1Server := None;
      }
    }

    /** And for the client's CertificateVerify. */
    method FinishCert(h: Hashing, version: nat, ghost t: seq<Byte>) returns (digest: Option<seq<Byte>>)
      requires Paired() && version <= VERSION_1_2
      modifies this`md5Cert, this`sha1Cert, this`sha256Cert
      ensures Paired()
      ensures old(Holds(t)) ==> Holds(t) && (digest.Some? ==> digest.value == Digest(h, version, t))
      ensures digest.None? <==> old(if version >= VERSION_1_2 then sha256Cert.None? else md5Cert.None?)
      ensures if version >= VERSION_1_2 then sha256Cert.None? else md5Cert.None? && sha1Cert.None?
    {
      digest := None;
      if version == VERSION_1_2 {
        if sha256Cert.Some? {
          digest := Some(h.sha256(sha256Cert.value));
        }
        sha256Cert := None;
      } else {
        if md5Cert.Some? && sha1Cert.Some? {
          digest := Some(h.md5(md5Cert.value) + h.sha1(sha1Cert.value));
        }
        md5Cert := None;
        sha1Cert := None;
      }
    }
  }

  /** A context that is still there with more octets, one that is gone as it is. */
  function Added(context: Option<seq<Byte>>, buf: seq<Byte>): Option<seq<Byte>>
  {
    match context
    case None => None
    case Some(s) => Some(s + buf)
  }

  lemma SeenAdded(a: Option<seq<Byte>>, b: Option<seq<Byte>>, c: Option<seq<Byte>>, t: seq<Byte>, buf: seq<Byte>)
    requires Seen(a, t) && Seen(b, t) && Seen(c, t)
    ensures Seen(Added(a, buf), t + buf) && Seen(Added(b, buf), t + buf) && Seen(Added(c, buf), t + buf)
  {
  }

  ghost predicate Seen(context: Option<seq<Byte>>, t: seq<Byte>)
  {
    context.Some? ==> context.value == t
  }

  // ---------------------------------------------------------------- the connection

  /** How far a connection in a given state has come: what was sent, switched and matched, and which
      ciphers are active. */
  ghost predicate Progress(st: State, log: seq<Event>, resumed: bool, ticket: bool, writeNull: bool, readNull: bool,
                           clientDone: bool)
  {
    var sent0 := CcsSent(log) == 0 && FinishedSent(log) == 0;
    var sent1 := CcsSent(log) == 1 && FinishedSent(log) == 1 && clientDone;
    var switches, matches := ReadSwitches(log), Matches(log);
    && (st != State.ClientHello && st != Failed ==> Started(log))
    && match st
       case ClientHello => OnlyData(log) && !resumed && writeNull && readNull
       case ServerHello => sent0 && switches == 0 && matches == 0 && !resumed && writeNull && readNull
       case ServerChangeCipherSpec =>
         switches == 0 && matches == 0 && readNull
         && ((sent0 && writeNull && (resumed || ticket)) || (sent1 && !ticket))
       case ServerFinished =>
         switches == 1 && matches == 0 && ((sent0 && writeNull && (resumed || ticket)) || (sent1 && !ticket))
       case ChangeCipherSpec => switches == 1 && matches == 1 && (resumed || ticket) && ((sent0 && writeNull) || sent1)
       case AckFinished => switches == 1 && matches == 1 && sent1
       case Established => switches == 1 && matches == 1 && sent1
       case Failed => true
       case _ => sent0 && switches == 0 && matches == 0 && !ticket && writeNull && readNull
  }

  /** An RSA suite has a server key to encrypt to. */
  ghost predicate KeyForSuite(suite: nat, key: Option<seq<Byte>>)
  {
    SuiteData(suite).Some? && SuiteData(suite).value.kx == RsaKx ==> key.Some?
  }

  /** Past the client's own key exchange the suite has had its key. */
  ghost predicate Exchanged(st: State, log: seq<Event>, resumed: bool, suite: nat, key: Option<seq<Byte>>)
  {
    PastExchange(st) && FinishedSent(log) == 1 && !resumed ==> KeyForSuite(suite, key)
  }

  predicate PastExchange(st: State)
  {
    st == ServerChangeCipherSpec || st == ServerFinished || st == State.ChangeCipherSpec || st == AckFinished
    || st == Established
  }

  // ---------------------------------------------------------------- the server's certificate and parameters

  /** Every certificate of the chain parsed and the chain was accepted. */
  ghost predicate GoodChain(env: Env, chain: seq<seq<Byte>>)
  {
    env.chainAlert(chain).None? && forall i :: 0 <= i < |chain| ==> env.certParses(chain[i])
  }

  /** A good chain whose first certificate has that key. */
  ghost predicate ChainFor(env: Env, e: Event, key: seq<Byte>)
  {
    e.ChainAccepted? && |e.chain| > 0 && GoodChain(env, e.chain) && env.certKey(e.chain[0]) == Some(key)
  }

  /** The parameters in an event are well formed, and their signature is right under its key for its randoms. */
  ghost predicate SignedParams(env: Env, e: Event)
  {
    && e.ParamsAccepted? && DhParams(e.body).Some?
    && var n := DhParams(e.body).value.1;
       SignedProperly(env, e.version, Some(e.key), e.randoms, e.body[..n], e.body[n..])
  }

  /** The server's key comes from a good chain; parameters that were accepted are signed, and their key came
      from such a chain, too. */
  ghost predicate Vouched(env: Env, log: seq<Event>, key: Option<seq<Byte>>)
  {
    && (key.Some? ==> exists j :: 0 <= j < |log| && ChainFor(env, log[j], key.value))
    && forall k :: 0 <= k < |log| && log[k].ParamsAccepted? ==>
         SignedParams(env, log[k]) && exists j :: 0 <= j < k && ChainFor(env, log[j], log[k].key)
  }

  lemma VouchedNext(env: Env, log: seq<Event>, key: Option<seq<Byte>>, e: Event)
    requires Vouched(env, log, key) && (e.ParamsAccepted? ==> key == Some(e.key) && SignedParams(env, e))
    ensures Vouched(env, log + [e], key)
  {
    hide ChainFor, SignedParams;
    var l := log + [e];
    forall k | 0 <= k < |l| && l[k].ParamsAccepted?
      ensures SignedParams(env, l[k]) && exists j :: 0 <= j < k && ChainFor(env, l[j], l[k].key)
    {
      var j :| 0 <= j < |log| && j < k && ChainFor(env, log[j], l[k].key);
      assert l[j] == log[j];
    }
    if key.Some? {
      var j :| 0 <= j < |log| && ChainFor(env, log[j], key.value);
      assert l[j] == log[j];
    }
  }

  /** Any further events that are not about parameters. */
  lemma {:induction false} VouchedFurther(env: Env, log: seq<Event>, key: Option<seq<Byte>>, more: seq<Event>)
    requires Vouched(env, log, key) && forall i :: 0 <= i < |more| ==> !more[i].ParamsAccepted?
    ensures Vouched(env, log + more, key)
  {
    hide Vouched;
    if more == [] {
      assert log + more == log;
    } else {
      var n := |more| - 1;
      VouchedFurther(env, log, key, more[..n]);
      VouchedNext(env, log + more[..n], key, more[n]);
      assert log + more[..n] + [more[n]] == log + more;
    }
  }

  lemma VouchedChain(env: Env, log: seq<Event>, key0: Option<seq<Byte>>, key: Option<seq<Byte>>, chain: seq<seq<Byte>>)
    requires Vouched(env, log, key0) && GoodChain(env, chain)
    requires if |chain| > 0 then key.Some? && key == env.certKey(chain[0]) else key == key0
    ensures Vouched(env, log + [ChainAccepted(chain)], key)
  {
    hide GoodChain;
    var e := ChainAccepted(chain);
    VouchedNext(env, log, key0, e);
    if |chain| > 0 {
      assert ChainFor(env, (log + [e])[|log|], key.value);
    }
  }

  /** The suites whose ephemeral parameters are signed. */
  predicate SignedSuite(suite: nat)
  {
    SuiteData(suite).Some? && SuiteData(suite).value.kx == DheRsaKx
  }

  lemma SignedSuites(suite: nat)
    ensures SignedSuite(suite) <==> suite in {0x0016, 0x0033, 0x0039, 0x0067, 0x006b}
  {
    if SuiteData(suite).Some? {
      SuiteColumns(suite);
    } else {
      SuiteRows(suite);
    }
  }

  /** These parameters were accepted in this history, signed together with these randoms. */
  ghost predicate Brought(log: seq<Event>, dh: Dh, randoms: seq<Byte>)
  {
    exists k :: 0 <= k < |log| && Brings(log[k], dh, randoms)
  }

  predicate Brings(e: Event, dh: Dh, randoms: seq<Byte>)
  {
    e.ParamsAccepted? && e.randoms == randoms && DhParams(e.body).Some? && DhParams(e.body).value.0 == dh
  }

  lemma BroughtBefore(log: seq<Event>, e: Event, dh: Dh, randoms: seq<Byte>)
    requires Brought(log, dh, randoms)
    ensures Brought(log + [e], dh, randoms)
  {
    hide Brings;
    var k :| 0 <= k < |log| && Brings(log[k], dh, randoms);
    assert Brings((log + [e])[k], dh, randoms);
  }

  lemma ParamsLater(suite: nat, log: seq<Event>, e: Event, dh: Option<Dh>, inherited: Option<Dh>, randoms: seq<Byte>)
    ensures ParamsFor(suite, log, dh, inherited, randoms) ==> ParamsFor(suite, log + [e], dh, inherited, randoms)
  {
    hide Brought, SignedSuite;
    if dh.Some? && Brought(log, dh.value, randoms) {
      BroughtBefore(log, e, dh.value, randoms);
    }
  }

  /** With a signed suite the parameters are there, and either they are older than this history or they were
      brought in it. */
  ghost predicate ParamsFor(suite: nat, log: seq<Event>, dh: Option<Dh>, inherited: Option<Dh>, randoms: seq<Byte>)
  {
    SignedSuite(suite) ==> dh.Some? && (dh == inherited || Brought(log, dh.value, randoms))
  }

  /** Up to the client's key exchange, where the parameters come from that it is going to use. */
  ghost predicate DhKnown(st: State, log: seq<Event>, suite: nat, dh: Option<Dh>, inherited: Option<Dh>, randoms: seq<Byte>)
  {
    match st
    case ServerHello => dh == inherited
    case ServerChangeCipherSpec => FinishedSent(log) == 0 ==> dh == inherited
    case ServerCertificate => dh.Some? ==> ParamsFor(suite, log, dh, inherited, randoms)
    case ServerKeyExchange => dh.Some? ==> ParamsFor(suite, log, dh, inherited, randoms)
    case ServerCertificateRequest => dh.Some? ==> ParamsFor(suite, log, dh, inherited, randoms)
    case ServerHelloDone => dh.Some? ==> ParamsFor(suite, log, dh, inherited, randoms)
    case ClientKeyExchange => dh.Some? ==> ParamsFor(suite, log, dh, inherited, randoms)
    case _ => true
  }

  class TlsClient {
    const env: Env
    const rl: RecordLayer
    const verify: VerifyHash
    const disable10: bool
    const disable12: bool
    const ticketCallback: bool
    const cipherSuites: seq<nat>
    const clientHelloExt: seq<Byte>
    const sessionTicketIncluded: bool
    var state: State
    var sessionId: seq<Byte>
    var clientRandom: seq<Byte>
    var serverRandom: seq<Byte>
    var masterSecret: seq<Byte>
    var alertLevel: Byte
    var alertDescription: Byte
    var certificateRequested: bool
    var sessionResumed: bool
    var useSessionTicket: bool
    var serverRsaKey: Option<seq<Byte>>
    var prevCipherSuite: nat
    var dh: Option<Dh>
    var partialInput: seq<Byte>
    ghost var log: seq<Event>
    // the parameters that were there when the ClientHello was sent, and those of the client's key exchange
    ghost var inherited: Option<Dh>
    ghost var used: Option<Dh>

    /** The record layer can send and receive, each direction with its own cipher context. */
    ghost predicate LayerReady()
      reads rl, rl.writeCbc, rl.readCbc
    {
      && rl.prim == env.prim
      && rl.WriteReady() && rl.ReadReady() && (rl.writeCbc == null || rl.writeCbc != rl.readCbc)
    }

    /** The parts fit together. */
    ghost predicate Wf()
      reads this`sessionId, this`clientRandom, this`serverRandom, this`masterSecret
      reads rl, verify, rl.writeCbc, rl.readCbc
    {
      && env.Sound() && LayerReady()
      && |sessionId| <= 32 && |clientRandom| == 32 && |serverRandom| == 32 && |masterSecret| == 48
      && verify.Paired()
    }

    ghost predicate InProgress()
      reads this`state, this`log, this`sessionResumed, this`useSessionTicket, verify
      reads rl`writeCipherSuite, rl`readCipherSuite, rl`tlsVersion
    {
      Progress(state, log, sessionResumed, useSessionTicket, rl.writeCipherSuite == NULL_SUITE,
               rl.readCipherSuite == NULL_SUITE, verify.ClientDone(rl.tlsVersion))
    }

    /** A suite other than the null suite is configured from ServerHello on, and a switched direction uses it. */
    ghost predicate Ciphers()
      reads this`state, this`log, this`sessionResumed, this`serverRsaKey
      reads rl`cipherSuite, rl`cipherAlg, rl`writeCipherSuite, rl`readCipherSuite
    {
      && NULL_SUITE !in cipherSuites
      && Exchanged(state, log, sessionResumed, rl.cipherSuite, serverRsaKey)
      && (state != State.ClientHello && state != State.ServerHello && state != Failed ==>
            && rl.cipherSuite != NULL_SUITE && rl.cipherAlg != Cipher.Null
            && (CcsSent(log) == 1 ==> rl.writeCipherSuite == rl.cipherSuite)
            && (ReadSwitches(log) == 1 ==> rl.readCipherSuite == rl.cipherSuite))
    }

    /** Where the parameters come from that the key exchange is going to use, and has used, by a history. */
    ghost predicate Parameters(l: seq<Event>)
      reads this`state, this`sessionResumed, this`dh, this`inherited, this`used
      reads this`clientRandom, this`serverRandom, rl`cipherSuite
    {
      && DhKnown(state, l, rl.cipherSuite, dh, inherited, clientRandom + serverRandom)
      && (PastExchange(state) && FinishedSent(l) == 1 && !sessionResumed ==>
            ParamsFor(rl.cipherSuite, l, used, inherited, clientRandom + serverRandom))
    }

    /** The history is a proper one, the transcript hashes that are still needed are there and every
        unfinished one has seen exactly its messages, and the server's key comes from a chain in it. */
    ghost predicate History()
      reads this`masterSecret, this`log, this`serverRsaKey, rl`tlsVersion, verify
    {
      && Legal(env.hashing, rl.tlsVersion, masterSecret, log) && verify.Holds(Transcript(log)) && verify.Live(log)
      && Vouched(env, log, serverRsaKey)
    }

    /** What holds between calls. */
    ghost predicate Inv()
      reads this`state, this`alertLevel, this`log, this`sessionId, this`clientRandom, this`serverRandom, this`masterSecret
      reads this`sessionResumed, this`useSessionTicket, this`serverRsaKey, this`dh, this`inherited, this`used
      reads rl, verify, rl.writeCbc, rl.readCbc
    {
      Wf() && InProgress() && Ciphers() && Parameters(log) && (alertLevel == 0 || state == Established ==> History())
    }

    /** tlsv1_client_init. */
    constructor (env: Env, disable10: bool, disable12: bool, ticketCallback: bool, cipherSuites: seq<nat>,
                 clientHelloExt: seq<Byte>, sessionTicketIncluded: bool)
      requires env.Sound() && NULL_SUITE !in cipherSuites
      ensures Inv() && state == State.ClientHello && alertLevel == 0 && log == [] && this.env == env
      ensures dh == inherited == None
      ensures fresh(rl) && fresh(verify) && rl.writeCbc == null && rl.readCbc == null
    {
      hide InProgress, Ciphers, Parameters, History, Wf, Primitives.Sound, VerifyHash.Holds, VerifyHash.Live,
           VerifyHash.Paired;
      this.env := env;
      this.rl := new RecordLayer(env.prim);
      this.verify := new VerifyHash();
      this.disable10, this.disable12 := disable10, disable12;
      this.ticketCallback := ticketCallback;
      this.cipherSuites := cipherSuites;
      this.clientHelloExt := clientHelloExt;
      this.sessionTicketIncluded := sessionTicketIncluded;
      state := State.ClientHello;
      sessionId := [];
      clientRandom, serverRandom, masterSecret := Zeros(32), Zeros(32), Zeros(48);
      alertLevel, alertDescription := 0, 0;
      certificateRequested, sessionResumed, useSessionTicket := false, false, false;
      serverRsaKey, dh := None, None;
      prevCipherSuite := 0;
      partialInput := [];
      log := [];
      inherited, used := None, None;
      new;
      rl.tlsVersion := HighestVersion();
      StartsOver(this);
    }

    /** tls_client_highest_ver in a build with TLS 1.0 and 1.2: without 1.2 it names 1.1. */
    function HighestVersion(): nat
    {
      if disable12 then VERSION_1_1 else VERSION_1_2
    }

    /** A session ticket was offered and there is a callback to ask about it. */
    predicate AsksTicket()
    {
      sessionTicketIncluded && ticketCallback
    }

    /** tls_alert. */
    method Alert(level: Byte, description: Byte)
      modifies this`alertLevel, this`alertDescription
      ensures alertLevel == level && alertDescription == description
    {
      alertLevel := level;
      alertDescription := description;
    }

    /** One record through the record layer; it is in the history when it was sent. */
    method SendRecord(ct: Byte, payload: seq<Byte>, room: nat, o: Oracle, use: nat) returns (ok: bool, record: seq<Byte>)
      requires Wf() && o.Sound()
      modifies this`log, rl`writeSeqNum, rl.writeCbc
      ensures Wf() && log == if ok then old(log) + [Sent(ct, payload)] else old(log)
      ensures ok <==> old(HEADER_LEN + |Body(rl.Settings(), rl.Writing(), ct, payload, o.random(use, rl.ivSize))|) <= room
      ensures HEADER_LEN + |payload| + 64 <= room ==> ok
      ensures old(rl.writeCipherSuite) == NULL_SUITE ==>
                (ok <==> HEADER_LEN + |payload| <= room) && (ok ==> |record| == HEADER_LEN + |payload|)
      ensures ok ==> |record| <= room && |record| <= HEADER_LEN + |payload| + 64
      ensures ok ==> record == old(RecordOf(rl.Settings(), rl.Writing(), ct, payload, o.random(use, rl.ivSize)))
      ensures ok ==> rl.Writing() == old(Stepped(rl.Settings(), rl.Writing(),
                                                 Body(rl.Settings(), rl.Writing(), ct, payload, o.random(use, rl.ivSize))))
      ensures ok && old(WritesFresh(rl)) && ct == CT_HANDSHAKE && |payload| <= 16 ==> EndsFresh(rl, record)
    {
      hide Primitives.Sound, RecordOf, Stepped, Body, EndsFresh, ValidDirection, RecordLayer.FreshWriting;
      WritingValid(rl);
      ghost var d := rl.Writing();
      RecordSize(rl, ct, payload, o.random(use, rl.ivSize));
      var buf := new Byte[room];
      var n;
      ok, n := rl.Send(ct, buf, room, payload, o.random(use, rl.ivSize));
      record := [];
      if ok {
        record := buf[..n];
        log := log + [Sent(ct, payload)];
        if old(WritesFresh(rl)) && ct == CT_HANDSHAKE && |payload| <= 16 {
          FirstEnds(rl, d, record, payload, o.random(use, rl.ivSize));
        }
      }
    }

    method SwitchWrite() returns (ok: bool)
      requires Wf() && (rl.cipherSuite != NULL_SUITE ==> rl.cipherAlg != Cipher.Null)
      modifies this`log, rl`writeCipherSuite, rl`writeSeqNum, rl`writeCbc
      ensures Wf() && ok && log == old(log) + [WriteSwitched] && rl.writeCipherSuite == rl.cipherSuite
      ensures rl.writeCbc == null || fresh(rl.writeCbc)
      ensures WritesFresh(rl)
    {
      hide Primitives.Sound;
      ok := rl.ChangeWriteCipher();
      log := log + [WriteSwitched];
    }

    method SwitchRead() returns (ok: bool)
      requires Wf() && (rl.cipherSuite != NULL_SUITE ==> rl.cipherAlg != Cipher.Null)
      modifies this`log, rl`readCipherSuite, rl`readSeqNum, rl`readCbc
      ensures Wf() && ok && log == old(log) + [ReadSwitched] && rl.readCipherSuite == rl.cipherSuite
      ensures rl.readCbc == null || fresh(rl.readCbc)
      ensures ReadsFresh(rl)
    {
      hide Primitives.Sound;
      ok := rl.ChangeReadCipher();
      log := log + [ReadSwitched];
    }

    /** One record from the input through the record layer. */
    method ReceiveRecord(inp: array<Byte>, pos: nat, inLen: nat, out: array<Byte>) returns (used: int, outLen: nat, alert: Byte)
      requires LayerReady() && inp != out && pos + inLen <= inp.Length && inLen <= out.Length
      requires ValidDirection(rl.Settings(), rl.Reading())
      modifies rl`readSeqNum, rl.readCbc, out
      ensures LayerReady() && rl.Settings() == old(rl.Settings()) && ValidDirection(rl.Settings(), rl.Reading())
      ensures match old(Receipt(rl.Settings(), rl.Reading(), inp[pos..pos + inLen], inLen))
              case NeedMore => used == 0 && rl.Reading() == old(rl.Reading())
              case Bad(a) => used == -1 && alert == a
              case Good(n, ct, payload, next) =>
                used == n && outLen == |payload| <= out.Length && out[..outLen] == payload && rl.Reading() == next
                && ct == inp[pos] && HEADER_LEN <= n <= inLen
    {
      hide Primitives.Sound, Receipt, ValidDirection;
      GoodType(rl.Settings(), rl.Reading(), inp[pos..pos + inLen], inLen);
      used, outLen, alert := rl.Receive(inp, pos, inLen, out, inLen);
      ReadingValid(rl);
    }
  }

  /** A connection without a history, both of its directions in the clear. */
  lemma StartsOver(conn: TlsClient)
    requires conn.env.Sound() && conn.LayerReady() && NULL_SUITE !in conn.cipherSuites && |conn.sessionId| <= 32
    requires |conn.clientRandom| == 32 && |conn.serverRandom| == 32 && |conn.masterSecret| == 48
    requires conn.verify.Paired() && conn.verify.Holds([]) && conn.verify.Live([])
    requires conn.state == State.ClientHello && conn.log == [] && !conn.sessionResumed && conn.serverRsaKey.None?
    requires conn.rl.writeCipherSuite == conn.rl.readCipherSuite == NULL_SUITE
    ensures conn.Inv()
  {
    hide Env.Sound, TlsClient.LayerReady, VerifyHash.Holds, VerifyHash.Live, VerifyHash.Paired;
    assert Transcript(conn.log) == [];
  }

  lemma RecordSize(rl: RecordLayer, ct: Byte, payload: seq<Byte>, rnd: seq<Byte>)
    requires rl.WriteReady() && ValidDirection(rl.Settings(), rl.Writing()) && |rnd| == rl.ivSize
    ensures |Body(rl.Settings(), rl.Writing(), ct, payload, rnd)| <= |payload| + 64
    ensures rl.writeCipherSuite == NULL_SUITE ==> |Body(rl.Settings(), rl.Writing(), ct, payload, rnd)| == |payload|
  {
    WritingValid(rl);
    BodySize(rl.Settings(), rl.Writing(), ct, payload, rnd);
  }

  /** A received record has the type its first octet says. */
  lemma GoodType(p: Params, d: Direction, input: seq<Byte>, room: nat)
    requires ValidDirection(p, d)
    ensures var r := Receipt(p, d, input, room); r.Good? ==> |input| > 0 && r.ct == input[0]
  {
  }
}
