/** What happened on a connection since it was (re)opened, and what a proper history of a handshake is. */
module TlsLog {
  import opened Bytes
  import opened Record

  const HS_CLIENT_HELLO: Byte := 1
  const HS_FINISHED: Byte := 20
  const VERIFY_DATA_LEN: nat := 12

  /** The hash functions and the pseudorandom function, as functions. */
  datatype Hashing = Hashing(
    md5: seq<Byte> -> seq<Byte>, sha1: seq<Byte> -> seq<Byte>, sha256: seq<Byte> -> seq<Byte>,
    prf: (nat, seq<Byte>, string, seq<Byte>, nat) -> seq<Byte>)
  {
    ghost predicate Sound()
    {
      forall v, s, l, d, n {:trigger prf(v, s, l, d, n)} :: |prf(v, s, l, d, n)| == n
    }
  }

  /** One step of the history: a record handed to the record layer, a handshake message of the server that
      was accepted, a cipher switched, a server Finished whose verify_data matched, a certificate chain that
      was found good, ephemeral parameters found signed under the server's key. */
  datatype Event =
    | Sent(ct: Byte, payload: seq<Byte>)
    | Accepted(message: seq<Byte>)
    | ReadSwitched
    | WriteSwitched
    | Matched(verifyData: seq<Byte>)
    | ChainAccepted(chain: seq<seq<Byte>>)
    | ParamsAccepted(key: seq<Byte>, version: nat, randoms: seq<Byte>, body: seq<Byte>)

  predicate IsCcs(e: Event)
  {
    e.Sent? && e.ct == CT_CHANGE_CIPHER_SPEC
  }

  predicate IsFinished(e: Event)
  {
    e.Sent? && e.ct == CT_HANDSHAKE && |e.payload| > 0 && e.payload[0] == HS_FINISHED
  }

  predicate IsHello(e: Event)
  {
    e.Sent? && e.ct == CT_HANDSHAKE && |e.payload| > 0 && e.payload[0] == HS_CLIENT_HELLO
  }

  predicate IsReadSwitch(e: Event) { e.ReadSwitched? }
  predicate IsWriteSwitch(e: Event) { e.WriteSwitched? }
  predicate IsMatch(e: Event) { e.Matched? }

  function Count(log: seq<Event>, p: Event -> bool): nat
  {
    if log == [] then 0 else Count(log[..|log| - 1], p) + if p(log[|log| - 1]) then 1 else 0
  }

  function CcsSent(log: seq<Event>): nat { Count(log, IsCcs) }
  function FinishedSent(log: seq<Event>): nat { Count(log, IsFinished) }
  function ReadSwitches(log: seq<Event>): nat { Count(log, IsReadSwitch) }
  function WriteSwitches(log: seq<Event>): nat { Count(log, IsWriteSwitch) }
  function Matches(log: seq<Event>): nat { Count(log, IsMatch) }

  /** Nothing but data the application sent. */
  ghost predicate OnlyData(log: seq<Event>)
  {
    forall i :: 0 <= i < |log| ==> log[i].Sent? && log[i].ct == CT_APPLICATION_DATA
  }

  /** The handshake of a history begins with a ClientHello; the application may have sent data before it. */
  ghost predicate Started(log: seq<Event>)
  {
    exists k :: 0 <= k < |log| && IsHello(log[k]) && OnlyData(log[..k])
  }

  /** The handshake messages of a history, sent and accepted, in order. */
  function Transcript(log: seq<Event>): seq<Byte>
  {
    if log == [] then []
    else Transcript(log[..|log| - 1]) + MessageOf(log[|log| - 1])
  }

  function MessageOf(e: Event): seq<Byte>
  {
    match e
    case Sent(ct, payload) => if ct == CT_HANDSHAKE then payload else []
    case Accepted(m) => m
    case _ => []
  }

  /** The transcript written out: it starts empty, and an event adds the handshake message that was sent or accepted
      in it, and nothing else. */
  lemma TranscriptIs(log: seq<Event>, e: Event)
    ensures Transcript([]) == []
    ensures Transcript(log + [e])
         == Transcript(log) + if e.Sent? && e.ct == 22 then e.payload else if e.Accepted? then e.message else []
  {
    assert (log + [e])[..|log|] == log;
  }

  /** The digest a Finished message is computed from. */
  function Digest(h: Hashing, version: nat, transcript: seq<Byte>): seq<Byte>
  {
    if version >= VERSION_1_2 then h.sha256(transcript) else h.md5(transcript) + h.sha1(transcript)
  }

  function VerifyData(h: Hashing, version: nat, master: seq<Byte>, purpose: string, transcript: seq<Byte>): seq<Byte>
  {
    h.prf(version, master, purpose, Digest(h, version, transcript), VERIFY_DATA_LEN)
  }

  function FinishedMessage(verifyData: seq<Byte>): seq<Byte>
  {
    [HS_FINISHED, 0, 0, VERIFY_DATA_LEN] + verifyData
  }

  /** Every Finished covers exactly the messages before it and is under the new cipher: the client's is
      sent after the write cipher was switched, the server's matches after the read cipher was. */
  ghost predicate Legal(h: Hashing, version: nat, master: seq<Byte>, log: seq<Event>)
  {
    log == [] ||
    var prior, e := log[..|log| - 1], log[|log| - 1];
    && Legal(h, version, master, prior)
    && (IsFinished(e) ==>
          WriteSwitches(prior) > 0
          && e.payload == FinishedMessage(VerifyData(h, version, master, "client finished", Transcript(prior))))
    && (e.Matched? ==>
          ReadSwitches(prior) > 0
          && e.verifyData == VerifyData(h, version, master, "server finished", Transcript(prior)))
  }

  lemma Append(log: seq<Event>, e: Event)
    ensures var l := log + [e];
            && CcsSent(l) == CcsSent(log) + (if IsCcs(e) then 1 else 0)
            && FinishedSent(l) == FinishedSent(log) + (if IsFinished(e) then 1 else 0)
            && ReadSwitches(l) == ReadSwitches(log) + (if e.ReadSwitched? then 1 else 0)
            && WriteSwitches(l) == WriteSwitches(log) + (if e.WriteSwitched? then 1 else 0)
            && Matches(l) == Matches(log) + (if e.Matched? then 1 else 0)
            && Transcript(l) == Transcript(log) + MessageOf(e)
            && l[..|l| - 1] == log
            && (Started(log) ==> Started(l))
  {
    assert (log + [e])[..|log|] == log;
    if Started(log) {
      var k :| 0 <= k < |log| && IsHello(log[k]) && OnlyData(log[..k]);
      assert IsHello((log + [e])[k]) && (log + [e])[..k] == log[..k];
    }
  }

  /** Application data leaves no trace in the handshake. */
  lemma {:induction false} DataLeavesNoTrace(log: seq<Event>)
    requires OnlyData(log)
    ensures CcsSent(log) == 0 && FinishedSent(log) == 0 && ReadSwitches(log) == 0 && Matches(log) == 0
    ensures Transcript(log) == []
  {
    if log != [] {
      DataLeavesNoTrace(log[..|log| - 1]);
    }
  }

  lemma AppendLegal(h: Hashing, version: nat, master: seq<Byte>, log: seq<Event>, e: Event)
    requires Legal(h, version, master, log)
    requires IsFinished(e) ==>
               WriteSwitches(log) > 0
               && e.payload == FinishedMessage(VerifyData(h, version, master, "client finished", Transcript(log)))
    requires e.Matched? ==>
               ReadSwitches(log) > 0
               && e.verifyData == VerifyData(h, version, master, "server finished", Transcript(log))
    ensures Legal(h, version, master, log + [e])
  {
    assert (log + [e])[..|log|] == log;
  }

  /** Without any Finished the secrets do not matter yet. */
  lemma {:induction false} LegalBeforeFinished(h: Hashing, version: nat, master: seq<Byte>, log: seq<Event>)
    requires FinishedSent(log) == 0 && Matches(log) == 0
    ensures Legal(h, version, master, log)
  {
    if log != [] {
      LegalBeforeFinished(h, version, master, log[..|log| - 1]);
    }
  }

  /** What a legal history with one match and one Finished says, position by position. */
  lemma {:induction false} LegalAt(h: Hashing, version: nat, master: seq<Byte>, log: seq<Event>, k: nat)
    requires Legal(h, version, master, log) && k < |log|
    ensures IsFinished(log[k]) ==>
              WriteSwitches(log[..k]) > 0
              && log[k].payload
                 == FinishedMessage(VerifyData(h, version, master, "client finished", Transcript(log[..k])))
    ensures log[k].Matched? ==>
              ReadSwitches(log[..k]) > 0
              && log[k].verifyData == VerifyData(h, version, master, "server finished", Transcript(log[..k]))
    decreases |log|
  {
    var prior := log[..|log| - 1];
    if k < |prior| {
      LegalAt(h, version, master, prior, k);
      assert prior[..k] == log[..k];
    }
  }

  /** A positive count has a witness. */
  lemma {:induction false} Counted(log: seq<Event>, p: Event -> bool) returns (k: nat)
    requires Count(log, p) > 0
    ensures k < |log| && p(log[k])
  {
    if p(log[|log| - 1]) {
      k := |log| - 1;
    } else {
      k := Counted(log[..|log| - 1], p);
    }
  }

  /** A count of one has only one. */
  lemma {:induction false} CountedOnce(log: seq<Event>, p: Event -> bool, i: nat, j: nat)
    requires i < j < |log| && p(log[i]) && p(log[j])
    ensures Count(log, p) >= 2
  {
    var n := |log| - 1;
    if j == n {
      CountedSome(log[..n], p, i);
    } else {
      CountedOnce(log[..n], p, i, j);
    }
  }

  lemma {:induction false} CountedSome(log: seq<Event>, p: Event -> bool, i: nat)
    requires i < |log| && p(log[i])
    ensures Count(log, p) >= 1
  {
    if i < |log| - 1 {
      CountedSome(log[..|log| - 1], p, i);
    }
  }

  /** What an established connection has behind it. */
  ghost predicate Completed(h: Hashing, version: nat, master: seq<Byte>, log: seq<Event>)
  {
    && Started(log)
    && CcsSent(log) == 1 && FinishedSent(log) == 1 && ReadSwitches(log) == 1 && Matches(log) == 1
    && Legal(h, version, master, log)
  }

  lemma OneCcs(log: seq<Event>)
    requires CcsSent(log) == 1
    ensures exists s :: 0 <= s < |log| && log[s].Sent? && log[s].ct == 20
                        && forall k :: 0 <= k < |log| && log[k].Sent? && log[k].ct == 20 ==> k == s
  {
    var s := Counted(log, IsCcs);
    forall k | 0 <= k < |log| && log[k].Sent? && log[k].ct == 20
      ensures k == s
    {
      if k < s {
        CountedOnce(log, IsCcs, k, s);
      } else if s < k {
        CountedOnce(log, IsCcs, s, k);
      }
    }
  }

  lemma DataBefore(log: seq<Event>, hello: nat, k: nat)
    requires k < hello <= |log| && OnlyData(log[..hello])
    ensures log[k].Sent?
  {
    assert log[k] == log[..hello][k];
  }

  /** What is in a Finished message. */
  lemma FinishedIs(h: Hashing, version: nat, master: seq<Byte>, purpose: string, t: seq<Byte>)
    ensures VerifyData(h, version, master, purpose, t)
         == h.prf(version, master, purpose, if version >= 0x0303 then h.sha256(t) else h.md5(t) + h.sha1(t), 12)
    ensures FinishedMessage(VerifyData(h, version, master, purpose, t))
         == [20, 0, 0, 12] + VerifyData(h, version, master, purpose, t)
  {
  }

  /** Spelled out: after the ClientHello the read cipher was switched, and after that the server's Finished
      matched what the messages before it require; the client's one Finished covers the messages before it
      and came after its write cipher was switched. */
  lemma CompletedMeans(h: Hashing, version: nat, master: seq<Byte>, log: seq<Event>)
    returns (hello: nat, i: nat, j: nat, c: nat, f: nat)
    requires Completed(h, version, master, log)
    ensures hello < |log| && log[hello].Sent? && log[hello].ct == 22 && log[hello].payload != []
    ensures log[hello].payload[0] == 1 && hello < i && hello < c
    ensures forall k :: 0 <= k < hello ==> log[k].Sent? && log[k].ct == 23
    ensures i < j < |log| && log[i].ReadSwitched? && log[j].Matched?
    ensures var t := Transcript(log[..j]);
            log[j].verifyData
              == h.prf(version, master, "server finished", if version >= 0x0303 then h.sha256(t) else h.md5(t) + h.sha1(t), 12)
    ensures c < f < |log| && log[c].WriteSwitched? && log[f].Sent? && log[f].ct == 22
    ensures var t := Transcript(log[..f]);
            log[f].payload
              == [20, 0, 0, 12] + h.prf(version, master, "client finished",
                                        if version >= 0x0303 then h.sha256(t) else h.md5(t) + h.sha1(t), 12)
    ensures forall k :: 0 <= k < |log| && log[k].Sent? && log[k].ct == 22 && log[k].payload != [] && log[k].payload[0] == 20 ==>
              k == f
    ensures forall k :: 0 <= k < |log| && log[k].Matched? ==> k == j
    ensures forall k :: 0 <= k < |log| && log[k].ReadSwitched? ==> k == i
    ensures exists s :: 0 <= s < |log| && log[s].Sent? && log[s].ct == 20
                        && forall k :: 0 <= k < |log| && log[k].Sent? && log[k].ct == 20 ==> k == s
  {
    hide Transcript, VerifyData, FinishedMessage, Legal, Count;
    hello :| 0 <= hello < |log| && IsHello(log[hello]) && OnlyData(log[..hello]);
    j := Counted(log, IsMatch);
    LegalAt(h, version, master, log, j);
    i := Counted(log[..j], IsReadSwitch);
    f := Counted(log, IsFinished);
    LegalAt(h, version, master, log, f);
    FinishedIs(h, version, master, "server finished", Transcript(log[..j]));
    FinishedIs(h, version, master, "client finished", Transcript(log[..f]));
    c := Counted(log[..f], IsWriteSwitch);
    if i < hello {
      DataBefore(log, hello, i);
    }
    if c < hello {
      DataBefore(log, hello, c);
    }
    forall k | 0 <= k < |log| && IsFinished(log[k])
      ensures k == f
    {
      if k < f {
        CountedOnce(log, IsFinished, k, f);
      } else if f < k {
        CountedOnce(log, IsFinished, f, k);
      }
    }
    forall k | 0 <= k < |log| && log[k].Matched?
      ensures k == j
    {
      if k < j {
        CountedOnce(log, IsMatch, k, j);
      } else if j < k {
        CountedOnce(log, IsMatch, j, k);
      }
    }
    forall k | 0 <= k < |log| && log[k].ReadSwitched?
      ensures k == i
    {
      if k < i {
        CountedOnce(log, IsReadSwitch, k, i);
      } else if i < k {
        CountedOnce(log, IsReadSwitch, i, k);
      }
    }
    OneCcs(log);
  }
}
