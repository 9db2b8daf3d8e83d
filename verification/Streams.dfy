/** Sequences of records: what a mirrored reader gets out of a stream of sent records, and what a tunnel
    decodes from a byte stream however it is cut into calls. */
module Streams {
  import opened Bytes
  import opened Cipher
  import opened Options
  import opened Record

  const ALERT_DECODE_ERROR: Byte := 50
  const ALERT_LEVEL_WARNING: Byte := 1
  const ALERT_LEVEL_FATAL: Byte := 2

  // ---------------------------------------------------------------- streams of records

  datatype Message = Message(ct: Byte, payload: seq<Byte>, rnd: seq<Byte>)

  /** Anything the protocol lets a record carry, and more. */
  ghost predicate Sendable(p: Params, m: Message)
  {
    KnownType(m.ct) && |m.payload| <= 17403 && (ExplicitIv(p) ==> |m.rnd| == p.ivSize)
  }

  lemma SendableIs(p: Params, m: Message)
    ensures Sendable(p, m) <==>
              m.ct in {20, 21, 22, 23} && |m.payload| <= 17403 && (p.ivSize > 0 && p.version >= 0x0302 ==> |m.rnd| == p.ivSize)
  {
  }

  ghost function AfterSending(p: Params, w: Direction, m: Message): (r: Direction)
    requires ValidDirection(p, w)
    ensures ValidDirection(p, r)
  {
    Stepped(p, w, Body(p, w, m.ct, m.payload, m.rnd))
  }

  /** The octets of all records, one after the other. */
  ghost function SentStream(p: Params, w: Direction, ms: seq<Message>): seq<Byte>
    requires ValidDirection(p, w)
    decreases |ms|
  {
    if ms == [] then []
    else RecordOf(p, w, ms[0].ct, ms[0].payload, ms[0].rnd) + SentStream(p, AfterSending(p, w, ms[0]), ms[1..])
  }

  ghost function SentState(p: Params, w: Direction, ms: seq<Message>): Direction
    requires ValidDirection(p, w)
    decreases |ms|
  {
    if ms == [] then w else SentState(p, AfterSending(p, w, ms[0]), ms[1..])
  }

  /** Everything that can be received from the input. */
  datatype Drain = Drain(items: seq<(Byte, seq<Byte>)>, rest: seq<Byte>, next: Direction, alert: Option<Byte>)

  ghost function Drained(p: Params, d: Direction, input: seq<Byte>): Drain
    requires ValidDirection(p, d)
    decreases |input|
  {
    match Receipt(p, d, input, |input|)
    case NeedMore => Drain([], input, d, None)
    case Bad(a) => Drain([], input, d, Some(a))
    case Good(used, ct, payload, next) =>
      var t := Drained(p, next, input[used..]);
      t.(items := [(ct, payload)] + t.items)
  }

  ghost function Items(ms: seq<Message>): seq<(Byte, seq<Byte>)>
  {
    seq(|ms|, i requires 0 <= i < |ms| => (ms[i].ct, ms[i].payload))
  }

  /** All payloads come back, in order, and the reader's state follows the writer's; what comes after the
      records is read from there on. */
  lemma {:induction false} StreamRoundTrip(p: Params, w: Direction, r: Direction, ms: seq<Message>, rest: seq<Byte>)
    requires ValidParams(p) && Mirrored(p, w, r) && forall i :: 0 <= i < |ms| ==> Sendable(p, ms[i])
    ensures var r2 := if ms == [] then r else SentState(p, w, ms);
            && ValidDirection(p, r2) && Mirrored(p, SentState(p, w, ms), r2)
            && var t := Drained(p, r2, rest);
               Drained(p, r, SentStream(p, w, ms) + rest) == t.(items := Items(ms) + t.items)
    decreases |ms|
  {
    hide Receipt, Mirrored, Body, RecordOf, ValidDirection, Stepped;
    MirroredValid(p, w, r);
    if ms == [] {
      assert SentStream(p, w, ms) + rest == rest;
      assert Items(ms) + Drained(p, r, rest).items == Drained(p, r, rest).items;
    } else {
      var m := ms[0];
      var body := Body(p, w, m.ct, m.payload, m.rnd);
      var rec := RecordOf(p, w, m.ct, m.payload, m.rnd);
      var w1 := AfterSending(p, w, m);
      var tail := SentStream(p, w1, ms[1..]) + rest;
      var input := SentStream(p, w, ms) + rest;
      assert input == rec + tail;
      SendableSize(p, w, m);
      RecordRoundTrip(p, w, r, m.ct, m.payload, m.rnd, tail, |input|);
      assert input[|rec|..] == tail;
      MirroredSelf(p, w1);
      StreamRoundTrip(p, w1, w1, ms[1..], rest);
      assert Items(ms) == [(m.ct, m.payload)] + Items(ms[1..]);
      var t := Drained(p, SentState(p, w1, ms[1..]), rest);
      assert [(m.ct, m.payload)] + (Items(ms[1..]) + t.items) == Items(ms) + t.items;
    }
  }

  lemma MirroredValid(p: Params, w: Direction, r: Direction)
    requires Mirrored(p, w, r)
    ensures ValidDirection(p, w) && ValidDirection(p, r)
  {
  }

  lemma MirroredSelf(p: Params, w: Direction)
    requires ValidDirection(p, w)
    ensures Mirrored(p, w, w)
  {
  }

  lemma SendableSize(p: Params, w: Direction, m: Message)
    requires ValidParams(p) && ValidDirection(p, w) && Sendable(p, m)
    ensures |Body(p, w, m.ct, m.payload, m.rnd)| < 65536
    ensures |RecordOf(p, w, m.ct, m.payload, m.rnd)| == HEADER_LEN + |Body(p, w, m.ct, m.payload, m.rnd)|
  {
    BodySize(p, w, m.ct, m.payload, m.rnd);
  }

  // ---------------------------------------------------------------- decoding application data

  /** The outcome of one call of tlsv1_client_decrypt: the plaintext, the octets kept for the next call, the
      reader's state, and the alert if the call failed. */
  datatype Decode = Decode(data: seq<Byte>, rest: seq<Byte>, next: Direction, failed: Option<Byte>)

  function Failure(d: Direction, alert: Byte): Decode
  {
    Decode([], [], d, Some(alert))
  }

  /** What one record's plaintext does to a tunnel: nothing (a warning), more data, or the end. */
  datatype Effect = Skip | More(data: seq<Byte>) | Stop(alert: Byte)

  function EffectOf(ct: Byte, payload: seq<Byte>): Effect
  {
    if ct == CT_ALERT && |payload| < 2 then Stop(ALERT_DECODE_ERROR)
    else if ct == CT_ALERT && payload[0] != ALERT_LEVEL_WARNING then Stop(payload[1])
    else if ct == CT_ALERT then Skip
    else if ct != CT_APPLICATION_DATA then Stop(ALERT_UNEXPECTED_MESSAGE)
    else More(payload)
  }

  function DataOf(e: Effect): seq<Byte>
  {
    if e.More? then e.data else []
  }

  ghost function Decoded(p: Params, d: Direction, input: seq<Byte>): Decode
    requires ValidDirection(p, d)
    decreases |input|
  {
    match Receipt(p, d, input, |input|)
    case NeedMore => Decode([], input, d, None)
    case Bad(a) => Failure(d, a)
    case Good(used, ct, payload, next) =>
      var e := EffectOf(ct, payload);
      if e.Stop? then Failure(d, e.alert) else Prepended(DataOf(e), d, Decoded(p, next, input[used..]))
  }

  /** A failing call hands out nothing. */
  function Prepended(data: seq<Byte>, d: Direction, t: Decode): Decode
  {
    if t.failed.Some? then Failure(d, t.failed.value) else t.(data := data + t.data)
  }

  lemma PrependTwice(a: seq<Byte>, b: seq<Byte>, d0: Direction, d: Direction, t: Decode)
    ensures Prepended(a, d0, Prepended(b, d, t)) == Prepended(a + b, d0, t)
    ensures Prepended([], d0, t).failed == t.failed && (t.failed.None? ==> Prepended([], d0, t) == t)
  {
    assert a + (b + t.data) == (a + b) + t.data;
    assert [] + t.data == t.data;
  }

  /** More input does not change what a complete record is taken for. */
  lemma ReceiptStable(p: Params, d: Direction, a: seq<Byte>, b: seq<Byte>)
    requires ValidDirection(p, d) && !Receipt(p, d, a, |a|).NeedMore?
    ensures Receipt(p, d, a + b, |a + b|) == Receipt(p, d, a, |a|)
  {
    hide Opened, GetBE16;
    assert |a| >= HEADER_LEN;
    assert (a + b)[3..5] == a[3..5] && (a + b)[..3] == a[..3];
    var rlen := GetBE16(a[3..5]);
    if HEADER_LEN + rlen <= |a| {
      assert (a + b)[HEADER_LEN..HEADER_LEN + rlen] == a[HEADER_LEN..HEADER_LEN + rlen];
    }
  }

  /** Cutting the input: unless the first part fails, decoding it and then what it left over together with
      the second part gives the same as decoding the whole. */
  lemma {:induction false} DecodedSplit(p: Params, d: Direction, a: seq<Byte>, b: seq<Byte>)
    requires ValidDirection(p, d)
    ensures ValidDirection(p, Decoded(p, d, a).next)
    ensures var t := Decoded(p, d, a);
            Decoded(p, d, a + b)
              == if t.failed.Some? then t else Prepended(t.data, d, Decoded(p, t.next, t.rest + b))
    decreases |a|
  {
    hide Receipt, ValidDirection, Prepended, EffectOf;
    var r := Receipt(p, d, a, |a|);
    if r.NeedMore? {
      var u := Decoded(p, d, a + b);
      FailureShape(p, d, a + b);
      PrependTwice([], [], d, d, u);
      PrependedFailure([], d, u);
    } else {
      ReceiptStable(p, d, a, b);
      if r.Good? && !EffectOf(r.ct, r.payload).Stop? {
        SplitAfterRecord(p, d, a, b, r.used, r.next, DataOf(EffectOf(r.ct, r.payload)));
      }
    }
  }

  lemma PrependedFailure(data: seq<Byte>, d: Direction, t: Decode)
    ensures t.failed.Some? ==> Prepended(data, d, t) == Failure(d, t.failed.value)
    ensures t.failed.None? ==> Prepended(data, d, t) == t.(data := data + t.data)
  {
  }

  lemma {:induction false} SplitAfterRecord(p: Params, d: Direction, a: seq<Byte>, b: seq<Byte>, used: nat, next: Direction,
                                            data: seq<Byte>)
    requires ValidDirection(p, d) && ValidDirection(p, next) && 0 < used <= |a|
    ensures ValidDirection(p, Prepended(data, d, Decoded(p, next, a[used..])).next)
    ensures var t := Prepended(data, d, Decoded(p, next, a[used..]));
            Prepended(data, d, Decoded(p, next, (a + b)[used..]))
              == if t.failed.Some? then t else Prepended(t.data, d, Decoded(p, t.next, t.rest + b))
    decreases |a|, 0
  {
    hide Receipt, ValidDirection, Decoded, Prepended;
    DecodedSplit(p, next, a[used..], b);
    assert (a + b)[used..] == a[used..] + b;
    var t := Decoded(p, next, a[used..]);
    PrependedFailure(data, d, t);
    if t.failed.None? {
      PrependTwice(data, t.data, d, next, Decoded(p, t.next, t.rest + b));
    }
  }

  lemma FailureShape(p: Params, d: Direction, input: seq<Byte>)
    requires ValidDirection(p, d)
    ensures var t := Decoded(p, d, input);
            t.failed.Some? ==> t == Failure(d, t.failed.value)
  {
  }

  /** What is kept is the unconsumed end of the input, and it is not a complete record. */
  lemma {:induction false} RestIsSuffix(p: Params, d: Direction, input: seq<Byte>)
    requires ValidDirection(p, d)
    ensures var t := Decoded(p, d, input);
            t.failed.None? ==>
              && |t.rest| <= |input| && t.rest == input[|input| - |t.rest|..]
              && ValidDirection(p, t.next) && Receipt(p, t.next, t.rest, |t.rest|).NeedMore?
    decreases |input|
  {
    hide Receipt, ValidDirection, EffectOf, Decoded, Prepended;
    DecodedOnce(p, d, input);
    var r := Receipt(p, d, input, |input|);
    if r.Good? {
      var t := Decoded(p, r.next, input[r.used..]);
      RestIsSuffix(p, r.next, input[r.used..]);
      PrependedFailure(DataOf(EffectOf(r.ct, r.payload)), d, t);
      SuffixOfSuffix(input, r.used, |t.rest|);
    }
  }

  lemma SuffixOfSuffix(s: seq<Byte>, k: nat, n: nat)
    requires k <= |s|
    ensures n <= |s| - k ==> s[k..][|s| - k - n..] == s[|s| - n..]
  {
  }

  /** Part of the input is decoded: what is still to be decoded comes behind the data so far. */
  ghost predicate Decoding(p: Params, d0: Direction, input: seq<Byte>, d: Direction, pos: nat, data: seq<Byte>)
    requires ValidDirection(p, d0) && ValidDirection(p, d) && pos <= |input|
  {
    Decoded(p, d0, input) == Prepended(data, d0, Decoded(p, d, input[pos..]))
  }

  lemma DecodingStart(p: Params, d: Direction, input: seq<Byte>)
    requires ValidDirection(p, d)
    ensures Decoding(p, d, input, d, 0, [])
  {
    assert input[0..] == input;
    var t := Decoded(p, d, input);
    FailureShape(p, d, input);
    assert [] + t.data == t.data;
  }

  lemma DecodingStep(p: Params, d0: Direction, input: seq<Byte>, d: Direction, pos: nat, data: seq<Byte>)
    requires ValidDirection(p, d0) && ValidDirection(p, d) && pos <= |input| && Decoding(p, d0, input, d, pos, data)
    ensures var all := Decoded(p, d0, input);
            var r := Receipt(p, d, input[pos..], |input| - pos);
            && (r.NeedMore? ==> all == Decode(data, input[pos..], d, None))
            && (r.Bad? ==> all.failed == Some(r.alert))
            && (r.Good? ==>
                  var e := EffectOf(r.ct, r.payload);
                  if e.Stop? then all.failed == Some(e.alert)
                  else Decoding(p, d0, input, r.next, pos + r.used, data + DataOf(e)))
  {
    hide Receipt, ValidDirection, Decoded, Prepended, EffectOf;
    DecodedOnce(p, d, input[pos..]);
    var r := Receipt(p, d, input[pos..], |input| - pos);
    var t := Decoded(p, d, input[pos..]);
    PrependedFailure(data, d0, t);
    assert data + [] == data;
    if r.Good? {
      assert input[pos..][r.used..] == input[pos + r.used..];
      var u := Decoded(p, r.next, input[pos + r.used..]);
      PrependTwice(data, DataOf(EffectOf(r.ct, r.payload)), d0, d, u);
    }
  }

  lemma DecodedOnce(p: Params, d: Direction, input: seq<Byte>)
    requires ValidDirection(p, d)
    ensures var t := Decoded(p, d, input);
            var r := Receipt(p, d, input, |input|);
            && (r.NeedMore? ==> t == Decode([], input, d, None))
            && (r.Bad? ==> t == Failure(d, r.alert))
            && (r.Good? ==>
                  var e := EffectOf(r.ct, r.payload);
                  if e.Stop? then t == Failure(d, e.alert)
                  else t == Prepended(DataOf(e), d, Decoded(p, r.next, input[r.used..])))
  {
  }

  /** What one call makes of the first record in its input, by the record's type: application data comes in front of
      what the rest gives, a warning is passed over, and everything else ends the call; a call that fails hands out
      nothing. */
  lemma DecodedIs(p: Params, d: Direction, input: seq<Byte>)
    requires ValidDirection(p, d)
    ensures var r, t := Receipt(p, d, input, |input|), Decoded(p, d, input);
            && (r.NeedMore? ==> t.data == [] && t.rest == input && t.next == d && t.failed == None)
            && (r.Bad? ==> t.failed == Some(r.alert))
            && (r.Good? && r.ct == 21 && |r.payload| < 2 ==> t.failed == Some(50))
            && (r.Good? && r.ct == 21 && |r.payload| >= 2 && r.payload[0] != 1 ==> t.failed == Some(r.payload[1]))
            && (r.Good? && r.ct !in {21, 23} ==> t.failed == Some(10))
            && (r.Good? && (r.ct == 23 || (r.ct == 21 && |r.payload| >= 2 && r.payload[0] == 1)) ==>
                  var u := Decoded(p, r.next, input[r.used..]);
                  && t.failed == u.failed
                  && (t.failed.None? ==>
                        t.data == (if r.ct == 23 then r.payload else []) + u.data && t.rest == u.rest && t.next == u.next))
            && (t.failed.Some? ==> t.data == [] && t.rest == [] && t.next == d)
  {
    hide Receipt, ValidDirection, Decoded;
    DecodedOnce(p, d, input);
    FailureShape(p, d, input);
  }

  /** A run of calls: each gets a chunk, prefixed with what the call before kept. */
  ghost function InCalls(p: Params, d: Direction, kept: seq<Byte>, chunks: seq<seq<Byte>>): Decode
    requires ValidDirection(p, d)
    decreases |chunks|
  {
    if chunks == [] then Decode([], kept, d, None)
    else
      var t := Decoded(p, d, kept + chunks[0]);
      if t.failed.Some? then t
      else
        DecodedSplit(p, d, kept + chunks[0], []);
        var u := InCalls(p, t.next, t.rest, chunks[1..]);
        u.(data := t.data + u.data)
  }

  /** Any split of a byte stream over calls gives what one call gives, unless that call fails; and then
      one of the calls fails with the same alert. */
  lemma {:induction false} FragmentationIndependent(p: Params, d: Direction, kept: seq<Byte>, chunks: seq<seq<Byte>>)
    requires ValidDirection(p, d) && |chunks| > 0
    ensures var whole := Decoded(p, d, kept + Concat(chunks));
            var calls := InCalls(p, d, kept, chunks);
            && calls.failed == whole.failed
            && (whole.failed.None? ==> calls == whole)
    decreases |chunks|
  {
    hide Decoded, ValidDirection;
    var first := kept + chunks[0];
    DecodedSplit(p, d, first, Concat(chunks[1..]));
    DecodedSplit(p, d, first, []);
    assert first + Concat(chunks[1..]) == kept + Concat(chunks);
    var t := Decoded(p, d, first);
    if t.failed.None? {
      if |chunks| > 1 {
        FragmentationIndependent(p, t.next, t.rest, chunks[1..]);
      } else {
        assert Concat(chunks[1..]) == [];
        assert kept + Concat(chunks) == first;
      }
    }
  }
}
