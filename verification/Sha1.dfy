/** SHA-1 over an abstract compression function: a context that takes the message in pieces. */
module Sha1 {
  import opened Bytes
  import opened BlockHash

  class Context {
    var state: seq<Word>
    var count0: nat
    var count1: nat
    const buffer: array<Byte>
    const c: Compression
    ghost var message: seq<Byte>

    /** The context stands for a message: its chaining state, its incomplete block and its length in bits. */
    ghost predicate Valid()
      reads this, buffer
    {
      && c.Sound() && buffer.Length == 64
      && state == Chain(c, message)
      && buffer[..|message| % 64] == Rest(message)
      && Counts(count0, count1, |message|)
    }

    constructor (c: Compression)
      requires c.Sound()
      ensures Valid() && fresh(buffer) && this.c == c && message == []
    {
      hide Chain, Rest, Counts, Compression.Sound;
      Nothing(c);
      this.c := c;
      state := c.init;
      count0, count1 := 0, 0;
      buffer := new Byte[64];
      message := [];
      new;
      assert buffer[..0] == [];
    }

    method Count(len: nat)
      requires len < TWO32 && Counts(count0, count1, |message|)
      modifies this`count0, this`count1
      ensures Counts(count0, count1, |message| + len)
    {
      hide Wrap, Counts;
      Counter(count0, count1, |message|, len);
      count0 := Wrap(count0 + Wrap(8 * len));
      if count0 < Wrap(8 * len) {
        count1 := Wrap(count1 + 1);
      }
      count1 := Wrap(count1 + len / 0x2000_0000);
    }

    /** SHA1Update. The caller's length and the octets pending must fit 32 bits together. */
    method Update(data: seq<Byte>)
      requires Valid() && |message| % 64 + |data| < TWO32
      modifies this, buffer
      ensures Valid() && message == old(message) + data
    {
      hide Rest, Chain, Compression.Sound, Counts;
      ghost var m := message;
      var j := count0 / 8 % 64;
      PendingOf(count0, count1, |message|);
      Count(|data|);
      var i := 0;
      if j + |data| > 63 {
        i := 64 - j;
        CopyInto(buffer, j, data[..i]);
        FilledWith(c, m, data, i);
        assert buffer[..64] == buffer[..];
        state := c.step(state, buffer[..]);
        i := TransformWhole(m, data, i);
        j := 0;
      } else {
        assert m + data[..0] == m;
      }
      CopyInto(buffer, j, data[i..]);
      GatheredRest(c, m, data, i);
      message := m + data;
    }

    /** The whole blocks of the data behind the first i octets. */
    method TransformWhole(ghost m: seq<Byte>, data: seq<Byte>, i0: nat) returns (i: nat)
      requires c.Sound() && i0 <= |data| && (|m| + i0) % 64 == 0 && state == Chain(c, m + data[..i0])
      modifies this`state
      ensures i0 <= i <= |data| < i + 64 && (|m| + i) % 64 == 0 && state == Chain(c, m + data[..i])
    {
      hide Rest, Chain, Compression.Sound;
      i := i0;
      while i + 63 < |data|
        invariant i0 <= i <= |data| && (|m| + i) % 64 == 0 && state == Chain(c, m + data[..i])
      {
        BlockStep(c, m, data, i);
        state := c.step(state, data[i..i + 64]);
        i := i + 64;
      }
    }

    /** SHA1Final: the padding goes through Update octet by octet, the length field was taken before. */
    method Final() returns (digest: seq<Byte>)
      requires Valid()
      modifies this, buffer
      ensures digest == ShaDigest(c, old(message))
    {
      ghost var m := message;
      var finalcount := BE32(count1) + BE32(count0);
      Halves(count0, count1, |message|);
      hide Chain, Valid, BitsBE, Fill, Rest, Counts, Compression.Sound;
      Update([0x80]);
      ghost var k := 0;
      FillStep(m, 0);
      while Pending() != 56
        invariant Valid() && k <= Fill(|m|) && message == m + [0x80] + Zeros(k)
        decreases Fill(|m|) - k
      {
        FillStep(m, k);
        Update([0]);
        k := k + 1;
      }
      FillLeast(|m|, k);
      Update(finalcount);
      digest := WriteBigEndian(state);
    }

    lemma FillStep(m: seq<Byte>, k: nat)
      requires k <= Fill(|m|)
      ensures (|m| + 1 + k) % 64 != 56 ==> k < Fill(|m|)
      ensures m + [0x80] + Zeros(0) == m + [0x80]
      ensures m + [0x80] + Zeros(k + 1) == m + [0x80] + Zeros(k) + [0]
    {
      assert Zeros(k + 1) == Zeros(k) + [0];
    }

    /** The loop condition of the padding: bits 3 to 8 of the counter. */
    function Pending(): (r: nat)
      requires Valid()
      reads this, buffer
      ensures r == |message| % 64
    {
      PendingOf(count0, count1, |message|);
      count0 / 8 % 64
    }
  }

  /** sha1_vector: the digest of the pieces is the digest of what they make up together. A piece and the
      octets pending before it must fit 32 bits. */
  method Vector(c: Compression, chunks: seq<seq<Byte>>) returns (mac: seq<Byte>)
    requires c.Sound()
    requires forall k {:trigger chunks[k]} :: 0 <= k < |chunks| ==> |Concat(chunks[..k])| % 64 + |chunks[k]| < TWO32
    ensures mac == ShaDigest(c, Concat(chunks))
  {
    hide ShaDigest, Compression.Sound, Chain, Counts, Rest;
    var ctx := new Context(c);
    var i := 0;
    while i < |chunks|
      invariant 0 <= i <= |chunks| && ctx.Valid() && ctx.c == c && ctx.message == Concat(chunks[..i])
      invariant fresh(ctx) && fresh(ctx.buffer)
    {
      ctx.Update(chunks[i]);
      assert chunks[..i + 1] == chunks[..i] + [chunks[i]];
      ConcatLast(chunks[..i], chunks[i]);
      i := i + 1;
    }
    assert chunks[..i] == chunks;
    mac := ctx.Final();
  }
}
