/** MD5 over an abstract compression function, on a little-endian machine. */
module Md5 {
  import opened Bytes
  import opened BlockHash

  class Context {
    var buf: seq<Word>
    var bits0: nat
    var bits1: nat
    const inp: array<Byte>
    const c: Compression
    ghost var message: seq<Byte>

    ghost predicate Valid()
      reads this, inp
    {
      && c.Sound() && inp.Length == 64
      && buf == Chain(c, message)
      && inp[..|message| % 64] == Rest(message)
      && Counts(bits0, bits1, |message|)
    }

    constructor (c: Compression)
      requires c.Sound()
      ensures Valid() && fresh(inp) && this.c == c && message == []
    {
      hide Chain, Rest, Counts, Compression.Sound;
      Nothing(c);
      this.c := c;
      buf := c.init;
      bits0, bits1 := 0, 0;
      inp := new Byte[64];
      message := [];
      new;
      assert inp[..0] == [];
    }

    method Count(len: nat)
      requires len < TWO32 && Counts(bits0, bits1, |message|)
      modifies this`bits0, this`bits1
      ensures Counts(bits0, bits1, |message| + len)
    {
      hide Wrap, Counts;
      Counter(bits0, bits1, |message|, len);
      var t := bits0;
      bits0 := Wrap(t + Wrap(8 * len));
      if bits0 < t {
        bits1 := Wrap(bits1 + 1);
      }
      bits1 := Wrap(bits1 + len / 0x2000_0000);
    }

    /** MD5Update: the counter, and the data. */
    method Update(data: seq<Byte>)
      requires Valid() && |data| < TWO32
      modifies this, inp
      ensures Valid() && message == old(message) + data
    {
      hide Rest, Chain, Compression.Sound, Counts;
      var t := bits0 / 8 % 64;
      PendingOf(bits0, bits1, |message|);
      Count(|data|);
      Absorb(message, data, t);
      message := message + data;
    }

    /** The data behind the t pending octets: a pending block is completed, whole blocks are transformed, and
        the rest is kept. */
    method Absorb(ghost m: seq<Byte>, data: seq<Byte>, t: nat)
      requires c.Sound() && inp.Length == 64 && t == |m| % 64 && buf == Chain(c, m) && inp[..t] == Rest(m)
      modifies this`buf, inp
      ensures buf == Chain(c, m + data) && inp[..|m + data| % 64] == Rest(m + data)
    {
      hide Rest, Chain, Compression.Sound;
      assert m + data[..0] == m && data[0..] == data;
      var pos := 0;
      if t > 0 {
        if |data| < 64 - t {
          CopyInto(inp, t, data);
          GatheredRest(c, m, data, 0);
          return;
        }
        pos := 64 - t;
        FillUp(m, data, t);
      }
      pos := TransformWhole(m, data, pos);
      CopyInto(inp, 0, data[pos..]);
      GatheredRest(c, m, data, pos);
    }

    /** The first octets of the data complete the pending block. */
    method FillUp(ghost m: seq<Byte>, data: seq<Byte>, t: nat)
      requires c.Sound() && inp.Length == 64 && t == |m| % 64 && 64 - t <= |data|
      requires buf == Chain(c, m) && inp[..t] == Rest(m)
      modifies this`buf, inp
      ensures buf == Chain(c, m + data[..64 - t])
    {
      hide Rest, Chain, Compression.Sound;
      CopyInto(inp, t, data[..64 - t]);
      FilledWith(c, m, data, 64 - t);
      assert inp[..64] == inp[..];
      buf := c.step(buf, inp[..]);
    }

    /** The whole blocks of the data behind the first pos0 octets, each through the context's buffer. */
    method TransformWhole(ghost m: seq<Byte>, data: seq<Byte>, pos0: nat) returns (pos: nat)
      requires c.Sound() && inp.Length == 64
      requires pos0 <= |data| && (|m| + pos0) % 64 == 0 && buf == Chain(c, m + data[..pos0])
      modifies this`buf, inp
      ensures pos0 <= pos <= |data| < pos + 64 && (|m| + pos) % 64 == 0 && buf == Chain(c, m + data[..pos])
    {
      hide Rest, Chain, Compression.Sound;
      pos := pos0;
      while |data| - pos >= 64
        invariant pos0 <= pos <= |data| && (|m| + pos) % 64 == 0 && buf == Chain(c, m + data[..pos])
      {
        CopyInto(inp, 0, data[pos..pos + 64]);
        assert inp[..] == inp[..0] + data[pos..pos + 64] == data[pos..pos + 64];
        BlockStep(c, m, data, pos);
        buf := c.step(buf, inp[..]);
        pos := pos + 64;
      }
    }

    /** MD5Final: the padding behind the data, and the state as octets. */
    method Final() returns (digest: seq<Byte>)
      requires Valid()
      modifies this`buf, inp
      ensures digest == MdDigest(c, old(message))
    {
      hide Rest, Chain, Compression.Sound, Counts, BitsLE, Padded;
      PendingOf(bits0, bits1, |message|);
      Halves(bits0, bits1, |message|);
      Close(message, bits0 / 8 % 64, LE32(bits0) + LE32(bits1));
      digest := Words();
    }

    /** A 0x80 and zeros up to the last eight octets of a block, in a block of their own if there is no room for
        the length behind them, and the length. */
    method Close(ghost m: seq<Byte>, pending: nat, length: seq<Byte>)
      requires c.Sound() && inp.Length == 64 && |length| == 8
      requires pending == |m| % 64 && buf == Chain(c, m) && inp[..pending] == Rest(m)
      modifies this`buf, inp
      ensures buf == Chain(c, Padded(m, length))
    {
      hide Rest, Chain, Compression.Sound, Padded;
      var count := pending;
      CopyInto(inp, count, [0x80]);
      var p := count + 1;
      count := 64 - 1 - count;
      if count < 8 {
        CopyInto(inp, p, Zeros(count));
        assert inp[..] == inp[..64] == Rest(m) + [0x80] + Zeros(count);
        buf := c.step(buf, inp[..]);
        CopyInto(inp, 0, Zeros(56));
        assert inp[..56] == inp[..0] + Zeros(56) == Zeros(56);
        PaddingInTwo(c, m, length);
      } else {
        CopyInto(inp, p, Zeros(count - 8));
        PaddingInBlock(c, m, length);
      }
      ghost var front := inp[..56];
      CopyInto(inp, 56, length);
      assert inp[..] == inp[..64] == front + length;
      buf := c.step(buf, inp[..]);
    }

    method Words() returns (digest: seq<Byte>)
      ensures digest == LittleEndian(buf)
    {
      digest := [];
      var i := 0;
      while i < |buf|
        invariant 0 <= i <= |buf| && digest == LittleEndian(buf[..i])
      {
        assert buf[..i + 1][..i] == buf[..i];
        digest := digest + LE32(buf[i]);
        i := i + 1;
      }
      assert buf[..i] == buf;
    }
  }

  /** md5_vector. */
  method Vector(c: Compression, chunks: seq<seq<Byte>>) returns (mac: seq<Byte>)
    requires c.Sound() && forall k {:trigger chunks[k]} :: 0 <= k < |chunks| ==> |chunks[k]| < TWO32
    ensures mac == MdDigest(c, Concat(chunks))
  {
    hide MdDigest, Compression.Sound, Context.Valid;
    var ctx := new Context(c);
    var i := 0;
    while i < |chunks|
      invariant 0 <= i <= |chunks| && ctx.Valid() && ctx.c == c && ctx.message == Concat(chunks[..i])
      invariant fresh(ctx) && fresh(ctx.inp)
    {
      ctx.Update(chunks[i]);
      assert chunks[..i + 1] == chunks[..i] + [chunks[i]];
      ConcatLast(chunks[..i], chunks[i]);
      i := i + 1;
    }
    assert chunks[..i] == chunks;
    mac := ctx.Final();
  }
}
