/** SHA-256 over an abstract compression function. */
module Sha256 {
  import opened Bytes
  import opened BlockHash

  const BLOCK_SIZE: nat := 64

  class State {
    var length: nat
    var state: seq<Word>
    var curlen: nat
    const buf: array<Byte>
    const c: Compression
    ghost var message: seq<Byte>

    /** The length counts the bits of whole blocks only. */
    ghost predicate Valid()
      reads this, buf
    {
      && c.Sound() && buf.Length == BLOCK_SIZE
      && state == Chain(c, message)
      && curlen == |message| % 64 && buf[..curlen] == Rest(message)
      && length == WholeBits(message)
    }

    constructor (c: Compression)
      requires c.Sound()
      ensures Valid() && fresh(buf) && this.c == c && message == []
    {
      hide Chain, Rest, Counts, Compression.Sound;
      Nothing(c);
      this.c := c;
      curlen, length := 0, 0;
      state := c.init;
      buf := new Byte[BLOCK_SIZE];
      message := [];
      new;
      assert buf[..0] == [];
    }

    /** sha256_process. The failure exit, a full buffer on entry, is never taken. */
    method Process(data: seq<Byte>) returns (ok: bool)
      requires Valid()
      modifies this, buf
      ensures ok && Valid() && message == old(message) + data
    {
      hide Rest, Chain, Compression.Sound, WholeBits;
      ghost var m := message;
      if curlen >= BLOCK_SIZE {
        return false;
      }
      var pos := 0;
      assert m + data[..0] == m;
      while pos < |data|
        invariant 0 <= pos <= |data| && Valid() && message == m + data[..pos]
      {
        if curlen == 0 && |data| - pos >= BLOCK_SIZE {
          BlockStep(c, m, data, pos);
          LengthStep(message, data[pos..pos + 64]);
          NoRest(message + data[pos..pos + 64]);
          state := c.step(state, data[pos..pos + 64]);
          length := (length + BLOCK_SIZE * 8) % TWO64;
          message := message + data[pos..pos + 64];
          pos := pos + 64;
          assert buf[..0] == [];
        } else {
          var n := if |data| - pos < BLOCK_SIZE - curlen then |data| - pos else BLOCK_SIZE - curlen;
          TakeIn(data[pos..pos + n]);
          pos := pos + n;
        }
        assert m + data[..pos] == message;
      }
      assert data[..pos] == data;
      ok := true;
    }

    /** Octets for the buffer, and a compression when they fill it. */
    method TakeIn(x: seq<Byte>)
      requires Valid() && curlen + |x| <= BLOCK_SIZE && |x| > 0
      modifies this, buf
      ensures Valid() && message == old(message) + x
    {
      hide Rest, Chain, Compression.Sound, WholeBits;
      CopyInto(buf, curlen, x);
      LengthStep(message, x);
      curlen := curlen + |x|;
      if curlen == BLOCK_SIZE {
        Filled(c, message, x);
        assert buf[..64] == buf[..];
        state := c.step(state, buf[..]);
        length := (length + 8 * BLOCK_SIZE) % TWO64;
        curlen := 0;
        assert buf[..0] == [];
      } else {
        Gathered(c, message, x);
      }
      message := message + x;
    }

    /** sha256_done. */
    method Done() returns (ok: bool, out: seq<Byte>)
      requires Valid()
      modifies this`length, this`curlen, this`state, buf
      ensures ok && out == ShaDigest(c, message)
    {
      if curlen >= BLOCK_SIZE {
        return false, [];
      }
      hide Rest, Chain, Compression.Sound, WholeBits, BitsBE, Padded;
      AllBits(message);
      length := (length + curlen * 8) % TWO64;
      ghost var field := BitsBE(|message|);
      Pad(field);
      LengthField(length, |message|);
      ghost var front := buf[..56];
      CopyInto(buf, 56, BE32(length / TWO32) + BE32(length % TWO32));
      assert buf[..] == buf[..64] == front + field;
      state := c.step(state, buf[..]);
      out := WriteBigEndian(state);
      ok := true;
    }

    /** The padding up to the length field: the last compression over it finishes the padded message. */
    method Pad(ghost field: seq<Byte>)
      requires c.Sound() && buf.Length == BLOCK_SIZE && |field| == 8
      requires state == Chain(c, message) && curlen == |message| % 64 && buf[..curlen] == Rest(message)
      modifies this`curlen, this`state, buf
      ensures curlen == 56 && c.step(state, buf[..56] + field) == Chain(c, Padded(message, field))
    {
      hide Rest, Chain, Compression.Sound, WholeBits, Padded;
      ghost var rest := Rest(message);
      CopyInto(buf, curlen, [0x80]);
      curlen := curlen + 1;
      if curlen > 56 {
        ZeroTo(BLOCK_SIZE);
        assert buf[..] == buf[..64] == rest + [0x80] + Zeros(63 - |message| % 64);
        state := c.step(state, buf[..]);
        curlen := 0;
        assert buf[..0] == [];
        ZeroTo(56);
        PaddingInTwo(c, message, field);
        assert buf[..56] == Zeros(56);
      } else {
        ZeroTo(56);
        PaddingInBlock(c, message, field);
      }
    }

    /** Appends zeros until n octets are used. */
    method ZeroTo(n: nat)
      requires curlen <= n <= 64 == buf.Length
      modifies this`curlen, buf
      ensures curlen == n && buf[..n] == old(buf[..curlen]) + Zeros(n - old(curlen))
    {
      ghost var front, l := buf[..curlen], curlen;
      while curlen < n
        invariant l <= curlen <= n && buf[..curlen] == front + Zeros(curlen - l)
      {
        ghost var b := buf[..curlen];
        buf[curlen] := 0;
        curlen := curlen + 1;
        assert buf[..curlen] == b + [0];
        assert Zeros(curlen - l) == Zeros(curlen - 1 - l) + [0];
      }
    }
  }

  /** sha256_vector. */
  method Vector(c: Compression, chunks: seq<seq<Byte>>) returns (ok: bool, mac: seq<Byte>)
    requires c.Sound()
    ensures ok && mac == ShaDigest(c, Concat(chunks))
  {
    hide State.Valid, ShaDigest, Compression.Sound;
    var md := new State(c);
    var i := 0;
    while i < |chunks|
      invariant 0 <= i <= |chunks| && md.Valid() && md.c == c && md.message == Concat(chunks[..i])
      invariant fresh(md) && fresh(md.buf)
    {
      var fine := md.Process(chunks[i]);
      if !fine {
        return false, [];
      }
      assert chunks[..i + 1] == chunks[..i] + [chunks[i]];
      ConcatLast(chunks[..i], chunks[i]);
      i := i + 1;
    }
    assert chunks[..i] == chunks;
    ok, mac := md.Done();
  }
}
