/** The cipher wrapper of the record layer: RC4 and CBC mode over a block cipher, with the chaining state
    kept from call to call. */
module Cipher {
  import Arith
  import opened Bytes
  import opened Xor
  import opened Rc4

  /** A block cipher with its key set up. */
  datatype Keyed = Keyed(enc: seq<Byte> -> seq<Byte>, dec: seq<Byte> -> seq<Byte>, size: nat)
  {
    /** All that is assumed of a block cipher. */
    ghost predicate Invertible(n: nat)
    {
      && size == n > 0
      && (forall b {:trigger enc(b)} :: |b| == n ==> |enc(b)| == n && dec(enc(b)) == b)
      && (forall b {:trigger dec(b)} :: |b| == n ==> |dec(b)| == n)
    }
  }

  /** The algorithms of the cipher wrapper that are modelled. */
  datatype Alg = Null | Rc4Alg | Aes | TripleDes

  function BlockSize(alg: Alg): (n: nat)
    ensures n > 0
  {
    match alg
    case Aes => 16
    case TripleDes => 8
    case _ => 1
  }

  // ---------------------------------------------------------------- CBC on strings

  ghost predicate CbcReady(c: Keyed, iv: seq<Byte>)
  {
    c.Invertible(c.size) && |iv| == c.size
  }

  ghost function CbcEnc(c: Keyed, iv: seq<Byte>, p: seq<Byte>): (r: seq<Byte>)
    requires CbcReady(c, iv) && |p| % c.size == 0
    ensures |r| == |p|
    decreases |p|
  {
    if |p| < c.size then Arith.ModSmall(|p|, c.size); []
    else
      Arith.ModAddMultiple(|p|, -1, c.size);
      var y := c.enc(XorBytes(iv, p[..c.size]));
      y + CbcEnc(c, y, p[c.size..])
  }

  ghost function CbcDec(c: Keyed, iv: seq<Byte>, y: seq<Byte>): (r: seq<Byte>)
    requires CbcReady(c, iv) && |y| % c.size == 0
    ensures |r| == |y|
    decreases |y|
  {
    if |y| < c.size then Arith.ModSmall(|y|, c.size); []
    else
      Arith.ModAddMultiple(|y|, -1, c.size);
      XorBytes(c.dec(y[..c.size]), iv) + CbcDec(c, y[..c.size], y[c.size..])
  }

  /** The chaining value after a ciphertext: its last block. */
  ghost function LastBlock(n: nat, iv: seq<Byte>, y: seq<Byte>): (r: seq<Byte>)
    requires |iv| == n
    ensures |r| == n
  {
    if |y| < n then iv else y[|y| - n..]
  }

  lemma {:induction false} CbcRoundTrip(c: Keyed, iv: seq<Byte>, p: seq<Byte>)
    requires CbcReady(c, iv) && |p| % c.size == 0
    ensures CbcDec(c, iv, CbcEnc(c, iv, p)) == p
    decreases |p|
  {
    if |p| >= c.size {
      Arith.ModAddMultiple(|p|, -1, c.size);
      var q := p[..c.size];
      var y := c.enc(XorBytes(iv, q));
      var r := CbcEnc(c, iv, p);
      assert r[..c.size] == y && r[c.size..] == CbcEnc(c, y, p[c.size..]);
      CbcRoundTrip(c, y, p[c.size..]);
      XorBytesSwapped(iv, q);
    } else {
      Arith.ModSmall(|p|, c.size);
    }
  }

  lemma XorBytesSwapped(a: seq<Byte>, b: seq<Byte>)
    requires |a| == |b|
    ensures XorBytes(XorBytes(a, b), a) == b
  {
    hide XorByte;
    forall k | 0 <= k < |a|
      ensures XorBytes(XorBytes(a, b), a)[k] == b[k]
    {
      XorByteComm(a[k], b[k]);
      XorByteTwice(b[k], a[k]);
    }
  }

  /** A wrong initialization vector spoils the first block only. */
  lemma CbcResync(c: Keyed, iv: seq<Byte>, iv2: seq<Byte>, p: seq<Byte>)
    requires CbcReady(c, iv) && CbcReady(c, iv2) && |p| % c.size == 0 && |p| >= c.size
    ensures CbcDec(c, iv2, CbcEnc(c, iv, p))[c.size..] == p[c.size..]
  {
    Arith.ModAddMultiple(|p|, -1, c.size);
    var y := c.enc(XorBytes(iv, p[..c.size]));
    var r := CbcEnc(c, iv, p);
    assert r[..c.size] == y && r[c.size..] == CbcEnc(c, y, p[c.size..]);
    CbcRoundTrip(c, y, p[c.size..]);
  }

  // ---------------------------------------------------------------- what a context does

  /** The state of a cipher context between calls. */
  datatype CipherState = Stream(key: seq<Byte>, used: nat) | Chained(block: Keyed, cbc: seq<Byte>)
  {
    ghost predicate Valid()
    {
      match this
      case Stream(key, _) => 0 < |key| <= 16
      case Chained(block, cbc) => CbcReady(block, cbc)
    }

    function Unit(): nat
    {
      if Stream? then 1 else block.size
    }

    ghost predicate Accepts(len: nat)
      requires Valid()
    {
      len % Unit() == 0
    }

    ghost function Encrypted(p: seq<Byte>): (r: seq<Byte>)
      requires Valid() && Accepts(|p|)
      ensures |r| == |p|
    {
      match this
      case Stream(key, used) => Crypted(key, used, p)
      case Chained(block, cbc) => CbcEnc(block, cbc, p)
    }

    ghost function Decrypted(y: seq<Byte>): (r: seq<Byte>)
      requires Valid() && Accepts(|y|)
      ensures |r| == |y|
    {
      match this
      case Stream(key, used) => Crypted(key, used, y)
      case Chained(block, cbc) => CbcDec(block, cbc, y)
    }

    /** The state after a call whose ciphertext side is y. */
    ghost function Advanced(y: seq<Byte>): (r: CipherState)
      requires Valid()
      ensures r.Valid()
    {
      match this
      case Stream(key, used) => Stream(key, used + |y|)
      case Chained(block, cbc) => Chained(block, LastBlock(block.size, cbc, y))
    }
  }

  /** Equal states undo each other, and stay equal. */
  lemma DecryptsWhatWasEncrypted(s: CipherState, p: seq<Byte>)
    requires s.Valid() && s.Accepts(|p|)
    ensures s.Decrypted(s.Encrypted(p)) == p
  {
    match s {
      case Stream(key, used) => CryptTwice(key, used, p);
      case Chained(block, cbc) => CbcRoundTrip(block, cbc, p);
    }
  }

  /** CBC block by block: what is encrypted is the exclusive or of the block with the ciphertext block before it; */
  lemma {:induction false} EncryptedBlock(c: Keyed, iv: seq<Byte>, p: seq<Byte>, k: nat)
    requires CbcReady(c, iv) && |p| % c.size == 0 && k % c.size == 0 && k + c.size <= |p|
    ensures k == 0 || k >= c.size
    ensures var n, y := c.size, CbcEnc(c, iv, p);
            y[k..k + n] == c.enc(XorBytes(if k == 0 then iv else y[k - n..k], p[k..k + n]))
    decreases k
  {
    hide XorBytes, XorByte, CbcEnc, Keyed.Invertible;
    var n := c.size;
    DecSize(c, []);
    EncStep(c, iv, p);
    var y0 := c.enc(XorBytes(iv, p[..n]));
    if k > 0 {
      NotFirst(k, n);
      EncryptedBlock(c, y0, p[n..], k - n);
      Behind(y0, CbcEnc(c, y0, p[n..]), k);
      assert p[n..][k - n..k] == p[k..k + n];
    } else {
      assert p[0..n] == p[..n];
    }
  }

  /** and what is decrypted has the ciphertext block before it taken off again. */
  lemma {:induction false} DecryptedBlock(c: Keyed, iv: seq<Byte>, y: seq<Byte>, k: nat)
    requires CbcReady(c, iv) && |y| % c.size == 0 && k % c.size == 0 && k + c.size <= |y|
    ensures k == 0 || k >= c.size
    ensures var n, x := c.size, CbcDec(c, iv, y);
            |c.dec(y[k..k + n])| == n && x[k..k + n] == XorBytes(c.dec(y[k..k + n]), if k == 0 then iv else y[k - n..k])
    decreases k
  {
    hide XorBytes, XorByte, CbcDec, Keyed.Invertible;
    var n := c.size;
    DecSize(c, y[..n]);
    DecStep(c, iv, y);
    if k > 0 {
      NotFirst(k, n);
      DecryptedBlock(c, y[..n], y[n..], k - n);
      Later(y, XorBytes(c.dec(y[..n]), iv), CbcDec(c, y[..n], y[n..]), k);
    } else {
      assert y[0..n] == y[..n];
    }
  }

  lemma DecSize(c: Keyed, b: seq<Byte>)
    requires c.Invertible(c.size)
    ensures c.size > 0 && (|b| == c.size ==> |c.dec(b)| == c.size)
  {
  }

  lemma NotFirst(k: nat, n: nat)
    requires n > 0 && k > 0 && k % n == 0
    ensures k >= n && (k - n) % n == 0 && (k > n ==> k >= 2 * n)
  {
    if k < n {
      Arith.ModSmall(k, n);
    }
    Arith.ModAddMultiple(k, -1, n);
    if n < k < 2 * n {
      Arith.ModSmall(k - n, n);
    }
  }

  /** Blocks behind the first one. */
  lemma Behind(x: seq<Byte>, y: seq<Byte>, k: nat)
    requires |x| > 0 && |x| <= k && k <= |y|
    ensures (x + y)[k..k + |x|] == y[k - |x|..k]
    ensures (x + y)[k - |x|..k] == if k >= 2 * |x| then y[k - 2 * |x|..k - |x|] else (x + y)[k - |x|..k]
    ensures k == |x| ==> (x + y)[k - |x|..k] == x
  {
  }

  lemma Later(y: seq<Byte>, x: seq<Byte>, xs: seq<Byte>, k: nat)
    requires |x| > 0 && |x| <= k && k + |x| <= |y| == |x| + |xs| && (k > |x| ==> k >= 2 * |x|)
    ensures y[|x|..][k - |x|..k] == y[k..k + |x|] && (x + xs)[k..k + |x|] == xs[k - |x|..k]
    ensures (if k == |x| then y[..|x|] else y[|x|..][k - 2 * |x|..k - |x|]) == y[k - |x|..k]
  {
  }

  /** What a context accepts and makes of a text, written out for both kinds of cipher: whole blocks in CBC mode, with
      the context's chaining value in front of the first, */
  lemma ChainedState(s: CipherState, p: seq<Byte>, k: nat)
    requires s.Valid() && s.Chained?
    ensures s.Accepts(|p|) <==> |p| % s.block.size == 0
    ensures s.Accepts(|p|) && k % s.block.size == 0 && k + s.block.size <= |p| ==>
              var n, y, x := s.block.size, s.Encrypted(p), s.Decrypted(p);
              && (k == 0 || k >= n) && |s.block.dec(p[k..k + n])| == n
              && y[k..k + n] == s.block.enc(XorBytes(if k == 0 then s.cbc else y[k - n..k], p[k..k + n]))
              && x[k..k + n] == XorBytes(s.block.dec(p[k..k + n]), if k == 0 then s.cbc else p[k - n..k])
  {
    hide CbcEnc, CbcDec, Keyed.Invertible, XorBytes;
    DecSize(s.block, []);
    if s.Accepts(|p|) && k % s.block.size == 0 && k + s.block.size <= |p| {
      EncryptedBlock(s.block, s.cbc, p, k);
      DecryptedBlock(s.block, s.cbc, p, k);
    }
  }

  /** or any number of octets, each masked with the next octet of the RC4 key stream. */
  lemma StreamState(s: CipherState, p: seq<Byte>, k: nat)
    requires s.Valid() && s.Stream?
    ensures s.Accepts(|p|)
    ensures k < |p| ==>
              var g := After(s.key, s.used + k + 1);
              var x: int, y: int := g.S[g.i], g.S[g.j];
              s.Encrypted(p)[k] == s.Decrypted(p)[k] == XorByte(p[k], g.S[(x + y) % 256])
  {
    hide Crypted, XorByte, After;
    Arith.DivModUnique(|p|, 1, |p|, 0);
    if k < |p| {
      CryptedAt(s.key, s.used, p, k);
    }
  }

  /** A text encrypted, or decrypted, in two calls is what one call makes of it. */
  lemma ContinuesState(s: CipherState, a: seq<Byte>, b: seq<Byte>)
    requires s.Valid() && s.Accepts(|a|) && s.Accepts(|b|)
    ensures s.Accepts(|a + b|)
    ensures var y := s.Encrypted(a); s.Encrypted(a + b) == y + s.Advanced(y).Encrypted(b)
    ensures s.Decrypted(a + b) == s.Decrypted(a) + s.Advanced(a).Decrypted(b)
  {
    hide Crypted, CbcEnc, CbcDec, LastBlock, Keyed.Invertible;
    match s {
      case Stream(key, used) => Continues(key, used, a, b);
      case Chained(block, cbc) => CbcContinues(block, cbc, a, b);
    }
  }

  lemma {:induction false} CbcContinues(c: Keyed, iv: seq<Byte>, a: seq<Byte>, b: seq<Byte>)
    requires CbcReady(c, iv) && |a| % c.size == 0 && |b| % c.size == 0
    ensures |a + b| % c.size == 0
    ensures var y := CbcEnc(c, iv, a); CbcEnc(c, iv, a + b) == y + CbcEnc(c, LastBlock(c.size, iv, y), b)
    ensures CbcDec(c, iv, a + b) == CbcDec(c, iv, a) + CbcDec(c, LastBlock(c.size, iv, a), b)
    decreases |a|
  {
    hide XorBytes, XorByte, CbcEnc, CbcDec, Keyed.Invertible;
    var n := c.size;
    DecSize(c, []);
    Arith.ModSmall(0, n);
    Arith.CongAdd(|a|, 0, |b|, 0, n);
    if a == [] {
      assert a + b == b;
      assert CbcEnc(c, iv, a) == [] && CbcDec(c, iv, a) == [];
      assert [] + CbcEnc(c, iv, b) == CbcEnc(c, iv, b) && [] + CbcDec(c, iv, b) == CbcDec(c, iv, b);
    } else {
      NotFirst(|a|, n);
      var y0, x0 := c.enc(XorBytes(iv, a[..n])), a[..n];
      EncStep(c, iv, a);
      DecStep(c, iv, a);
      assert (a + b)[..n] == a[..n] && (a + b)[n..] == a[n..] + b;
      EncStep(c, iv, a + b);
      DecStep(c, iv, a + b);
      CbcContinues(c, y0, a[n..], b);
      CbcContinues(c, x0, a[n..], b);
      var y := CbcEnc(c, y0, a[n..]);
      LastOfTwo(n, iv, y0, y);
      LastOfTwo(n, iv, x0, a[n..]);
      assert x0 + a[n..] == a;
      assert y0 + (y + CbcEnc(c, LastBlock(n, y0, y), b)) == (y0 + y) + CbcEnc(c, LastBlock(n, y0, y), b);
    }
  }

  lemma LastOfTwo(n: nat, iv: seq<Byte>, x: seq<Byte>, y: seq<Byte>)
    requires |iv| == n == |x| && n > 0 && (|y| == 0 || |y| >= n)
    ensures LastBlock(n, iv, x + y) == LastBlock(n, x, y)
  {
  }

  // ---------------------------------------------------------------- the context object

  /** What lies behind the part worked on is as it was. */
  lemma StillToCome(b: seq<Byte>, b0: seq<Byte>, pos: nat, i: nat, n: nat, len: nat)
    requires |b| == |b0| && i + n <= len && pos + len <= |b|
    requires forall k :: 0 <= k < |b| && !(pos <= k < pos + i) ==> b[k] == b0[k]
    ensures b[pos + i..pos + i + n] == b0[pos..pos + len][i..i + n]
  {
    var was := b0[pos..pos + len][i..i + n];
    forall j | 0 <= j < n
      ensures b[pos + i..pos + i + n][j] == was[j]
    {
      assert was[j] == b0[pos + i + j];
    }
  }

  class CryptoCipher {
    const alg: Alg
    const key: seq<Byte>
    const block: Keyed
    var usedBytes: nat
    var cbc: seq<Byte>

    ghost predicate Valid()
      reads this
    {
      && alg != Null && State().Valid()
      && (alg != Rc4Alg ==> block.size == BlockSize(alg))
    }

    ghost function State(): CipherState
      reads this
    {
      if alg == Rc4Alg then Stream(key, usedBytes) else Chained(block, cbc)
    }

    constructor (alg: Alg, key: seq<Byte>, block: Keyed, iv: seq<Byte>)
      requires alg != Null
      requires alg == Rc4Alg ==> 0 < |key| <= 16
      requires alg != Rc4Alg ==> block.Invertible(BlockSize(alg)) && |iv| == BlockSize(alg)
      ensures Valid() && State() == if alg == Rc4Alg then Stream(key, 0) else Chained(block, iv)
      ensures this.alg == alg
    {
      this.alg := alg;
      this.key := key;
      this.block := block;
      usedBytes := 0;
      cbc := iv;
    }

    /** One block of CBC encryption, in place. */
    method EncryptBlock(buf: array<Byte>, pos: nat)
      requires Valid() && alg != Rc4Alg && pos + block.size <= buf.Length
      modifies this`cbc, buf
      ensures Valid() && cbc == block.enc(XorBytes(old(cbc), old(buf[pos..pos + block.size])))
      ensures buf[pos..pos + block.size] == cbc
      ensures forall k :: 0 <= k < buf.Length && !(pos <= k < pos + block.size) ==> buf[k] == old(buf[k])
    {
      ghost var iv, p := cbc, buf[pos..pos + block.size];
      var j := 0;
      while j < block.size
        modifies this`cbc
        invariant 0 <= j <= block.size && |cbc| == block.size
        invariant forall k :: 0 <= k < block.size ==> cbc[k] == if k < j then XorByte(iv[k], p[k]) else iv[k]
      {
        cbc := cbc[j := XorByte(cbc[j], buf[pos + j])];
        j := j + 1;
      }
      assert cbc == XorBytes(iv, p);
      cbc := block.enc(cbc);
      CopyBlock(cbc, buf, pos);
    }

    /** crypto_cipher_encrypt on a buffer that is both plaintext and ciphertext. */
    method Encrypt(buf: array<Byte>, pos: nat, len: nat) returns (ok: bool)
      requires Valid() && pos + len <= buf.Length
      modifies this`cbc, this`usedBytes, buf
      ensures Valid() && (ok <==> old(State()).Accepts(len))
      ensures ok ==> buf[pos..pos + len] == old(State().Encrypted(buf[pos..pos + len]))
      ensures ok ==> State() == old(State()).Advanced(buf[pos..pos + len])
      ensures forall k :: 0 <= k < buf.Length && !(pos <= k < pos + len) ==> buf[k] == old(buf[k])
      ensures !ok ==> State() == old(State()) && unchanged(buf)
    {
      hide XorByte, Crypted;
      if alg == Rc4Alg {
        Rc4Skip(key, usedBytes, buf, pos, len);
        usedBytes := usedBytes + len;
        return true;
      }
      if len % block.size != 0 {
        return false;
      }
      EncryptBlocks(buf, pos, len);
      ok := true;
    }

    method EncryptBlocks(buf: array<Byte>, pos: nat, len: nat)
      requires Valid() && alg != Rc4Alg && pos + len <= buf.Length && len % block.size == 0
      modifies this`cbc, buf
      ensures Valid() && buf[pos..pos + len] == CbcEnc(block, old(cbc), old(buf[pos..pos + len]))
      ensures cbc == LastBlock(block.size, old(cbc), buf[pos..pos + len])
      ensures forall k :: 0 <= k < buf.Length && !(pos <= k < pos + len) ==> buf[k] == old(buf[k])
    {
      hide XorByte, CbcEnc, XorBytes, Encrypting, LastBlock, Keyed.Invertible;
      ghost var b0, iv, n := buf[..], cbc, block.size;
      ghost var p := b0[pos..pos + len];
      var i := 0;
      EncryptingStart(block, iv, p);
      assert buf[pos..pos + 0] == [];
      while i < len
        invariant 0 <= i <= len && i % n == 0 && Valid()
        invariant Encrypting(block, iv, p, i, buf[pos..pos + i], cbc)
        invariant forall k :: 0 <= k < buf.Length && !(pos <= k < pos + i) ==> buf[k] == b0[k]
      {
        WholeBlocks(i, len, n);
        ghost var done, cbc0 := buf[pos..pos + i], cbc;
        assert buf[pos + i..pos + i + n] == buf[..][pos + i..pos + i + n];
        StillToCome(buf[..], b0, pos, i, n, len);
        EncryptBlock(buf, pos + i);
        EncryptingStep(block, iv, p, i, done, cbc0);
        assert buf[pos..pos + i + n] == done + cbc;
        i := i + block.size;
      }
      EncryptingDone(block, iv, p, buf[pos..pos + len], cbc);
    }

    method DecryptBlock(crypt: array<Byte>, cpos: nat, plain: array<Byte>, pos: nat)
      requires Valid() && alg != Rc4Alg && crypt != plain
      requires cpos + block.size <= crypt.Length && pos + block.size <= plain.Length
      modifies this`cbc, plain
      ensures Valid() && cbc == crypt[cpos..cpos + block.size]
      ensures plain[pos..pos + block.size] == XorBytes(block.dec(cbc), old(cbc))
      ensures forall k :: 0 <= k < plain.Length && !(pos <= k < pos + block.size) ==> plain[k] == old(plain[k])
    {
      var tmp := crypt[cpos..cpos + block.size];
      var d := block.dec(tmp);
      CopyBlock(d, plain, pos);
      ghost var p0, n := plain[..], block.size;
      var j := 0;
      while j < block.size
        modifies plain
        invariant 0 <= j <= n
        invariant forall k :: 0 <= k < plain.Length ==>
                    plain[k] == if pos <= k < pos + j then XorByte(p0[k], cbc[k - pos]) else p0[k]
      {
        plain[pos + j] := XorByte(plain[pos + j], cbc[j]);
        j := j + 1;
      }
      XoredSlice(p0, plain[..], pos, cbc);
      cbc := tmp;
    }

    method DecryptBlocks(crypt: array<Byte>, cpos: nat, plain: array<Byte>, len: nat)
      requires Valid() && alg != Rc4Alg && crypt != plain && len % block.size == 0
      requires cpos + len <= crypt.Length && len <= plain.Length
      modifies this`cbc, plain
      ensures Valid() && plain[..len] == CbcDec(block, old(cbc), crypt[cpos..cpos + len])
      ensures cbc == LastBlock(block.size, old(cbc), crypt[cpos..cpos + len])
    {
      hide XorByte, CbcDec, XorBytes, Decrypting, LastBlock, Keyed.Invertible;
      ghost var y, iv, n := crypt[cpos..cpos + len], cbc, block.size;
      var i := 0;
      DecryptingStart(block, iv, y);
      assert plain[..0] == [];
      while i < len
        invariant 0 <= i <= len && i % n == 0 && Valid() && crypt[cpos..cpos + len] == y
        invariant Decrypting(block, iv, y, i, plain[..i], cbc)
      {
        WholeBlocks(i, len, n);
        ghost var done, cbc0 := plain[..i], cbc;
        assert crypt[cpos + i..cpos + i + n] == y[i..i + n];
        DecryptBlock(crypt, cpos + i, plain, i);
        DecryptingStep(block, iv, y, i, done, cbc0);
        assert plain[..i + n] == done + plain[i..i + n];
        i := i + block.size;
      }
      DecryptingDone(block, iv, y, plain[..len], cbc);
    }

    /** crypto_cipher_decrypt from one buffer into another. */
    method Decrypt(crypt: array<Byte>, cpos: nat, plain: array<Byte>, len: nat) returns (ok: bool)
      requires Valid() && crypt != plain && cpos + len <= crypt.Length && len <= plain.Length
      modifies this`cbc, this`usedBytes, plain
      ensures Valid() && (ok <==> old(State()).Accepts(len))
      ensures ok ==> plain[..len] == old(State().Decrypted(crypt[cpos..cpos + len]))
      ensures ok ==> State() == old(State()).Advanced(crypt[cpos..cpos + len])
      ensures !ok ==> State() == old(State())
    {
      hide XorByte, Crypted;
      if alg == Rc4Alg {
        CopyBlock(crypt[cpos..cpos + len], plain, 0);
        assert plain[0..len] == plain[..len];
        Rc4Skip(key, usedBytes, plain, 0, len);
        assert plain[0..len] == plain[..len];
        usedBytes := usedBytes + len;
        return true;
      }
      if len % block.size != 0 {
        return false;
      }
      DecryptBlocks(crypt, cpos, plain, len);
      ok := true;
    }
  }

  lemma XoredSlice(p: seq<Byte>, q: seq<Byte>, pos: nat, x: seq<Byte>)
    requires pos + |x| <= |p| == |q| && forall k :: pos <= k < pos + |x| ==> q[k] == XorByte(p[k], x[k - pos])
    ensures q[pos..pos + |x|] == XorBytes(p[pos..pos + |x|], x)
  {
    hide XorByte;
  }

  method CopyBlock(s: seq<Byte>, buf: array<Byte>, pos: nat)
    requires pos + |s| <= buf.Length
    modifies buf
    ensures buf[pos..pos + |s|] == s
    ensures forall k :: 0 <= k < buf.Length && !(pos <= k < pos + |s|) ==> buf[k] == old(buf[k])
  {
    var i := 0;
    while i < |s|
      invariant 0 <= i <= |s| && buf[pos..pos + i] == s[..i]
      invariant forall k :: 0 <= k < buf.Length && !(pos <= k < pos + i) ==> buf[k] == old(buf[k])
    {
      buf[pos + i] := s[i];
      i := i + 1;
    }
  }

  lemma WholeBlocks(i: nat, len: nat, n: nat)
    requires n > 0 && i < len && i % n == 0 && len % n == 0
    ensures i + n <= len && (i + n) % n == 0 && (len - i) % n == 0 && (len - i - n) % n == 0
  {
    var a, b := i / n, len / n;
    Arith.DivModEq(i, n);
    Arith.DivModEq(len, n);
    if b < a + 1 {
      Arith.MulLe(b, a, n);
    }
    Arith.MulLe(a + 1, b, n);
    Arith.ModAddMultiple(i, 1, n);
    assert len - i == (b - a) * n;
    Arith.DivModUnique(len - i, n, b - a, 0);
    Arith.ModAddMultiple(len - i, -1, n);
  }

  lemma EncStep(c: Keyed, iv: seq<Byte>, p: seq<Byte>)
    requires CbcReady(c, iv) && |p| % c.size == 0 && |p| >= c.size
    ensures |p[c.size..]| % c.size == 0 && CbcReady(c, c.enc(XorBytes(iv, p[..c.size])))
    ensures var y := c.enc(XorBytes(iv, p[..c.size]));
            CbcEnc(c, iv, p) == y + CbcEnc(c, y, p[c.size..])
  {
    Arith.ModAddMultiple(|p|, -1, c.size);
  }

  lemma DecStep(c: Keyed, iv: seq<Byte>, y: seq<Byte>)
    requires CbcReady(c, iv) && |y| % c.size == 0 && |y| >= c.size
    ensures |y[c.size..]| % c.size == 0 && CbcReady(c, y[..c.size]) && |c.dec(y[..c.size])| == c.size
    ensures CbcDec(c, iv, y) == XorBytes(c.dec(y[..c.size]), iv) + CbcDec(c, y[..c.size], y[c.size..])
  {
    Arith.ModAddMultiple(|y|, -1, c.size);
  }

  /** After i octets of CBC encryption: the output so far and the chaining value. */
  ghost predicate Encrypting(c: Keyed, iv: seq<Byte>, p: seq<Byte>, i: nat, done: seq<Byte>, cbc: seq<Byte>)
  {
    && CbcReady(c, iv) && CbcReady(c, cbc) && |done| == i <= |p| && |p| % c.size == 0 && (|p| - i) % c.size == 0
    && done + CbcEnc(c, cbc, p[i..]) == CbcEnc(c, iv, p) && cbc == LastBlock(c.size, iv, done)
  }

  lemma EncryptingStart(c: Keyed, iv: seq<Byte>, p: seq<Byte>)
    requires CbcReady(c, iv) && |p| % c.size == 0
    ensures Encrypting(c, iv, p, 0, [], iv)
  {
    assert p[0..] == p;
  }

  lemma EncryptingStep(c: Keyed, iv: seq<Byte>, p: seq<Byte>, i: nat, done: seq<Byte>, cbc: seq<Byte>)
    requires Encrypting(c, iv, p, i, done, cbc) && i + c.size <= |p| && |cbc| == c.size && (|p| - i - c.size) % c.size == 0
    ensures var y := c.enc(XorBytes(cbc, p[i..i + c.size]));
            |y| == c.size && Encrypting(c, iv, p, i + c.size, done + y, y)
  {
    hide XorByte, XorBytes, CbcEnc;
    var q := p[i..];
    var y := c.enc(XorBytes(cbc, q[..c.size]));
    assert q[..c.size] == p[i..i + c.size] && q[c.size..] == p[i + c.size..];
    EncStep(c, cbc, q);
    assert done + (y + CbcEnc(c, y, q[c.size..])) == (done + y) + CbcEnc(c, y, q[c.size..]);
  }

  lemma EncryptingDone(c: Keyed, iv: seq<Byte>, p: seq<Byte>, done: seq<Byte>, cbc: seq<Byte>)
    requires |iv| == c.size && Encrypting(c, iv, p, |p|, done, cbc)
    ensures |p| % c.size == 0 && CbcReady(c, iv) && done == CbcEnc(c, iv, p) && cbc == LastBlock(c.size, iv, done)
  {
  }

  ghost predicate Decrypting(c: Keyed, iv: seq<Byte>, y: seq<Byte>, i: nat, done: seq<Byte>, cbc: seq<Byte>)
  {
    && CbcReady(c, iv) && CbcReady(c, cbc) && |done| == i <= |y| && |y| % c.size == 0 && (|y| - i) % c.size == 0
    && done + CbcDec(c, cbc, y[i..]) == CbcDec(c, iv, y) && cbc == LastBlock(c.size, iv, y[..i])
  }

  lemma DecryptingStart(c: Keyed, iv: seq<Byte>, y: seq<Byte>)
    requires CbcReady(c, iv) && |y| % c.size == 0
    ensures Decrypting(c, iv, y, 0, [], iv)
  {
    assert y[0..] == y;
  }

  lemma DecryptingStep(c: Keyed, iv: seq<Byte>, y: seq<Byte>, i: nat, done: seq<Byte>, cbc: seq<Byte>)
    requires Decrypting(c, iv, y, i, done, cbc) && i + c.size <= |y| && |cbc| == c.size && (|y| - i - c.size) % c.size == 0
    requires |c.dec(y[i..i + c.size])| == c.size
    ensures Decrypting(c, iv, y, i + c.size, done + XorBytes(c.dec(y[i..i + c.size]), cbc), y[i..i + c.size])
  {
    hide XorByte, XorBytes, CbcDec;
    var q := y[i..];
    var b := y[i..i + c.size];
    assert q[..c.size] == b && q[c.size..] == y[i + c.size..];
    DecStep(c, cbc, q);
    var x := XorBytes(c.dec(b), cbc);
    assert done + (x + CbcDec(c, b, q[c.size..])) == (done + x) + CbcDec(c, b, q[c.size..]);
    assert y[..i + c.size][i..] == b;
  }

  lemma DecryptingDone(c: Keyed, iv: seq<Byte>, y: seq<Byte>, done: seq<Byte>, cbc: seq<Byte>)
    requires |iv| == c.size && Decrypting(c, iv, y, |y|, done, cbc)
    ensures |y| % c.size == 0 && CbcReady(c, iv) && done == CbcDec(c, iv, y) && cbc == LastBlock(c.size, iv, y)
  {
    assert y[..|y|] == y;
  }
}
