/** The record layer object: cipher suite selection, key change, sending and receiving. */
module RecordLayers {
  import Arith
  import opened Bytes
  import opened Cipher
  import opened Options
  import opened Record

  // ---------------------------------------------------------------- cipher suites

  datatype KeyExchange = NoKx | RsaKx | DheRsaKx | DhAnonKx

  /** A row of the cipher suite table joined with its row of the cipher table. A suite without a hash
      keeps the record layer's hash setting. */
  datatype Suite = Suite(kx: KeyExchange, alg: Alg, keyLen: nat, blockSize: nat, mac: Option<MacAlg>)

  const NULL_SUITE: nat := 0

  /** tls_get_cipher_suite and tls_get_cipher_data; the single-DES suites are left out. */
  function SuiteData(suite: nat): (s: Option<Suite>)
    ensures s.Some? ==> var t := s.value;
              && (t.alg == Null <==> suite == NULL_SUITE) && (t.alg == Null <==> t.mac.None?)
              && (t.alg == Rc4Alg ==> t.keyLen == 16 && t.blockSize == 0)
              && (t.alg == Aes ==> (t.keyLen == 16 || t.keyLen == 32) && t.blockSize == 16)
              && (t.alg == TripleDes ==> t.keyLen == 24 && t.blockSize == 8)
              && (t.alg == Null ==> t.keyLen == 0 && t.blockSize == 0)
  {
    match suite
    case 0x0000 => Some(Suite(NoKx, Null, 0, 0, None))
    case 0x0004 => Some(Suite(RsaKx, Rc4Alg, 16, 0, Some(HmacMd5)))
    case 0x0005 => Some(Suite(RsaKx, Rc4Alg, 16, 0, Some(HmacSha1)))
    case 0x000a => Some(Suite(RsaKx, TripleDes, 24, 8, Some(HmacSha1)))
    case 0x0016 => Some(Suite(DheRsaKx, TripleDes, 24, 8, Some(HmacSha1)))
    case 0x0018 => Some(Suite(DhAnonKx, Rc4Alg, 16, 0, Some(HmacMd5)))
    case 0x001b => Some(Suite(DhAnonKx, TripleDes, 24, 8, Some(HmacSha1)))
    case 0x002f => Some(Suite(RsaKx, Aes, 16, 16, Some(HmacSha1)))
    case 0x0033 => Some(Suite(DheRsaKx, Aes, 16, 16, Some(HmacSha1)))
    case 0x0034 => Some(Suite(DhAnonKx, Aes, 16, 16, Some(HmacSha1)))
    case 0x0035 => Some(Suite(RsaKx, Aes, 32, 16, Some(HmacSha1)))
    case 0x0039 => Some(Suite(DheRsaKx, Aes, 32, 16, Some(HmacSha1)))
    case 0x003a => Some(Suite(DhAnonKx, Aes, 32, 16, Some(HmacSha1)))
    case 0x003c => Some(Suite(RsaKx, Aes, 16, 16, Some(HmacSha256)))
    case 0x003d => Some(Suite(RsaKx, Aes, 32, 16, Some(HmacSha256)))
    case 0x0067 => Some(Suite(DheRsaKx, Aes, 16, 16, Some(HmacSha256)))
    case 0x006b => Some(Suite(DheRsaKx, Aes, 32, 16, Some(HmacSha256)))
    case 0x006c => Some(Suite(DhAnonKx, Aes, 16, 16, Some(HmacSha256)))
    case 0x006d => Some(Suite(DhAnonKx, Aes, 32, 16, Some(HmacSha256)))
    case _ => None
  }

  /** The table by columns: which suites use what for key exchange, encryption and MAC. */
  lemma SuiteColumns(suite: nat)
    requires SuiteData(suite).Some?
    ensures var t := SuiteData(suite).value;
            && (t.kx == NoKx <==> suite == 0)
            && (t.kx == DheRsaKx <==> suite in {0x0016, 0x0033, 0x0039, 0x0067, 0x006b})
            && (t.kx == DhAnonKx <==> suite in {0x0018, 0x001b, 0x0034, 0x003a, 0x006c, 0x006d})
            && (t.alg == Rc4Alg <==> suite in {0x0004, 0x0005, 0x0018})
            && (t.alg == TripleDes <==> suite in {0x000a, 0x0016, 0x001b})
            && (t.alg == Null <==> suite == 0)
            && (t.alg == Aes ==> t.keyLen == if suite in {0x0035, 0x0039, 0x003a, 0x003d, 0x006b, 0x006d} then 32 else 16)
            && (t.mac == Some(HmacMd5) <==> suite in {0x0004, 0x0018})
            && (t.mac == Some(HmacSha256) <==> 0x003c <= suite <= 0x006d)
            && (t.mac == None <==> suite == 0)
            && (t.mac.Some? ==> MacLen(t.mac.value) == if suite >= 0x003c then 32 else if t.mac == Some(HmacMd5) then 16 else 20)
  {
  }

  /** Which suites there are. */
  lemma SuiteRows(suite: nat)
    ensures SuiteData(suite).Some? <==>
              suite in {0x0000, 0x0004, 0x0005, 0x000a, 0x0016, 0x0018, 0x001b, 0x002f, 0x0033, 0x0034, 0x0035, 0x0039,
                        0x003a, 0x003c, 0x003d, 0x0067, 0x006b, 0x006c, 0x006d}
  {
  }

  /** The state a fresh cipher context starts in. */
  ghost function FreshState(prim: Primitives, alg: Alg, iv: seq<Byte>, key: seq<Byte>): CipherState
    requires |iv| == 16
  {
    match alg
    case Aes => Chained(prim.aes(key), iv[..16])
    case TripleDes => Chained(prim.tripleDes(key), iv[..8])
    case _ => Stream(key, 0)
  }

  /** crypto_cipher_init. */
  method CipherInit(prim: Primitives, alg: Alg, iv: seq<Byte>, key: seq<Byte>, keyLen: nat) returns (ctx: CryptoCipher?)
    requires prim.Sound() && |iv| == 16 && keyLen <= |key| && (alg == Rc4Alg ==> keyLen > 0)
    ensures ctx == null <==> match alg
                             case Null => true
                             case Rc4Alg => keyLen > 16
                             case Aes => keyLen != 16 && keyLen != 24 && keyLen != 32
                             case TripleDes => keyLen != 24
    ensures ctx != null ==> fresh(ctx) && ctx.Valid() && ctx.State() == FreshState(prim, alg, iv, key[..keyLen])
    ensures ctx != null ==> ctx.alg == alg
    ensures ctx != null && alg == Rc4Alg ==> ctx.State() == Stream(key[..keyLen], 0)
    ensures ctx != null && alg == Aes ==> ctx.State() == Chained(prim.aes(key[..keyLen]), iv)
    ensures ctx != null && alg == TripleDes ==> ctx.State() == Chained(prim.tripleDes(key[..keyLen]), iv[..8])
  {
    assert iv[..16] == iv;
    hide Primitives.Sound, Keyed.Invertible;
    ctx := null;
    SoundBlocks(prim, key[..keyLen]);
    match alg {
      case Null =>
      case Rc4Alg =>
        if keyLen <= 16 {
          ctx := new CryptoCipher(Rc4Alg, key[..keyLen], Keyed(b => b, b => b, 1), []);
        }
      case Aes =>
        if keyLen == 16 || keyLen == 24 || keyLen == 32 {
          ctx := new CryptoCipher(Aes, [], prim.aes(key[..keyLen]), iv[..16]);
        }
      case TripleDes =>
        if keyLen == 24 {
          ctx := new CryptoCipher(TripleDes, [], prim.tripleDes(key[..keyLen]), iv[..8]);
        }
    }
  }

  lemma SoundBlocks(prim: Primitives, key: seq<Byte>)
    requires prim.Sound()
    ensures |key| == 16 || |key| == 24 || |key| == 32 ==> prim.aes(key).Invertible(16)
    ensures |key| == 24 ==> prim.tripleDes(key).Invertible(8)
  {
  }

  /** src written over the start of dst. */
  function Overlay(dst: seq<Byte>, src: seq<Byte>): (r: seq<Byte>)
    requires |src| <= |dst|
    ensures |r| == |dst| && r[..|src|] == src
  {
    src + dst[|src|..]
  }

  // ---------------------------------------------------------------- the object

  class RecordLayer {
    const prim: Primitives
    var tlsVersion: nat
    var writeMacSecret: seq<Byte>
    var readMacSecret: seq<Byte>
    var writeKey: seq<Byte>
    var readKey: seq<Byte>
    var writeIv: seq<Byte>
    var readIv: seq<Byte>
    var hashSize: nat
    var keyMaterialLen: nat
    var ivSize: nat
    var macAlg: MacAlg
    var cipherAlg: Alg
    var writeSeqNum: seq<Byte>
    var readSeqNum: seq<Byte>
    var cipherSuite: nat
    var writeCipherSuite: nat
    var readCipherSuite: nat
    var writeCbc: CryptoCipher?
    var readCbc: CryptoCipher?

    /** The fixed-size fields, and a configuration that comes from the suite table. */
    ghost predicate Valid()
      reads this
    {
      && prim.Sound() && VERSION_1 <= tlsVersion <= VERSION_1_2
      && |writeMacSecret| == 32 && |readMacSecret| == 32 && |writeKey| == 32 && |readKey| == 32
      && |writeIv| == 16 && |readIv| == 16 && |writeSeqNum| == 8 && |readSeqNum| == 8
      && hashSize <= 32
      && (cipherAlg != Null ==> hashSize == MacLen(macAlg))
      && match cipherAlg
         case Null => ivSize == 0 && keyMaterialLen == 0
         case Rc4Alg => ivSize == 0 && keyMaterialLen == 16
         case Aes => ivSize == 16 && (keyMaterialLen == 16 || keyMaterialLen == 32)
         case TripleDes => ivSize == 8 && keyMaterialLen == 24
    }

    /** The configured suite is in use in this direction. */
    ghost predicate WriteReady()
      reads this, writeCbc
      ensures WriteReady() ==> CanWrite()
    {
      && Valid()
      && (writeCipherSuite != NULL_SUITE ==>
            writeCbc != null && writeCbc.Valid() && writeCbc.alg == cipherAlg && hashSize == MacLen(macAlg))
    }

    ghost predicate ReadReady()
      reads this, readCbc
      ensures ReadReady() ==> CanRead()
    {
      && Valid()
      && (readCipherSuite != NULL_SUITE ==>
            readCbc != null && readCbc.Valid() && readCbc.alg == cipherAlg && hashSize == MacLen(macAlg))
    }

    ghost function Settings(): Params
      reads this`tlsVersion, this`ivSize, this`macAlg
    {
      Params(prim, tlsVersion, ivSize, macAlg)
    }

    /** As much of it as a writing state needs. */
    ghost predicate CanWrite()
      reads this`writeCipherSuite, this`writeCbc, this`writeMacSecret, this`hashSize
    {
      hashSize <= |writeMacSecret| && (writeCipherSuite != NULL_SUITE ==> writeCbc != null)
    }

    ghost function Writing(): Direction
      reads this`writeCipherSuite, this`writeCbc, this`writeMacSecret, this`hashSize, this`writeSeqNum, writeCbc
      requires CanWrite()
    {
      Direction(if writeCipherSuite == NULL_SUITE then None else Some(writeCbc.State()),
                writeMacSecret[..hashSize], writeSeqNum)
    }

    /** As much of it as a reading state needs. */
    ghost predicate CanRead()
      reads this`readCipherSuite, this`readCbc, this`readMacSecret, this`hashSize
    {
      hashSize <= |readMacSecret| && (readCipherSuite != NULL_SUITE ==> readCbc != null)
    }

    ghost function Reading(): Direction
      reads this`readCipherSuite, this`readCbc, this`readMacSecret, this`hashSize, this`readSeqNum, readCbc
      requires CanRead()
    {
      Direction(if readCipherSuite == NULL_SUITE then None else Some(readCbc.State()),
                readMacSecret[..hashSize], readSeqNum)
    }

    /** A zeroed record layer, as allocated with the connection. */
    constructor (prim: Primitives)
      requires prim.Sound()
      ensures WriteReady() && ReadReady() && this.prim == prim
      ensures writeCipherSuite == readCipherSuite == cipherSuite == NULL_SUITE && tlsVersion == VERSION_1_2
      ensures writeCbc == null && readCbc == null
    {
      hide Primitives.Sound, Keyed.Invertible;
      this.prim := prim;
      tlsVersion := VERSION_1_2;
      writeMacSecret, readMacSecret, writeKey, readKey := Zeros(32), Zeros(32), Zeros(32), Zeros(32);
      writeIv, readIv := Zeros(16), Zeros(16);
      hashSize, keyMaterialLen, ivSize := 0, 0, 0;
      macAlg, cipherAlg := HmacMd5, Null;
      writeSeqNum, readSeqNum := Zeros(8), Zeros(8);
      cipherSuite, writeCipherSuite, readCipherSuite := NULL_SUITE, NULL_SUITE, NULL_SUITE;
      writeCbc, readCbc := null, null;
    }

    /** tlsv1_record_set_cipher_suite. */
    method SetCipherSuite(suite: nat) returns (ok: bool)
      requires Valid()
      modifies this`cipherSuite, this`macAlg, this`hashSize, this`keyMaterialLen, this`ivSize, this`cipherAlg
      ensures Valid() && cipherSuite == suite && (ok <==> SuiteData(suite).Some?)
      ensures ok ==> Configured()
      ensures !ok ==> macAlg == old(macAlg) && hashSize == old(hashSize) && cipherAlg == old(cipherAlg)
    {
      hide SuiteData, Primitives.Sound;
      cipherSuite := suite;
      var s := SuiteData(suite);
      if s.None? {
        return false;
      }
      match s.value.mac {
        case None =>
        case Some(m) =>
          macAlg := m;
          hashSize := MacLen(m);
      }
      keyMaterialLen := s.value.keyLen;
      ivSize := s.value.blockSize;
      cipherAlg := s.value.alg;
      ok := true;
    }

    /** The parameters are those of the suite. */
    predicate Configured()
      reads this`cipherSuite, this`cipherAlg, this`keyMaterialLen, this`ivSize, this`macAlg, this`hashSize
    {
      && SuiteData(cipherSuite).Some?
      && var s := SuiteData(cipherSuite).value;
         && cipherAlg == s.alg && keyMaterialLen == s.keyLen && ivSize == s.blockSize
         && (s.mac.Some? ==> macAlg == s.mac.value && hashSize == MacLen(macAlg))
    }

    /** How many octets of key material the configured suite needs; only TLS 1.0 derives initial vectors. */
    function KeyBlockLen(): nat
      reads this`hashSize, this`keyMaterialLen, this`ivSize, this`tlsVersion
    {
      2 * (hashSize + keyMaterialLen) + if tlsVersion == VERSION_1 then 2 * ivSize else 0
    }

    /** The key block dealt out: MAC secrets, keys, and in TLS 1.0 initialization vectors, each for writing
        and then for reading. */
    ghost predicate KeyedBy(block: seq<Byte>)
      reads this`hashSize, this`keyMaterialLen, this`ivSize, this`tlsVersion, this`writeMacSecret, this`readMacSecret
      reads this`writeKey, this`readKey, this`writeIv, this`readIv
    {
      var h, k, v := hashSize, keyMaterialLen, ivSize;
      var w := 2 * h + 2 * k;
      && |block| == KeyBlockLen() && |writeMacSecret| >= h && |readMacSecret| >= h
      && |writeKey| >= k && |readKey| >= k && |writeIv| >= v && |readIv| >= v
      && writeMacSecret[..h] == block[..h] && readMacSecret[..h] == block[h..2 * h]
      && writeKey[..k] == block[2 * h..2 * h + k] && readKey[..k] == block[2 * h + k..w]
      && (tlsVersion == VERSION_1 ==> writeIv[..v] == block[w..w + v] && readIv[..v] == block[w + v..w + 2 * v])
    }

    method DealIvs(block: seq<Byte>, w: nat)
      requires Valid() && |block| == KeyBlockLen() && w == 2 * hashSize + 2 * keyMaterialLen
      modifies this`writeIv, this`readIv
      ensures Valid()
      ensures tlsVersion == VERSION_1 ==>
                writeIv[..ivSize] == block[w..w + ivSize] && readIv[..ivSize] == block[w + ivSize..w + 2 * ivSize]
    {
      hide Primitives.Sound;
      if tlsVersion == VERSION_1 {
        writeIv := Overlay(writeIv, block[w..w + ivSize]);
        readIv := Overlay(readIv, block[w + ivSize..w + 2 * ivSize]);
      } else {
        writeIv := Overlay(writeIv, Zeros(ivSize));
      }
    }

    /** The second half of tls_derive_keys. */
    method DealKeys(block: seq<Byte>)
      requires Valid() && |block| == KeyBlockLen()
      modifies this`writeMacSecret, this`readMacSecret, this`writeKey, this`readKey, this`writeIv, this`readIv
      ensures Valid() && KeyedBy(block)
    {
      hide Primitives.Sound, Overlay, KeyedBy;
      var h, k := hashSize, keyMaterialLen;
      var w := 2 * h + 2 * k;
      writeMacSecret := Overlay(writeMacSecret, block[..h]);
      readMacSecret := Overlay(readMacSecret, block[h..2 * h]);
      writeKey := Overlay(writeKey, block[2 * h..2 * h + k]);
      readKey := Overlay(readKey, block[2 * h + k..w]);
      DealIvs(block, w);
      KeyedIs(this, block, w);
    }

    /** The dealt fields are long enough for the configured suite. */
    ghost predicate KeysFit()
      reads this`writeIv, this`readIv, this`writeKey, this`readKey, this`writeMacSecret, this`readMacSecret
      reads this`keyMaterialLen, this`hashSize
    {
      && |writeIv| == |readIv| == 16 && keyMaterialLen <= |writeKey| && keyMaterialLen <= |readKey|
      && hashSize <= |writeMacSecret| && hashSize <= |readMacSecret|
    }

    /** A direction in which the configured suite has just been put to use: the keys that were dealt, and no record
        yet. */
    ghost function FreshWriting(): Direction
      reads this`writeIv, this`readIv, this`writeKey, this`readKey, this`writeMacSecret, this`readMacSecret
      reads this`keyMaterialLen, this`hashSize, this`cipherAlg, this`cipherSuite
      requires KeysFit()
    {
      Direction(if cipherSuite == NULL_SUITE then None
                else Some(FreshState(prim, cipherAlg, writeIv, writeKey[..keyMaterialLen])),
                writeMacSecret[..hashSize], Zeros(8))
    }

    ghost function FreshReading(): Direction
      reads this`writeIv, this`readIv, this`writeKey, this`readKey, this`writeMacSecret, this`readMacSecret
      reads this`keyMaterialLen, this`hashSize, this`cipherAlg, this`cipherSuite
      requires KeysFit()
    {
      Direction(if cipherSuite == NULL_SUITE then None
                else Some(FreshState(prim, cipherAlg, readIv, readKey[..keyMaterialLen])),
                readMacSecret[..hashSize], Zeros(8))
    }

    /** tlsv1_record_change_write_cipher. */
    method ChangeWriteCipher() returns (ok: bool)
      requires Valid() && (cipherSuite != NULL_SUITE ==> cipherAlg != Null)
      modifies this`writeCipherSuite, this`writeSeqNum, this`writeCbc
      ensures ok && WriteReady() && writeCipherSuite == cipherSuite
      ensures writeCbc == null || fresh(writeCbc)
      ensures KeysFit() && Writing() == FreshWriting()
      ensures writeSeqNum == [0, 0, 0, 0, 0, 0, 0, 0]
      ensures writeCbc == null <==> cipherAlg == Null
      ensures cipherAlg == Rc4Alg ==> writeCbc.State() == Stream(writeKey[..keyMaterialLen], 0)
      ensures cipherAlg == Aes ==> writeCbc.State() == Chained(prim.aes(writeKey[..keyMaterialLen]), writeIv)
      ensures cipherAlg == TripleDes ==> writeCbc.State() == Chained(prim.tripleDes(writeKey[..keyMaterialLen]), writeIv[..8])
    {
      hide Primitives.Sound, Keyed.Invertible;
      writeCipherSuite := cipherSuite;
      writeSeqNum := Zeros(8);
      writeCbc := null;
      if cipherAlg != Null {
        writeCbc := CipherInit(prim, cipherAlg, writeIv, writeKey, keyMaterialLen);
        if writeCbc == null {
          return false;
        }
      }
      ok := true;
    }

    /** tlsv1_record_change_read_cipher. */
    method ChangeReadCipher() returns (ok: bool)
      requires Valid() && (cipherSuite != NULL_SUITE ==> cipherAlg != Null)
      modifies this`readCipherSuite, this`readSeqNum, this`readCbc
      ensures ok && ReadReady() && readCipherSuite == cipherSuite
      ensures readCbc == null || fresh(readCbc)
      ensures KeysFit() && Reading() == FreshReading()
      ensures readSeqNum == [0, 0, 0, 0, 0, 0, 0, 0]
      ensures readCbc == null <==> cipherAlg == Null
      ensures cipherAlg == Rc4Alg ==> readCbc.State() == Stream(readKey[..keyMaterialLen], 0)
      ensures cipherAlg == Aes ==> readCbc.State() == Chained(prim.aes(readKey[..keyMaterialLen]), readIv)
      ensures cipherAlg == TripleDes ==> readCbc.State() == Chained(prim.tripleDes(readKey[..keyMaterialLen]), readIv[..8])
    {
      hide Primitives.Sound, Keyed.Invertible;
      readCipherSuite := cipherSuite;
      readSeqNum := Zeros(8);
      readCbc := null;
      if cipherAlg != Null {
        readCbc := CipherInit(prim, cipherAlg, readIv, readKey, keyMaterialLen);
        if readCbc == null {
          return false;
        }
      }
      ok := true;
    }

    /** The record up to and including the payload: header, explicit initialization vector, fragment. */
    method WriteFragment(ct: Byte, buf: array<Byte>, bufSize: nat, payload: seq<Byte>, rnd: seq<Byte>)
      returns (ok: bool, pos: nat)
      requires Valid() && bufSize <= buf.Length && |rnd| == ivSize
      modifies buf
      ensures var iv := if writeCipherSuite != NULL_SUITE && ExplicitIv(Settings()) then rnd else [];
              && (ok <==> HEADER_LEN + |iv| + |payload| <= bufSize)
              && (ok ==> pos == HEADER_LEN + |iv| + |payload| && buf[..HEADER_LEN] == Header(ct, tlsVersion, |payload|)
                         && buf[HEADER_LEN..pos] == iv + payload)
    {
      hide Primitives.Sound;
      pos := 0;
      if HEADER_LEN > bufSize {
        return false, 0;
      }
      CopyBlock(Header(ct, tlsVersion, |payload|), buf, 0);
      pos := HEADER_LEN;
      assert buf[0..HEADER_LEN] == buf[..HEADER_LEN];
      var explicitIv := writeCipherSuite != NULL_SUITE && ivSize != 0 && tlsVersion >= VERSION_1_1;
      if explicitIv {
        if pos + ivSize > bufSize {
          return false, pos;
        }
        CopyBlock(rnd, buf, pos);
        pos := pos + ivSize;
      }
      ghost var front := buf[HEADER_LEN..pos];
      if pos + |payload| > bufSize {
        return false, pos;
      }
      CopyBlock(payload, buf, pos);
      assert buf[HEADER_LEN..pos + |payload|] == front + payload;
      pos := pos + |payload|;
      ok := true;
    }

    /** The final length field, in place. */
    method PatchLength(buf: array<Byte>, len: nat)
      requires HEADER_LEN <= buf.Length
      modifies buf
      ensures forall ct: Byte, version: nat, n: nat ::
                old(buf[..HEADER_LEN]) == Header(ct, version, n) ==> buf[..HEADER_LEN] == Header(ct, version, len)
      ensures buf[HEADER_LEN..] == old(buf[HEADER_LEN..])
    {
      buf[3] := BE16(len)[0];
      buf[4] := BE16(len)[1];
    }

    /** MAC, padding and encryption of a record whose fragment is written. */
    method Protect(ct: Byte, buf: array<Byte>, bufSize: nat, pos0: nat, payload: seq<Byte>, ghost rnd: seq<Byte>)
      returns (ok: bool, pos: nat)
      requires WriteReady() && ValidDirection(Settings(), Writing()) && writeCipherSuite != NULL_SUITE
      requires HEADER_LEN <= pos0 <= bufSize <= buf.Length && |rnd| == ivSize
      requires buf[..HEADER_LEN] == Header(ct, tlsVersion, |payload|)
      requires buf[HEADER_LEN..pos0] == (if ExplicitIv(Settings()) then rnd else []) + payload
      modifies writeCbc, buf
      ensures WriteReady() && buf[..HEADER_LEN] == old(buf[..HEADER_LEN])
      ensures var body := old(Body(Settings(), Writing(), ct, payload, rnd));
              && (ok <==> HEADER_LEN + |body| <= bufSize)
              && (ok ==> pos == HEADER_LEN + |body| && buf[HEADER_LEN..pos] == body
                         && Writing() == old(Writing()).(cipher := Some(old(writeCbc.State()).Advanced(body))))
      ensures !ok ==> Writing() == old(Writing())
    {
      hide Primitives.Sound, Keyed.Invertible, CipherState.Encrypted, CipherState.Advanced, CipherState.Accepts,
           CipherState.Valid, Body, WithPadding, Padding, PadLen, LastBlock, BlockSize;
      BodyParts(Settings(), Writing(), ct, payload, rnd);
      var mac := prim.hmac(macAlg, writeMacSecret[..hashSize], writeSeqNum + buf[..HEADER_LEN] + payload);
      ok, pos := AppendMac(buf, bufSize, pos0, mac, ivSize);
      if ok {
        var len := pos - HEADER_LEN;
        var done := writeCbc.Encrypt(buf, HEADER_LEN, len);
        assert HEADER_LEN + len == pos;
      }
    }

    /** tlsv1_record_send; rnd is what the random source delivers for an explicit initialization vector. */
    method Send(ct: Byte, buf: array<Byte>, bufSize: nat, payload: seq<Byte>, rnd: seq<Byte>)
      returns (ok: bool, outLen: nat)
      requires WriteReady() && bufSize <= buf.Length && |rnd| == ivSize && ValidDirection(Settings(), Writing())
      modifies this`writeSeqNum, writeCbc, buf
      ensures WriteReady() && Settings() == old(Settings())
      ensures var body := old(Body(Settings(), Writing(), ct, payload, rnd));
              && (ok <==> HEADER_LEN + |body| <= bufSize)
              && (ok ==> outLen == HEADER_LEN + |body|
                         && buf[..outLen] == old(RecordOf(Settings(), Writing(), ct, payload, rnd))
                         && Writing() == old(Stepped(Settings(), Writing(), Body(Settings(), Writing(), ct, payload, rnd))))
      ensures !ok ==> Writing() == old(Writing())
    {
      hide Primitives.Sound, Keyed.Invertible, CipherState.Encrypted, CipherState.Advanced, CipherState.Accepts,
           CipherState.Valid, Body, WithPadding, Header, BlockSize;
      outLen := 0;
      var pos;
      BodyParts(Settings(), Writing(), ct, payload, rnd);
      ok, pos := WriteFragment(ct, buf, bufSize, payload, rnd);
      if !ok {
        return;
      }
      if writeCipherSuite != NULL_SUITE {
        ok, pos := Protect(ct, buf, bufSize, pos, payload, rnd);
        if !ok {
          return;
        }
      }
      ghost var body := buf[HEADER_LEN..pos];
      PatchLength(buf, pos - HEADER_LEN);
      assert buf[HEADER_LEN..pos] == buf[HEADER_LEN..][..pos - HEADER_LEN] == body;
      writeSeqNum := Incremented(writeSeqNum);
      outLen := pos;
      assert buf[..outLen] == buf[..HEADER_LEN] + body;
    }

    /** Explicit initialization vector and padding are taken off; force says that they were wrong, in which
        case the MAC check still runs. */
    method StripPadding(out: array<Byte>, len: nat) returns (force: bool, plen: nat)
      requires Valid() && len <= out.Length
      modifies out
      ensures var f := Fragment(Settings(), old(out[..len]));
              && (force <==> f.None?) && plen <= len
              && (!force ==> plen == |f.value| && out[..plen] == f.value)
    {
      hide Primitives.Sound;
      plen := len;
      force := false;
      if ivSize == 0 {
        return;
      }
      if tlsVersion >= VERSION_1_1 {
        if plen < ivSize {
          return true, plen;
        }
        MoveDown(out, ivSize, plen - ivSize);
        plen := plen - ivSize;
      }
      force, plen := CheckPadding(out, plen);
    }

    /** The MAC over what is left; its place is behind the payload. */
    method CheckMac(out: array<Byte>, plen0: nat, type3: seq<Byte>, force: bool) returns (ok: bool, plen: nat)
      requires ReadReady() && readCipherSuite != NULL_SUITE && plen0 <= out.Length
      ensures var a := Authentic(Settings(), Reading(), type3, out[..plen0]);
              && (ok <==> !force && a.Some?)
              && (ok ==> plen == |a.value| <= plen0 && out[..plen] == a.value)
    {
      plen := plen0;
      if plen < hashSize {
        return false, plen;
      }
      plen := plen - hashSize;
      var mac := prim.hmac(macAlg, readMacSecret[..hashSize], readSeqNum + (type3 + BE16(plen)) + out[..plen]);
      assert |mac| == hashSize;
      hide Primitives.Sound;
      assert out[..plen0][..plen] == out[..plen] && out[..plen0][plen..] == out[plen..plen0];
      ok := mac == out[plen..plen + hashSize] && !force;
    }

    /** Decryption and all checks of a complete protected record body. */
    method Unprotect(inp: array<Byte>, pos: nat, rlen: nat, out: array<Byte>)
      returns (decrypted: bool, ok: bool, plen: nat)
      requires ReadReady() && readCipherSuite != NULL_SUITE && inp != out && rlen <= out.Length
      requires HEADER_LEN <= pos && pos + rlen <= inp.Length
      modifies readCbc, out
      ensures ReadReady() && Reading().macKey == old(Reading()).macKey && Reading().seqNum == old(Reading()).seqNum
      ensures var c := old(readCbc.State());
              && c.Valid() && (decrypted <==> c.Accepts(rlen))
              && (decrypted ==>
                    var o := Opened(Settings(), old(Reading()), inp[pos - HEADER_LEN..pos - 2], c.Decrypted(inp[pos..pos + rlen]));
                    && (ok <==> o.Some?)
                    && (ok ==> plen == |o.value| <= out.Length && out[..plen] == o.value)
                    && readCbc.State() == c.Advanced(inp[pos..pos + rlen]))
    {
      hide Primitives.Sound, Keyed.Invertible, CipherState.Decrypted, CipherState.Advanced, CipherState.Accepts,
           BlockSize, Fragment, Authentic, CipherState.Valid;
      ghost var d := Reading();
      ok, plen := false, 0;
      decrypted := readCbc.Decrypt(inp, pos, out, rlen);
      if decrypted {
        var force;
        force, plen := StripPadding(out, rlen);
        AuthenticAlike(Settings(), d, Reading(), inp[pos - HEADER_LEN..pos - 2], out[..plen]);
        ok, plen := CheckMac(out, plen, inp[pos - HEADER_LEN..pos - 2], force);
      }
    }

    /** The checks of tlsv1_record_receive and the decryption between them. */
    method CheckRecord(inp: array<Byte>, pos: nat, inLen: nat, out: array<Byte>, outMax: nat)
      returns (used: int, outLen: nat, alert: Byte)
      requires ReadReady() && inp != out && pos + inLen <= inp.Length && outMax <= out.Length
      requires ValidDirection(Settings(), Reading())
      modifies this`readSeqNum, readCbc, out
      ensures ReadReady() && Settings() == old(Settings())
      ensures match old(Receipt(Settings(), Reading(), inp[pos..pos + inLen], outMax))
              case NeedMore => used == 0 && Reading() == old(Reading())
              case Bad(a) => used == -1 && alert == a && readSeqNum == old(readSeqNum)
              case Good(n, ct, payload, next) =>
                used == n && outLen == |payload| <= out.Length && out[..outLen] == payload && Reading() == next
    {
      hide Primitives.Sound, Keyed.Invertible, CipherState.Decrypted, CipherState.Advanced, CipherState.Accepts,
           BlockSize, Opened, CipherState.Valid, Framing;
      outLen, alert := 0, 0;
      var frame := CheckFrame(inp, pos, inLen, outMax);
      if frame.Incomplete? {
        return 0, outLen, alert;
      }
      if frame.Refused? {
        return -1, outLen, frame.alert;
      }
      var rlen := frame.rlen;
      var start := pos + HEADER_LEN;
      SubSlice(inp[..], pos, inLen, HEADER_LEN, HEADER_LEN + rlen);
      SubSlice(inp[..], pos, inLen, 0, 3);
      if readCipherSuite != NULL_SUITE {
        var decrypted, ok;
        decrypted, ok, outLen := Unprotect(inp, start, rlen, out);
        if !decrypted {
          return -1, outLen, ALERT_DECRYPTION_FAILED;
        }
        if !ok {
          return -1, outLen, ALERT_BAD_RECORD_MAC;
        }
      } else {
        CopyBlock(inp[start..start + rlen], out, 0);
        assert out[0..rlen] == out[..rlen];
        outLen := rlen;
      }
      if HEADER_LEN + outLen > 17408 {
        return -1, outLen, ALERT_RECORD_OVERFLOW;
      }
      readSeqNum := Incremented(readSeqNum);
      used := HEADER_LEN + rlen;
    }

    /** tlsv1_record_receive: at position pos of the input. The result is the number of octets used, 0 for an
        incomplete record, -1 with an alert on failure. */
    method Receive(inp: array<Byte>, pos: nat, inLen: nat, out: array<Byte>, outMax: nat)
      returns (used: int, outLen: nat, alert: Byte)
      requires ReadReady() && inp != out && pos + inLen <= inp.Length && outMax <= out.Length
      requires ValidDirection(Settings(), Reading())
      modifies this`readSeqNum, readCbc, out
      ensures ReadReady() && Settings() == old(Settings())
      ensures match old(Receipt(Settings(), Reading(), inp[pos..pos + inLen], outMax))
              case NeedMore => used == 0 && Reading() == old(Reading())
              case Bad(a) => used == -1 && alert == a && readSeqNum == old(readSeqNum)
              case Good(n, ct, payload, next) =>
                used == n && outLen == |payload| <= out.Length && out[..outLen] == payload && Reading() == next
      ensures used > 0 ==> 5 <= used <= inLen && outLen <= out.Length
      ensures used > 0 && readCipherSuite != NULL_SUITE ==>
                old(readCbc.State().Valid()) && old(readCbc.State()).Accepts(used - 5) && hashSize <= |readMacSecret|
      ensures used > 0 && readCipherSuite != NULL_SUITE ==>
                var input := inp[pos..pos + inLen];
                var m := old(readCbc.State()).Decrypted(input[5..used]);
                var mac := prim.hmac(macAlg, readMacSecret[..hashSize],
                                     old(readSeqNum) + input[..3] + BE16(outLen) + out[..outLen]);
                var start := if tlsVersion >= 0x0302 then ivSize else 0;
                var end := start + outLen + |mac|;
                && end <= |m| && m[start..end] == out[..outLen] + mac
                && if ivSize == 0 then end == |m| else end < |m| && forall k :: end <= k < |m| ==> m[k] == |m| - end - 1
    {
      hide Primitives.Sound, Keyed.Invertible, CipherState.Decrypted, CipherState.Advanced, CipherState.Accepts,
           CipherState.Valid, Receipt, BE16;
      ghost var p, d, input := Settings(), Reading(), inp[pos..pos + inLen];
      ValidSettings(this);
      if d.cipher.Some? && Receipt(p, d, input, outMax).Good? {
        DeliveredIs(p, d, input, outMax);
      }
      used, outLen, alert := CheckRecord(inp, pos, inLen, out, outMax);
    }
  }

  /** The key block as the peer deals it, with the two of each pair exchanged. */
  function Crossed(block: seq<Byte>, h: nat, k: nat): (r: seq<Byte>)
    requires 2 * h + 2 * k <= |block| && (|block| - 2 * h - 2 * k) % 2 == 0
    ensures |r| == |block|
  {
    var w := 2 * h + 2 * k;
    var v := (|block| - w) / 2;
    block[h..2 * h] + block[..h] + block[2 * h + k..w] + block[2 * h..2 * h + k] + block[w + v..] + block[w..w + v]
  }

  lemma CrossedParts(block: seq<Byte>, h: nat, k: nat, v: nat)
    requires |block| == 2 * h + 2 * k + 2 * v
    ensures var c, w := Crossed(block, h, k), 2 * h + 2 * k;
            && c[..h] == block[h..2 * h] && c[h..2 * h] == block[..h]
            && c[2 * h..2 * h + k] == block[2 * h + k..w] && c[2 * h + k..w] == block[2 * h..2 * h + k]
            && c[w..w + v] == block[w + v..w + 2 * v] && c[w + v..w + 2 * v] == block[w..w + v]
  {
  }

  /** Two record layers agree on the suite and the version. */
  ghost predicate Agreed(a: RecordLayer, b: RecordLayer)
    reads a`tlsVersion, a`ivSize, a`macAlg, a`cipherSuite, a`cipherAlg, a`hashSize, a`keyMaterialLen
    reads b`tlsVersion, b`ivSize, b`macAlg, b`cipherSuite, b`cipherAlg, b`hashSize, b`keyMaterialLen
  {
    && a.Settings() == b.Settings() && a.cipherAlg == b.cipherAlg && a.hashSize == b.hashSize
    && a.keyMaterialLen == b.keyMaterialLen && a.cipherSuite == b.cipherSuite
    && (a.cipherSuite != NULL_SUITE ==> a.cipherAlg != Null)
  }

  /** Fresh contexts with one key belong together; from TLS 1.1 on their initialization vectors may differ. */
  lemma SameKey(p: Params, alg: Alg, w: seq<Byte>, r: seq<Byte>, key: seq<Byte>, mac: seq<Byte>)
    requires |w| == |r| == 16 && alg != Null && p.ivSize == (match alg case Aes => 16 case TripleDes => 8 case _ => 0)
    requires if p.version == VERSION_1 then w[..p.ivSize] == r[..p.ivSize] else p.version >= VERSION_1_1
    requires ValidDirection(p, Direction(Some(FreshState(p.prim, alg, w, key)), mac, Zeros(8)))
    requires ValidDirection(p, Direction(Some(FreshState(p.prim, alg, r, key)), mac, Zeros(8)))
    ensures Mirrored(p, Direction(Some(FreshState(p.prim, alg, w, key)), mac, Zeros(8)),
                     Direction(Some(FreshState(p.prim, alg, r, key)), mac, Zeros(8)))
  {
    hide ValidDirection;
  }

  /** Both ends have dealt the same key block, each from its side: what the second reads with is what the first
      writes with. */
  lemma EndsMeet(a: RecordLayer, b: RecordLayer, block: seq<Byte>)
    requires a.Valid() && b.Valid() && a.KeysFit() && b.KeysFit() && Agreed(a, b)
    requires (a.KeyedBy(block) && b.KeyedBy(Crossed(block, a.hashSize, a.keyMaterialLen)))
             || (b.KeyedBy(block) && a.KeyedBy(Crossed(block, a.hashSize, a.keyMaterialLen)))
    ensures Mirrored(a.Settings(), a.FreshWriting(), b.FreshReading())
  {
    hide Primitives.Sound, Keyed.Invertible, Crossed, FreshState, ValidDirection;
    FreshValid(a);
    FreshValid(b);
    var k := a.keyMaterialLen;
    CrossedParts(block, a.hashSize, k, if a.tlsVersion == VERSION_1 then a.ivSize else 0);
    if a.cipherSuite == NULL_SUITE {
      assert a.FreshWriting() == b.FreshReading();
    } else {
      SameKey(a.Settings(), a.cipherAlg, a.writeIv, b.readIv, a.writeKey[..k], a.writeMacSecret[..a.hashSize]);
    }
  }

  lemma FreshValid(rl: RecordLayer)
    requires rl.Valid() && rl.KeysFit() && (rl.cipherSuite != NULL_SUITE ==> rl.cipherAlg != Null)
    ensures ValidDirection(rl.Settings(), rl.FreshWriting()) && ValidDirection(rl.Settings(), rl.FreshReading())
  {
    hide Keyed.Invertible, Primitives.Sound;
    SoundBlocks(rl.prim, rl.writeKey[..rl.keyMaterialLen]);
    SoundBlocks(rl.prim, rl.readKey[..rl.keyMaterialLen]);
  }

  /** The configured suite is in use for writing, and there was no record yet. */
  ghost predicate WritesFresh(rl: RecordLayer)
    reads rl, rl.writeCbc
  {
    rl.WriteReady() && rl.KeysFit() && rl.Writing() == rl.FreshWriting()
  }

  ghost predicate ReadsFresh(rl: RecordLayer)
    reads rl, rl.readCbc
  {
    rl.ReadReady() && rl.KeysFit() && rl.Reading() == rl.FreshReading()
  }

  /** Everything but the reading direction. */
  datatype Fixed = Fixed(
    settings: Params, cipherSuite: nat, cipherAlg: Alg, hashSize: nat, keyMaterialLen: nat,
    writeMacSecret: seq<Byte>, readMacSecret: seq<Byte>, writeKey: seq<Byte>, readKey: seq<Byte>,
    writeIv: seq<Byte>, readIv: seq<Byte>, writeCipherSuite: nat, writeSeqNum: seq<Byte>, sending: Option<CipherState>)

  ghost function FixedPart(rl: RecordLayer): Fixed
    reads rl`tlsVersion, rl`ivSize, rl`macAlg, rl`cipherSuite, rl`cipherAlg, rl`hashSize, rl`keyMaterialLen
    reads rl`writeMacSecret, rl`readMacSecret, rl`writeKey, rl`readKey, rl`writeIv, rl`readIv
    reads rl`writeCipherSuite, rl`writeSeqNum, rl`writeCbc, rl.writeCbc
  {
    Fixed(rl.Settings(), rl.cipherSuite, rl.cipherAlg, rl.hashSize, rl.keyMaterialLen, rl.writeMacSecret, rl.readMacSecret,
          rl.writeKey, rl.readKey, rl.writeIv, rl.readIv, rl.writeCipherSuite, rl.writeSeqNum,
          if rl.writeCbc == null then None else Some(rl.writeCbc.State()))
  }

  /** The suite's parameters are as they were. */
  ghost predicate SameConfig(f: Fixed, rl: RecordLayer)
    reads rl`tlsVersion, rl`ivSize, rl`macAlg, rl`cipherSuite, rl`cipherAlg, rl`hashSize, rl`keyMaterialLen
  {
    && rl.Settings() == f.settings && rl.cipherSuite == f.cipherSuite && rl.cipherAlg == f.cipherAlg
    && rl.hashSize == f.hashSize && rl.keyMaterialLen == f.keyMaterialLen
  }

  /** So are the keys that were dealt. */
  ghost predicate SameKeys(f: Fixed, rl: RecordLayer)
    reads rl`tlsVersion, rl`ivSize, rl`macAlg, rl`cipherSuite, rl`cipherAlg, rl`hashSize, rl`keyMaterialLen
    reads rl`writeMacSecret, rl`readMacSecret, rl`writeKey, rl`readKey, rl`writeIv, rl`readIv
  {
    && SameConfig(f, rl) && rl.writeMacSecret == f.writeMacSecret && rl.readMacSecret == f.readMacSecret
    && rl.writeKey == f.writeKey && rl.readKey == f.readKey && rl.writeIv == f.writeIv && rl.readIv == f.readIv
  }

  /** A record is the first one under the cipher put to use for writing. */
  ghost predicate FirstRecord(rl: RecordLayer, record: seq<Byte>, m: seq<Byte>, rnd: seq<Byte>)
    reads rl, rl.writeCbc
  {
    && rl.WriteReady() && rl.KeysFit() && ValidDirection(rl.Settings(), rl.FreshWriting())
    && |rnd| == rl.ivSize && |m| <= 16
    && record == RecordOf(rl.Settings(), rl.FreshWriting(), CT_HANDSHAKE, m, rnd)
    && rl.Writing() == Stepped(rl.Settings(), rl.FreshWriting(),
                               Body(rl.Settings(), rl.FreshWriting(), CT_HANDSHAKE, m, rnd))
  }

  /** Such a record ends what was sent. */
  ghost predicate EndsFresh(rl: RecordLayer, sent: seq<Byte>)
    reads rl, rl.writeCbc
  {
    exists front: seq<Byte>, record: seq<Byte>, m: seq<Byte>, rnd: seq<Byte> ::
      sent == front + record && FirstRecord(rl, record, m, rnd)
  }

  lemma EndsLater(rl: RecordLayer, first: seq<Byte>, second: seq<Byte>)
    requires EndsFresh(rl, second)
    ensures EndsFresh(rl, first + second)
  {
    hide FirstRecord;
    var front: seq<Byte>, record: seq<Byte>, m: seq<Byte>, rnd: seq<Byte> :|
      second == front + record && FirstRecord(rl, record, m, rnd);
    assert first + second == (first + front) + record;
  }

  lemma FirstEnds(rl: RecordLayer, d: Direction, record: seq<Byte>, m: seq<Byte>, rnd: seq<Byte>)
    requires rl.WriteReady() && rl.KeysFit() && d == rl.FreshWriting() && ValidDirection(rl.Settings(), d)
    requires |rnd| == rl.ivSize && |m| <= 16 && record == RecordOf(rl.Settings(), d, CT_HANDSHAKE, m, rnd)
    requires rl.Writing() == Stepped(rl.Settings(), d, Body(rl.Settings(), d, CT_HANDSHAKE, m, rnd))
    ensures EndsFresh(rl, record)
  {
    assert FirstRecord(rl, record, m, rnd) by {
      hide RecordOf, Stepped, Body, ValidDirection, RecordLayer.WriteReady, RecordLayer.FreshWriting;
    }
    hide FirstRecord;
    assert record == [] + record;
  }

  lemma KeyedIs(rl: RecordLayer, block: seq<Byte>, w: nat)
    requires rl.Valid() && |block| == rl.KeyBlockLen() && w == 2 * rl.hashSize + 2 * rl.keyMaterialLen
    requires rl.writeMacSecret[..rl.hashSize] == block[..rl.hashSize]
    requires rl.readMacSecret[..rl.hashSize] == block[rl.hashSize..2 * rl.hashSize]
    requires rl.writeKey[..rl.keyMaterialLen] == block[2 * rl.hashSize..2 * rl.hashSize + rl.keyMaterialLen]
    requires rl.readKey[..rl.keyMaterialLen] == block[2 * rl.hashSize + rl.keyMaterialLen..w]
    requires rl.tlsVersion == VERSION_1 ==>
               && rl.writeIv[..rl.ivSize] == block[w..w + rl.ivSize]
               && rl.readIv[..rl.ivSize] == block[w + rl.ivSize..w + 2 * rl.ivSize]
    ensures rl.KeyedBy(block)
  {
  }

  /** The key block against the fields, part by part. */
  lemma KeyedParts(rl: RecordLayer, block: seq<Byte>)
    requires rl.KeyedBy(block)
    ensures var h, k, v := rl.hashSize, rl.keyMaterialLen, rl.ivSize;
            && |block| == (if rl.tlsVersion == 0x0301 then 2 * (h + k + v) else 2 * (h + k))
            && |rl.writeMacSecret| >= h && |rl.readMacSecret| >= h && |rl.writeKey| >= k && |rl.readKey| >= k
            && |rl.writeIv| >= v && |rl.readIv| >= v
            && rl.writeMacSecret[..h] == block[..h] && rl.readMacSecret[..h] == block[h..2 * h]
            && rl.writeKey[..k] == block[2 * h..2 * h + k] && rl.readKey[..k] == block[2 * h + k..2 * (h + k)]
            && (rl.tlsVersion == 0x0301 ==>
                  rl.writeIv[..v] == block[2 * (h + k)..2 * (h + k) + v] && rl.readIv[..v] == block[2 * (h + k) + v..])
  {
  }

  lemma ValidSettings(rl: RecordLayer)
    requires rl.Valid()
    ensures ValidParams(rl.Settings())
  {
  }

  lemma WritingValid(rl: RecordLayer)
    requires rl.WriteReady()
    ensures ValidParams(rl.Settings()) && ValidDirection(rl.Settings(), rl.Writing())
  {
    hide Primitives.Sound, Keyed.Invertible;
    ValidSettings(rl);
  }

  lemma ReadingValid(rl: RecordLayer)
    requires rl.ReadReady()
    ensures ValidParams(rl.Settings()) && ValidDirection(rl.Settings(), rl.Reading())
  {
    hide Primitives.Sound, Keyed.Invertible;
    ValidSettings(rl);
  }

  lemma SubSlice(s: seq<Byte>, pos: nat, len: nat, a: nat, b: nat)
    requires pos + len <= |s| && a <= b <= len
    ensures s[pos..pos + len][a..b] == s[pos + a..pos + b]
  {
    var t := s[pos..pos + len];
    forall k | 0 <= k < b - a
      ensures t[a..b][k] == s[pos + a..pos + b][k]
    {
      assert t[a + k] == s[pos + (a + k)];
    }
  }

  /** The header checks. */
  method CheckFrame(inp: array<Byte>, pos: nat, inLen: nat, outMax: nat) returns (f: Frame)
    requires pos + inLen <= inp.Length
    ensures f == Framing(inp[pos..pos + inLen], outMax)
  {
    hide GetBE16;
    if inLen < HEADER_LEN {
      return Incomplete;
    }
    var ct := inp[pos];
    var rlen := GetBE16(inp[pos + 3..pos + 5]);
    SubSlice(inp[..], pos, inLen, 3, 5);
    if inp[pos + 1] != 3 {
      return Refused(ALERT_PROTOCOL_VERSION);
    }
    if HEADER_LEN + rlen > 18432 {
      return Refused(ALERT_RECORD_OVERFLOW);
    }
    if rlen > inLen - HEADER_LEN {
      return Incomplete;
    }
    if ct != CT_HANDSHAKE && ct != CT_CHANGE_CIPHER_SPEC && ct != CT_ALERT && ct != CT_APPLICATION_DATA {
      return Refused(ALERT_UNEXPECTED_MESSAGE);
    }
    if outMax < rlen {
      return Refused(ALERT_INTERNAL_ERROR);
    }
    f := Framed(rlen);
  }

  /** os_memmove to the front of the buffer. */
  method MoveDown(out: array<Byte>, pos: nat, len: nat)
    requires pos + len <= out.Length
    modifies out
    ensures out[..len] == old(out[pos..pos + len])
  {
    ghost var s := out[..];
    var i := 0;
    while i < len
      invariant 0 <= i <= len && forall k :: 0 <= k < i ==> out[k] == s[pos + k]
      invariant forall k :: i <= k < out.Length ==> out[k] == s[k]
    {
      out[i] := out[pos + i];
      i := i + 1;
    }
  }

  /** The padding check: every padding octet must hold the padding length. */
  method CheckPadding(out: array<Byte>, len: nat) returns (force: bool, plen: nat)
    requires len <= out.Length
    ensures var f := Unpadded(out[..len]);
            && (force <==> f.None?) && plen <= len
            && (!force ==> plen == |f.value| && out[..plen] == f.value)
  {
    plen := len;
    if plen == 0 {
      return true, plen;
    }
    var padlen := out[plen - 1];
    if padlen >= plen {
      return true, plen;
    }
    var i: nat := plen - padlen - 1;
    while i < plen - 1
      invariant plen - padlen - 1 <= i <= plen - 1
      invariant forall k :: plen - padlen - 1 <= k < i ==> out[k] == padlen
    {
      if out[i] != padlen {
        assert out[..len][i] != padlen;
        return true, plen;
      }
      i := i + 1;
    }
    assert forall k :: plen - padlen - 1 <= k < plen - 1 ==> out[..len][k] == padlen;
    plen := plen - padlen - 1;
    assert out[..len][..plen] == out[..plen];
    force := false;
  }

  /** MAC and padding behind the fragment. */
  method AppendMac(buf: array<Byte>, bufSize: nat, pos0: nat, mac: seq<Byte>, block: nat) returns (ok: bool, pos: nat)
    requires HEADER_LEN <= pos0 <= bufSize <= buf.Length && block <= 16
    modifies buf
    ensures var s := WithPadding(block, old(buf[HEADER_LEN..pos0]) + mac);
            && (ok <==> HEADER_LEN + |s| <= bufSize)
            && (ok ==> pos == HEADER_LEN + |s| && buf[HEADER_LEN..pos] == s)
    ensures buf[..HEADER_LEN] == old(buf[..HEADER_LEN])
  {
    pos := pos0;
    ghost var front := buf[HEADER_LEN..pos];
    if bufSize - pos < |mac| {
      return false, pos;
    }
    CopyBlock(mac, buf, pos);
    assert buf[HEADER_LEN..pos + |mac|] == front + mac;
    pos := pos + |mac|;
    if block != 0 {
      var len := pos - HEADER_LEN;
      var pad := (len + 1) % block;
      if pad != 0 {
        pad := block - pad;
      }
      if pos + pad + 1 > bufSize {
        return false, pos;
      }
      CopyBlock(Padding(pad), buf, pos);
      assert buf[HEADER_LEN..pos + pad + 1] == front + mac + Padding(pad);
      pos := pos + pad + 1;
    }
    ok := true;
  }

  /** A record body in the order its parts are written. */
  lemma BodyParts(p: Params, d: Direction, ct: Byte, payload: seq<Byte>, rnd: seq<Byte>)
    requires ValidParams(p) && ValidDirection(p, d) && |rnd| == p.ivSize
    ensures d.cipher.None? ==> Body(p, d, ct, payload, rnd) == payload
    ensures d.cipher.Some? ==>
              var iv := if ExplicitIv(p) then rnd else [];
              var mac := p.prim.hmac(p.macAlg, d.macKey, d.seqNum + Header(ct, p.version, |payload|) + payload);
              var plain := WithPadding(p.ivSize, iv + payload + mac);
              && |mac| == MacLen(p.macAlg)
              && d.cipher.value.Accepts(|plain|)
              && |Body(p, d, ct, payload, rnd)| == |plain| >= |iv| + |payload| + |mac|
              && Body(p, d, ct, payload, rnd) == d.cipher.value.Encrypted(plain)
  {
    hide Keyed.Invertible;
    if d.cipher.Some? {
      WholeRecord(p, d, ct, payload, rnd);
    }
  }
}
