/** The RSA operations: the public one as one modular exponentiation, the private one by Chinese
    remaindering, both with an output of the modulus's width. */
module Rsa {
  import opened Arith
  import opened Bytes
  import opened Digits
  import opened MpInts
  import AddSub
  import Mul
  import opened Div
  import opened ExptMod
  import opened BinIO
  import opened NumberTheory

  /** The numbers of a key. */
  datatype Key = Key(isPrivate: bool, n: nat, e: nat, p: nat, q: nat, dmp1: nat, dmq1: nat, iqmp: nat)

  /** The key as the library holds it. */
  datatype RsaKey = RsaKey(isPrivate: bool, n: MpInt, e: MpInt, p: MpInt, q: MpInt,
                           dmp1: MpInt, dmq1: MpInt, iqmp: MpInt)
  {
    /** Key components come from unsigned octet strings. */
    ghost predicate Valid()
      reads n, e, p, q, dmp1, dmq1, iqmp
    {
      && n.Valid() && !n.neg && e.Valid() && !e.neg
      && p.Valid() && !p.neg && q.Valid() && !q.neg
      && dmp1.Valid() && !dmp1.neg && dmq1.Valid() && !dmq1.neg && iqmp.Valid() && !iqmp.neg
    }

    ghost function Values(): Key
      reads n, e, p, q, dmp1, dmq1, iqmp
      requires Valid()
    {
      Key(isPrivate, n.Val(), e.Val(), p.Val(), q.Val(), dmp1.Val(), dmq1.Val(), iqmp.Val())
    }
  }

  /** Can the operation be computed at all? */
  predicate Usable(k: Key, usePrivate: bool)
  {
    if usePrivate then k.isPrivate && k.p > 0 && k.q > 0 else k.n > 0
  }

  /** The private operation: powers modulo both primes, recombined. */
  function PrivateValue(k: Key, m: nat): (r: nat)
    requires k.p > 0 && k.q > 0
  {
    var a := PowerOut(m, k.dmp1, k.p);
    var b := PowerOut(m, k.dmq1, k.q);
    var h := ((a - b) * k.iqmp) % k.p;
    PowerOutIsResidue(m, k.dmq1, k.q);
    MulLe(0, h, k.q);
    h * k.q + b
  }

  function PublicValue(k: Key, m: nat): (r: nat)
    requires k.n > 0
  {
    PowerOutIsResidue(m, k.e, k.n);
    PowerOut(m, k.e, k.n)
  }

  function RsaValue(k: Key, m: nat, usePrivate: bool): nat
    requires Usable(k, usePrivate)
  {
    if usePrivate then PrivateValue(k, m) else PublicValue(k, m)
  }

  function ModLen(k: Key): nat
  {
    |ValBytes(k.n)|
  }

  datatype Outcome = Refused | TooSmall(need: nat) | Done(output: seq<Byte>)

  /** What crypto_rsa_exptmod does with an input number and the room it is given. */
  function RsaOutcome(k: Key, m: nat, room: nat, usePrivate: bool): Outcome
  {
    if !Usable(k, usePrivate) || k.n < m then Refused
    else if ModLen(k) > room then TooSmall(ModLen(k))
    else
      var v := RsaValue(k, m, usePrivate);
      if |ValBytes(v)| > ModLen(k) then Refused else Done(Fixed(v, ModLen(k)))
  }

  /** mp_mulmod: d = a * b mod c. */
  method MulMod(a: MpInt, b: MpInt, c: MpInt, d: MpInt) returns (st: Status)
    requires a.Valid() && b.Valid() && c.Valid() && d.Valid()
    modifies d
    ensures st == Invalid <==> old(c.Val()) == 0
    ensures d.Valid() && (st == Okay ==> d.Val() == old(Residue(a.Val() * b.Val(), c.Val())))
    ensures st == Invalid ==> unchanged(d)
  {
    hide MpInt.Wf, Residue;
    var t := new MpInt();
    Mul.Product(a, b, t);
    st := Mod(t, c, d);
  }

  /** The recombination: tmp = ((a - b) * iqmp mod p) * q + b. */
  method Recombine(a: MpInt, b: MpInt, tmp: MpInt, key: RsaKey)
    requires key.Valid() && key.p.Val() > 0 && a.Valid() && b.Valid() && tmp.Valid()
    requires tmp !in {a, b, key.p, key.q, key.iqmp}
    modifies tmp
    ensures tmp.Valid()
    ensures tmp.Val() == (((a.Val() - b.Val()) * key.iqmp.Val()) % key.p.Val()) * key.q.Val() + b.Val()
  {
    hide MpInt.Wf, Residue, MpInt.Valid;
    AddSub.Sub(a, b, tmp);
    ResidueIsMod(tmp.Val() * key.iqmp.Val(), key.p.Val());
    var st := MulMod(tmp, key.iqmp, key.p, tmp);
    Mul.Product(tmp, key.q, tmp);
    AddSub.Add(tmp, b, tmp);
  }

  lemma NonNegative(a: MpInt)
    requires a.Valid()
    ensures a.neg <==> a.Val() < 0
    ensures !a.neg ==> a.Val() == a.Mag()
  {
  }

  lemma KeySigns(key: RsaKey)
    requires key.Valid()
    ensures key.p.Val() >= 0 && key.q.Val() >= 0 && key.n.Val() >= 0
    ensures key.dmp1.Val() == key.dmp1.Mag() && key.dmq1.Val() == key.dmq1.Mag() && key.e.Val() == key.e.Mag()
  {
  }

  /** The two powers of the private branch, one for each prime. */
  method PrivatePowers(tmp: MpInt, key: RsaKey) returns (ok: bool, a: MpInt, b: MpInt)
    requires key.Valid() && tmp.Valid() && tmp.Val() >= 0
    ensures fresh(a) && fresh(b) && a.Valid() && b.Valid()
    ensures ok <==> key.p.Val() > 0 && key.q.Val() > 0
    ensures ok ==> a.Val() == PowerOut(tmp.Val(), key.dmp1.Mag(), key.p.Val())
    ensures ok ==> b.Val() == PowerOut(tmp.Val(), key.dmq1.Mag(), key.q.Val())
  {
    hide MpInt.Wf, MpInt.Valid, PowerOut;
    KeySigns(key);
    a := new MpInt();
    b := new MpInt();
    ok := false;
    var st := ExptModBits(tmp, key.dmp1, key.p, a);
    if st == Okay {
      st := ExptModBits(tmp, key.dmq1, key.q, b);
      ok := st == Okay;
    }
  }

  /** The private branch. */
  method PrivateOperation(tmp: MpInt, key: RsaKey) returns (ok: bool)
    requires key.Valid() && tmp.Valid() && tmp.Val() >= 0 && key.isPrivate
    requires tmp !in {key.n, key.e, key.p, key.q, key.dmp1, key.dmq1, key.iqmp}
    modifies tmp
    ensures key.Valid() && key.Values() == old(key.Values())
    ensures ok <==> Usable(key.Values(), true)
    ensures tmp.Valid() && (ok ==> tmp.Val() == PrivateValue(key.Values(), old(tmp.Val())))
  {
    hide MpInt.Wf, MpInt.Valid, PowerOut, PrivateValue;
    ghost var k, m := key.Values(), tmp.Val();
    KeySigns(key);
    var a, b;
    ok, a, b := PrivatePowers(tmp, key);
    if ok {
      PrivateParts(k, m, a.Val(), b.Val());
      Recombine(a, b, tmp, key);
    }
  }

  lemma PrivateParts(k: Key, m: nat, a: int, b: int)
    requires k.p > 0 && k.q > 0 && a == PowerOut(m, k.dmp1, k.p) && b == PowerOut(m, k.dmq1, k.q)
    ensures PrivateValue(k, m) == (((a - b) * k.iqmp) % k.p) * k.q + b
  {
  }

  method PublicOperation(tmp: MpInt, key: RsaKey) returns (ok: bool)
    requires key.Valid() && tmp.Valid() && tmp.Val() >= 0
    requires tmp !in {key.n, key.e, key.p, key.q, key.dmp1, key.dmq1, key.iqmp}
    modifies tmp
    ensures key.Valid() && key.Values() == old(key.Values())
    ensures ok <==> Usable(key.Values(), false)
    ensures tmp.Valid() && (ok ==> tmp.Val() == PublicValue(key.Values(), old(tmp.Val())))
  {
    hide MpInt.Wf, MpInt.Valid, PowerOut;
    KeySigns(key);
    var st := ExptModBits(tmp, key.e, key.n, tmp);
    ok := st == Okay;
  }

  /** The output of crypto_rsa_exptmod: zeros, then the octets of the result at the end. */
  method FixedWidth(tmp: MpInt, out: array<Byte>, modlen: nat)
    requires tmp.Valid() && |ValBytes(tmp.Mag())| <= modlen <= out.Length
    modifies out
    ensures out[..modlen] == Fixed(tmp.Mag(), modlen) && out[modlen..] == old(out[modlen..])
  {
    hide MpInt.Wf, MpInt.Valid, ValBytes;
    ghost var rest := out[modlen..];
    var i := 0;
    while i < modlen
      invariant i <= modlen && out[modlen..] == rest && forall k :: 0 <= k < i ==> out[k] == 0
    {
      out[i] := 0;
      i := i + 1;
    }
    ghost var zeroed := out[..];
    var len := UnsignedBinSize(tmp);
    ToUnsignedBin(tmp, out, modlen - len);
    FixedSplice(zeroed, modlen, ValBytes(tmp.Mag()), rest);
  }

  lemma FixedSplice(buf: seq<Byte>, n: nat, v: seq<Byte>, rest: seq<Byte>)
    requires |v| <= n <= |buf| && buf[n..] == rest && forall k :: 0 <= k < n ==> buf[k] == 0
    ensures Spliced(buf, n - |v|, v)[..n] == Zeros(n - |v|) + v
    ensures Spliced(buf, n - |v|, v)[n..] == rest
  {
  }

  /** crypto_rsa_exptmod. The input may lie in the output buffer. */
  method RsaExptMod(inp: array<Byte>, inlen: nat, out: array<Byte>, outlen: nat, key: RsaKey, usePrivate: bool)
    returns (ok: bool, len: nat)
    requires key.Valid() && inlen <= inp.Length && outlen <= out.Length
    modifies out
    ensures key.Valid() && key.Values() == old(key.Values())
    ensures var o := old(RsaOutcome(key.Values(), BytesVal(inp[..inlen]), outlen, usePrivate));
            && (ok <==> o.Done?)
            && len == (match o case Refused => outlen case TooSmall(need) => need case Done(_) => ModLen(key.Values()))
            && (o.Done? ==> len <= outlen && out[..len] == o.output && out[len..] == old(out[len..]))
            && (!o.Done? ==> out[..] == old(out[..]))
  {
    hide MpInt.Wf, MpInt.Valid, BytesVal, ValBytes, RsaKey.Values, RsaValue, Fixed, Usable, RsaKey.Valid;
    ok, len := false, outlen;
    UsableNeedsPrivate(key);
    if usePrivate && !key.isPrivate {
      return;
    }
    var tmp := new MpInt();
    ReadUnsignedBin(tmp, inp[..inlen]);
    ghost var k, m := key.Values(), tmp.Val();
    ModulusOf(key);
    var cmp := Cmp(key.n, tmp);
    if cmp == Lt {
      return;
    }
    var done := Operation(tmp, key, usePrivate);
    if !done {
      return;
    }
    var modlen := UnsignedBinSize(key.n);
    if modlen > outlen {
      len := modlen;
      return;
    }
    var size := UnsignedBinSize(tmp);
    if size > modlen {
      return;
    }
    len := modlen;
    FixedWidth(tmp, out, modlen);
    ok := true;
  }

  method Operation(tmp: MpInt, key: RsaKey, usePrivate: bool) returns (ok: bool)
    requires key.Valid() && tmp.Valid() && tmp.Val() >= 0 && (usePrivate ==> key.isPrivate)
    requires tmp !in {key.n, key.e, key.p, key.q, key.dmp1, key.dmq1, key.iqmp}
    modifies tmp
    ensures key.Valid() && key.Values() == old(key.Values()) && key.n.Valid()
    ensures ok <==> Usable(key.Values(), usePrivate)
    ensures tmp.Valid() && (ok ==> tmp.Mag() == RsaValue(key.Values(), old(tmp.Val()), usePrivate))
  {
    hide MpInt.Wf, MpInt.Valid, Usable, PublicValue, PrivateValue;
    if usePrivate {
      ok := PrivateOperation(tmp, key);
    } else {
      ok := PublicOperation(tmp, key);
    }
    NonNegative(tmp);
  }

  lemma ModulusOf(key: RsaKey)
    requires key.Valid()
    ensures key.n.Valid() && key.n.Val() == key.n.Mag() == key.Values().n
  {
  }

  lemma UsableNeedsPrivate(key: RsaKey)
    requires key.Valid()
    ensures Usable(key.Values(), true) ==> key.isPrivate
  {
  }

  // ---------------------------------------------------------------- the two operations undo each other

  /** A consistent RSA key. */
  ghost predicate GoodKey(k: Key)
  {
    && Prime(k.p) && Prime(k.q) && k.p > 2 && k.q > 2 && k.n == k.p * k.q && k.isPrivate
    && (k.e * k.dmp1) % (k.p - 1) == 1 && (k.e * k.dmq1) % (k.q - 1) == 1
    && (k.iqmp * k.q) % k.p == 1
  }

  /** There are such keys. */
  lemma SmallKey()
    ensures GoodKey(Key(true, 33, 3, 3, 11, 1, 7, 2))
  {
    PrimeElevenThree();
  }

  lemma PrimeElevenThree()
    ensures Prime(3) && Prime(11)
  {
    forall d | 1 < d < 11
      ensures 11 % d != 0
    {
      assert d == 2 || d == 3 || d == 4 || d == 5 || d == 6 || d == 7 || d == 8 || d == 9 || d == 10;
    }
  }

  /** The recombined value agrees with both parts and stays below the modulus. */
  lemma ChineseRemainder(a: nat, b: nat, i: nat, p: nat, q: nat)
    requires a < p && b < q && (i * q) % p == 1 % p
    ensures var r := (((a - b) * i) % p) * q + b;
            0 <= r < p * q && r % p == a && r % q == b
  {
    var t := (a - b) * i;
    var h := t % p;
    DivModEq(t, p);
    MulLe(0, h, q);
    MulLe(h + 1, p, q);
    assert (h + 1) * q == h * q + q;
    DivModUnique(h * q + b, q, h, b);
    RecombinedModP(a, b, i, p, q, t, h);
  }

  lemma RecombinedModP(a: int, b: int, i: int, p: int, q: int, t: int, h: int)
    requires 0 <= a < p && (i * q) % p == 1 % p && t == (a - b) * i && h == t % p
    ensures (h * q + b) % p == a
  {
    MulAssoc(a - b, i, q);
    ModMod(t, p);
    CongScale(h, t, q, p);
    CongScale(i * q, 1, a - b, p);
    assert (a - b) * (i * q) == (i * q) * (a - b);
    CongAdd(h * q, a - b, b, b, p);
    ModSmall(a, p);
  }

  /** Residues of the private result, for any input. */
  lemma PrivateResidues(k: Key, m: nat)
    requires GoodKey(k)
    ensures PrivateValue(k, m) < k.n
    ensures PrivateValue(k, m) % k.p == Pow(m, k.dmp1) % k.p
    ensures PrivateValue(k, m) % k.q == Pow(m, k.dmq1) % k.q
  {
    hide GoodKey, PowerOut, PrivateValue, Prime;
    GoodParts(k);
    GoodModulus(k);
    PowerOutIsResidue(m, k.dmp1, k.p);
    PowerOutIsResidue(m, k.dmq1, k.q);
    PrivateParts(k, m, PowerOut(m, k.dmp1, k.p), PowerOut(m, k.dmq1, k.q));
    ChineseRemainder(PowerOut(m, k.dmp1, k.p), PowerOut(m, k.dmq1, k.q), k.iqmp, k.p, k.q);
  }

  lemma GoodModulus(k: Key)
    requires GoodKey(k)
    ensures k.n > 1 && Usable(k, true) && Usable(k, false)
    ensures (k.iqmp * k.q) % k.p == 1 % k.p
  {
    MulLt(1, k.p, k.q);
    ModSmall(1, k.p);
  }

  /** Decrypting what was encrypted. */
  lemma PrivateAfterPublic(k: Key, m: nat)
    requires GoodKey(k)
    ensures k.n > 0 && PrivateValue(k, PublicValue(k, m)) == m % k.n
  {
    hide GoodKey, PowerOut, PublicValue, PrivateValue;
    GoodModulus(k);
    var c := PublicValue(k, m);
    PublicResidue(k, m);
    PrivateResidues(k, c);
    var r := PrivateValue(k, c);
    GoodParts(k);
    ResidueOfFactor(c, Pow(m, k.e), k.p, k.q);
    ResidueOfFactor(c, Pow(m, k.e), k.q, k.p);
    PowCong(c, Pow(m, k.e), k.dmp1, k.p);
    PowCong(c, Pow(m, k.e), k.dmq1, k.q);
    ExponentsUndo(m, k.p, k.e, k.dmp1);
    ExponentsUndo(m, k.q, k.e, k.dmq1);
    AgreeModProduct(r, m, k.p, k.q, k.iqmp);
    ModSmall(r, k.n);
  }

  lemma GoodParts(k: Key)
    requires GoodKey(k)
    ensures Prime(k.p) && Prime(k.q) && k.p > 2 && k.q > 2 && k.n == k.p * k.q == k.q * k.p
    ensures (k.e * k.dmp1) % (k.p - 1) == 1 && (k.e * k.dmq1) % (k.q - 1) == 1
    ensures (k.dmp1 * k.e) % (k.p - 1) == 1 && (k.dmq1 * k.e) % (k.q - 1) == 1
    ensures k.n > 0
  {
    GoodModulus(k);
    assert k.e * k.dmp1 == k.dmp1 * k.e && k.e * k.dmq1 == k.dmq1 * k.e;
  }

  lemma PublicResidue(k: Key, m: nat)
    requires GoodKey(k)
    ensures k.n > 0 && PublicValue(k, m) < k.n && PublicValue(k, m) % k.n == Pow(m, k.e) % k.n
  {
    GoodModulus(k);
    PowerOutIsResidue(m, k.e, k.n);
    ModMod(Pow(m, k.e), k.n);
  }

  /** Agreement modulo a product is agreement modulo a factor. */
  lemma ResidueOfFactor(x: int, y: int, p: int, q: int)
    requires p > 0 && q > 0 && p * q > 0 && x % (p * q) == y % (p * q)
    ensures x % p == y % p
  {
    var k := CongWitness(x, y, p * q);
    assert k * (p * q) == (k * q) * p by { MulAssoc(k, q, p); }
    ModAddMultiple(y, k * q, p);
  }

  /** Verifying what was signed. */
  lemma PublicAfterPrivate(k: Key, m: nat)
    requires GoodKey(k)
    ensures k.n > 0 && PublicValue(k, PrivateValue(k, m)) == m % k.n
  {
    hide GoodKey, PowerOut, PublicValue, PrivateValue;
    GoodModulus(k);
    GoodParts(k);
    var s := PrivateValue(k, m);
    PrivateResidues(k, m);
    PublicResidue(k, s);
    var r := PublicValue(k, s);
    ResidueOfFactor(r, Pow(s, k.e), k.p, k.q);
    ResidueOfFactor(r, Pow(s, k.e), k.q, k.p);
    PowCong(s, Pow(m, k.dmp1), k.e, k.p);
    PowCong(s, Pow(m, k.dmq1), k.e, k.q);
    ExponentsUndo(m, k.p, k.dmp1, k.e);
    ExponentsUndo(m, k.q, k.dmq1, k.e);
    AgreeModProduct(r, m, k.p, k.q, k.iqmp);
    ModSmall(r, k.n);
  }

  /** The exit for an oversized result is never taken: with room for the modulus every number the size
      check lets through (the modulus itself included) gives an output. */
  lemma AlwaysFits(k: Key, m: nat, room: nat, usePrivate: bool)
    requires GoodKey(k)
    ensures RsaOutcome(k, m, room, usePrivate).Done? <==> m <= k.n && ModLen(k) <= room
    ensures Usable(k, usePrivate) && RsaValue(k, m, usePrivate) < k.n
  {
    hide GoodKey, PowerOut, PublicValue, PrivateValue, ValBytes, Usable;
    GoodModulus(k);
    PublicResidue(k, m);
    PrivateResidues(k, m);
    ShorterFits(RsaValue(k, m, usePrivate), k.n);
  }

  lemma ShorterFits(v: nat, n: nat)
    requires v <= n
    ensures |ValBytes(v)| <= |ValBytes(n)|
  {
    ValBytesSize(n, |ValBytes(n)|);
    ValBytesSize(v, |ValBytes(n)|);
  }

  /** Every outcome, for any key: what is refused, what has too little room, and otherwise the number in the modulus's
      width. */
  lemma OutcomeIs(k: Key, m: nat, room: nat, usePrivate: bool)
    ensures var o := RsaOutcome(k, m, room, usePrivate);
            if (usePrivate && !(k.isPrivate && k.p > 0 && k.q > 0)) || (!usePrivate && k.n == 0) || k.n < m then o == Refused
            else if k.n >= Pow(256, room)
            then o.TooSmall? && Pow(256, o.need) > k.n && (o.need > 0 ==> Pow(256, o.need - 1) <= k.n)
            else
              && Usable(k, usePrivate)
              && var v := RsaValue(k, m, usePrivate);
                 match o
                 case TooSmall(_) => false
                 case Refused => v >= Pow(256, |ValBytes(k.n)|)
                 case Done(output) => |output| == |ValBytes(k.n)| <= room && BytesVal(output) == v
  {
    hide PrivateValue, PublicValue, ValBytes, BytesVal, Fixed;
    var n := |ValBytes(k.n)|;
    ValBytesSize(k.n, room);
    ValBytesSize(k.n, n);
    if n > 0 {
      ValBytesSize(k.n, n - 1);
    }
    if Usable(k, usePrivate) {
      var v := RsaValue(k, m, usePrivate);
      ValBytesSize(v, n);
      if |ValBytes(v)| <= n {
        FixedVal(v, n);
      }
    }
  }

  /** One operation after the other, on octets: the input comes back exactly when it is below the modulus.
      (The size check also lets the modulus itself through, which comes back as zero.) */
  lemma RoundTrip(k: Key, m: nat, room: nat, usePrivate: bool)
    requires GoodKey(k) && m <= k.n && ModLen(k) <= room
    ensures RsaOutcome(k, m, room, usePrivate).Done?
    ensures var c := RsaOutcome(k, m, room, usePrivate).output;
            var back := RsaOutcome(k, BytesVal(c), room, !usePrivate);
            back.Done? && (BytesVal(back.output) == m <==> m < k.n)
              && (m < k.n ==> |ValBytes(m)| <= ModLen(k) && back.output == Fixed(m, ModLen(k)))
  {
    hide GoodKey, PowerOut, PublicValue, PrivateValue, ValBytes, Usable, Fixed, BytesVal;
    AlwaysFits(k, m, room, usePrivate);
    var c := RsaValue(k, m, usePrivate);
    FixedVal(c, ModLen(k));
    AlwaysFits(k, c, room, !usePrivate);
    PrivateAfterPublic(k, m);
    PublicAfterPrivate(k, m);
    var r := RsaValue(k, c, !usePrivate);
    FixedVal(r, ModLen(k));
    if m < k.n {
      ModSmall(m, k.n);
      ShorterFits(m, k.n);
    } else {
      DivModEq(m, k.n);
    }
  }
}
