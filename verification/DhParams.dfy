/** The server's ephemeral parameters as they are written in a ServerKeyExchange. */
module DhParameters {
  import Arith
  import opened Bytes
  import opened Options

  /** Diffie-Hellman parameters and public value of the server. */
  datatype Dh = Dh(p: seq<Byte>, g: seq<Byte>, ys: seq<Byte>)

  /** count_bits: the bit length of a big-endian number. */
  function CountBits(val: seq<Byte>): nat
  {
    if val == [] then 0
    else if val[0] == 0 then CountBits(val[1..])
    else (|val| - 1) * 8 + OctetBits(val[0])
  }

  function OctetBits(b: nat): nat
  {
    if b == 0 then 0 else 1 + OctetBits(b / 2)
  }

  /** A nonempty vector with a 16-bit length in front, out of at least three octets. */
  function Vector16(s: seq<Byte>): (v: Option<seq<Byte>>)
    ensures v.Some? ==> 0 < |v.value| <= |s| - 2
  {
    if |s| < 3 || GetBE16(s[..2]) == 0 || GetBE16(s[..2]) > |s| - 2 then None else Some(s[2..2 + GetBE16(s[..2])])
  }

  /** Such a vector, written out. */
  lemma VectorIff(s: seq<Byte>, v: seq<Byte>)
    ensures Vector16(s) == Some(v) <==> 0 < |v| < 0x1_0000 && |v| + 2 <= |s| && s[..|v| + 2] == BE16(|v|) + v
  {
    if |s| >= 2 {
      FieldsRead(s[..2]);
      assert s[..2][..2] == s[..2];
      if 0 < |v| < 0x1_0000 && |v| + 2 <= |s| && s[..|v| + 2] == BE16(|v|) + v {
        assert s[..2] == s[..|v| + 2][..2] == BE16(|v|);
        BE16RoundTrip(|v|);
        assert s[2..2 + |v|] == s[..|v| + 2][2..];
      }
      if Vector16(s) == Some(v) {
        ShortField(s[..2], |v|);
        assert s[..|v| + 2] == s[..2] + s[2..2 + |v|];
      }
    }
  }

  lemma ShortField(s: seq<Byte>, n: nat)
    requires |s| == 2 && GetBE16(s) == n
    ensures n < 0x1_0000 && s == BE16(n)
  {
    var a: nat, b: nat := s[0], s[1];
    Arith.DivModUnique(n, 256, a, b);
    Arith.ModSmall(a, 256);
  }

  /** The bit length against the number: more than n bits from two to the n on. */
  lemma {:induction false} BitLength(s: seq<Byte>, n: nat)
    ensures CountBits(s) > n <==> BytesVal(s) >= Arith.Pow(2, n)
  {
    hide OctetBits, Arith.Pow;
    PowPositive(n);
    if s == [] {
    } else if s[0] == 0 {
      FirstByte(s);
      BitLength(s[1..], n);
    } else {
      var m, k := |s| - 1, OctetBits(s[0]);
      OctetBounds(s[0]);
      FirstByte(s);
      BytesBelow(s[1..]);
      Arith.PowMul(2, 8, m);
      PowTwo8();
      TopOctet(s[0], k, m, BytesVal(s[1..]), BytesVal(s));
      if CountBits(s) > n {
        PowGrows(n, 8 * m + k - 1);
      } else {
        PowGrows(8 * m + k, n);
      }
    }
  }

  lemma PowPositive(n: nat)
    ensures Arith.Pow(2, n) > 0
  {
  }

  lemma PowTwo8()
    ensures Arith.Pow(2, 8) == 256
  {
    Arith.PowAdd(2, 4, 4);
    assert Arith.Pow(2, 4) == 16;
  }

  lemma {:induction false} PowGrows(m: nat, n: nat)
    requires m <= n
    ensures Arith.Pow(2, m) <= Arith.Pow(2, n)
  {
    if m < n {
      PowGrows(m, n - 1);
    }
  }

  lemma {:induction false} OctetBounds(b: nat)
    requires b > 0
    ensures OctetBits(b) > 0 && Arith.Pow(2, OctetBits(b) - 1) <= b < Arith.Pow(2, OctetBits(b))
  {
    if b > 1 {
      OctetBounds(b / 2);
    }
  }

  lemma TopOctet(b: nat, k: nat, m: nat, low: nat, v: nat)
    requires k > 0 && Arith.Pow(2, k - 1) <= b < Arith.Pow(2, k) && 0 <= low < Arith.Pow(256, m)
    requires Arith.Pow(256, m) == Arith.Pow(2, 8 * m) && v == b * Arith.Pow(256, m) + low
    ensures Arith.Pow(2, 8 * m + k - 1) <= v < Arith.Pow(2, 8 * m + k)
  {
    hide Arith.Pow;
    var p := Arith.Pow(256, m);
    Arith.PowAdd(2, k - 1, 8 * m);
    Arith.PowAdd(2, k, 8 * m);
    Arith.MulLe(Arith.Pow(2, k - 1), b, p);
    Arith.MulLe(b + 1, Arith.Pow(2, k), p);
    assert (b + 1) * p == b * p + p;
  }

  /** The parameters of a ServerKeyExchange and how many octets they take. */
  function DhParams(s: seq<Byte>): (r: Option<(Dh, nat)>)
    ensures r.Some? ==> r.value.1 <= |s|
  {
    var p := Vector16(s);
    if p.None? || CountBits(p.value) < 768 then None
    else
      var i := 2 + |p.value|;
      var g := Vector16(s[i..]);
      if g.None? || (|g.value| == 1 && g.value[0] < 2) then None
      else
        var j := i + 2 + |g.value|;
        var ys := Vector16(s[j..]);
        if ys.None? then None else Some((Dh(p.value, g.value, ys.value), j + 2 + |ys.value|))
  }

  /** What is accepted as parameters: prime, generator and public value, each not empty and with its length in front; the
      prime has at least 768 bits, and the generator is not 0 or 1 in one octet. */
  lemma ParamsIff(s: seq<Byte>, p: seq<Byte>, g: seq<Byte>, ys: seq<Byte>, n: nat)
    ensures DhParams(s) == Some((Dh(p, g, ys), n)) <==>
              && 0 < |p| < 0x1_0000 && 0 < |g| < 0x1_0000 && 0 < |ys| < 0x1_0000
              && n <= |s| && s[..n] == BE16(|p|) + p + BE16(|g|) + g + BE16(|ys|) + ys
              && BytesVal(p) >= Arith.Pow(2, 767) && !(|g| == 1 && g[0] < 2)
  {
    hide BE16, CountBits, BytesVal, Arith.Pow, Vector16, DhParams;
    BitLength(p, 767);
    ParamsSteps(s, p, g, ys, n);
    ThreeVectors(s, p, g, ys);
    Regrouped(BE16(|p|), p, BE16(|g|), g, BE16(|ys|), ys);
  }

  /** The three vectors, one after the other. */
  lemma ParamsSteps(s: seq<Byte>, p: seq<Byte>, g: seq<Byte>, ys: seq<Byte>, n: nat)
    ensures DhParams(s) == Some((Dh(p, g, ys), n)) <==>
              && Vector16(s) == Some(p) && CountBits(p) >= 768
              && Vector16(s[2 + |p|..]) == Some(g) && !(|g| == 1 && g[0] < 2)
              && 4 + |p| + |g| <= |s| && Vector16(s[4 + |p| + |g|..]) == Some(ys) && n == 6 + |p| + |g| + |ys|
  {
    hide CountBits;
  }

  lemma ThreeVectors(s: seq<Byte>, p: seq<Byte>, g: seq<Byte>, ys: seq<Byte>)
    ensures (Vector16(s) == Some(p) && Vector16(s[2 + |p|..]) == Some(g)
             && 4 + |p| + |g| <= |s| && Vector16(s[4 + |p| + |g|..]) == Some(ys))
       <==> && 0 < |p| < 0x1_0000 && 0 < |g| < 0x1_0000 && 0 < |ys| < 0x1_0000 && 6 + |p| + |g| + |ys| <= |s|
            && s[..6 + |p| + |g| + |ys|] == (BE16(|p|) + p) + (BE16(|g|) + g) + (BE16(|ys|) + ys)
  {
    hide BE16, Vector16;
    VectorIff(s, p);
    if 4 + |p| + |g| <= |s| {
      VectorIff(s[2 + |p|..], g);
      VectorIff(s[4 + |p| + |g|..], ys);
      ThreeParts(s, BE16(|p|) + p, BE16(|g|) + g, BE16(|ys|) + ys);
    }
  }

  lemma Regrouped(a: seq<Byte>, p: seq<Byte>, b: seq<Byte>, g: seq<Byte>, c: seq<Byte>, y: seq<Byte>)
    ensures a + p + b + g + c + y == (a + p) + (b + g) + (c + y)
  {
  }

  lemma ThreeParts(s: seq<Byte>, a: seq<Byte>, b: seq<Byte>, c: seq<Byte>)
    requires |a| + |b| <= |s|
    ensures |a| + |b| + |c| <= |s| && s[..|a| + |b| + |c|] == a + b + c
       <==> s[..|a|] == a && s[|a|..][..|b|] == b && |c| <= |s| - |a| - |b| && s[|a| + |b|..][..|c|] == c
  {
    var n := |a| + |b| + |c|;
    if n <= |s| {
      var t := s[..n];
      assert t[..|a|] == s[..|a|] && t[|a|..|a| + |b|] == s[|a|..][..|b|] && t[|a| + |b|..] == s[|a| + |b|..][..|c|];
      assert t == t[..|a|] + t[|a|..|a| + |b|] + t[|a| + |b|..];
      if t == a + b + c {
        assert t[..|a|] == a && t[|a|..|a| + |b|] == b && t[|a| + |b|..] == c;
      }
    }
  }
}
