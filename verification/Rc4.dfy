/** The RC4 stream cipher with a skipped prefix of the key stream, as the record layer uses it from call
    to call. */
module Rc4 {
  import Arith
  import opened Bytes
  import opened Xor

  /** Generator state: a permutation of the octets and the two indices. */
  datatype State = State(S: seq<Byte>, i: nat, j: nat)

  predicate Good(s: State)
  {
    |s.S| == 256 && s.i < 256 && s.j < 256
  }

  /** Addition of octets, as `(a + b) & 0xff`. */
  function Plus(a: int, b: int): Byte
  {
    (a + b) % 256
  }

  function Swapped(S: seq<Byte>, i: nat, j: nat): (r: seq<Byte>)
    requires i < |S| && j < |S|
    ensures |r| == |S|
  {
    S[i := S[j]][j := S[i]]
  }

  function Identity(): (S: seq<Byte>)
    ensures |S| == 256 && forall k :: 0 <= k < 256 ==> S[k] == k
  {
    seq(256, k requires 0 <= k < 256 => k)
  }

  /** The key schedule after n of its 256 rounds. */
  function Scheduled(key: seq<Byte>, n: nat): (s: State)
    requires |key| > 0 && n <= 256
    ensures |s.S| == 256 && s.j < 256
  {
    if n == 0 then State(Identity(), 0, 0)
    else
      var p := Scheduled(key, n - 1);
      var j := Plus(Plus(p.j, p.S[n - 1]), key[(n - 1) % |key|]);
      State(Swapped(p.S, n - 1, j), 0, j)
  }

  function Next(s: State): (r: State)
    requires Good(s)
    ensures Good(r)
  {
    var i := (s.i + 1) % 256;
    var j := Plus(s.j, s.S[i]);
    State(Swapped(s.S, i, j), i, j)
  }

  /** The state after n octets of key stream. */
  function After(key: seq<Byte>, n: nat): (s: State)
    requires |key| > 0
    ensures Good(s)
  {
    if n == 0 then State(Scheduled(key, 256).S, 0, 0) else Next(After(key, n - 1))
  }

  function Output(s: State): Byte
    requires Good(s)
  {
    s.S[Plus(s.S[s.i], s.S[s.j])]
  }

  /** Octets skip, skip + 1, ... of the key stream. */
  function KeyStream(key: seq<Byte>, skip: nat, n: nat): (r: seq<Byte>)
    requires |key| > 0
    ensures |r| == n
  {
    seq<Byte>(n, k requires 0 <= k < n => Output(After(key, skip + k + 1)))
  }

  /** What a call with skip does to its data. */
  function Crypted(key: seq<Byte>, skip: nat, data: seq<Byte>): (r: seq<Byte>)
    requires |key| > 0
    ensures |r| == |data|
  {
    XorBytes(data, KeyStream(key, skip, |data|))
  }

  /** The state is always a permutation: no octet occurs twice. */
  predicate Distinct(S: seq<Byte>)
  {
    forall a, b :: 0 <= a < b < |S| ==> S[a] != S[b]
  }

  lemma SwapDistinct(S: seq<Byte>, i: nat, j: nat)
    requires i < |S| && j < |S| && Distinct(S)
    ensures Distinct(Swapped(S, i, j))
  {
  }

  lemma {:induction false} ScheduleDistinct(key: seq<Byte>, n: nat)
    requires |key| > 0 && n <= 256
    ensures Distinct(Scheduled(key, n).S)
  {
    if n > 0 {
      ScheduleDistinct(key, n - 1);
      var p := Scheduled(key, n - 1);
      SwapDistinct(p.S, n - 1, Plus(Plus(p.j, p.S[n - 1]), key[(n - 1) % |key|]));
    }
  }

  lemma {:induction false} AlwaysPermutation(key: seq<Byte>, n: nat)
    requires |key| > 0
    ensures Distinct(After(key, n).S)
  {
    if n == 0 {
      ScheduleDistinct(key, 256);
    } else {
      AlwaysPermutation(key, n - 1);
      var s := After(key, n - 1);
      var i := (s.i + 1) % 256;
      SwapDistinct(s.S, i, Plus(s.j, s.S[i]));
    }
  }

  /** Applying the same stretch of key stream twice gives the data back. */
  lemma CryptTwice(key: seq<Byte>, skip: nat, data: seq<Byte>)
    requires |key| > 0
    ensures Crypted(key, skip, Crypted(key, skip, data)) == data
  {
    XorBytesTwice(data, KeyStream(key, skip, |data|));
  }

  /** Two calls, the second skipping what the first used, are one call. */
  lemma Continues(key: seq<Byte>, skip: nat, a: seq<Byte>, b: seq<Byte>)
    requires |key| > 0
    ensures Crypted(key, skip, a + b) == Crypted(key, skip, a) + Crypted(key, skip + |a|, b)
  {
  }

  /** RC4 written out: the key schedule starts from the identity and mixes in one key octet a round, */
  lemma ScheduleIs(key: seq<Byte>, n: nat)
    requires |key| > 0 && n < 256
    ensures Scheduled(key, 0).j == 0 && forall k {:trigger Scheduled(key, 0).S[k]} :: 0 <= k < 256 ==> Scheduled(key, 0).S[k] == k
    ensures var s := Scheduled(key, n);
            var x: int, k: int := s.S[n], key[n % |key|];
            var j := (s.j + x + k) % 256;
            Scheduled(key, n + 1).j == j && Scheduled(key, n + 1).S == s.S[n := s.S[j]][j := s.S[n]]
  {
    ScheduleStart(key);
    hide Scheduled;
    ScheduleStep(key, n);
    var s := Scheduled(key, n);
    SumOfThree(s.j, s.S[n], key[n % |key|]);
  }

  lemma ScheduleStart(key: seq<Byte>)
    requires |key| > 0
    ensures Scheduled(key, 0) == State(Identity(), 0, 0)
  {
  }

  lemma ScheduleStep(key: seq<Byte>, n: nat)
    requires |key| > 0 && n < 256
    ensures var s := Scheduled(key, n);
            var j := Plus(Plus(s.j, s.S[n]), key[n % |key|]);
            Scheduled(key, n + 1) == State(Swapped(s.S, n, j), 0, j)
  {
  }

  lemma SumOfThree(a: int, b: int, c: int)
    ensures Plus(Plus(a, b), c) == (a + b + c) % 256
  {
  }

  /** the generator starts from the scheduled permutation with both indices zero and swaps once an octet, */
  lemma GeneratorIs(key: seq<Byte>, n: nat)
    requires |key| > 0
    ensures After(key, 0) == State(Scheduled(key, 256).S, 0, 0)
    ensures var s := After(key, n);
            var i := (s.i + 1) % 256;
            var x: int := s.S[i];
            var j := (s.j + x) % 256;
            After(key, n + 1) == State(s.S[i := s.S[j]][j := s.S[i]], i, j)
  {
    hide Scheduled;
    AfterStart(key);
    AfterStep(key, n);
  }

  /** and every octet of the data is masked with the entry that the two swapped ones add up to. */
  lemma CryptedAt(key: seq<Byte>, skip: nat, data: seq<Byte>, k: nat)
    requires |key| > 0 && k < |data|
    ensures var s := After(key, skip + k + 1);
            var x: int, y: int := s.S[s.i], s.S[s.j];
            Crypted(key, skip, data)[k] == XorByte(data[k], s.S[(x + y) % 256])
  {
    hide XorByte, After;
    assert KeyStream(key, skip, |data|)[k] == Output(After(key, skip + k + 1));
  }

  method Schedule(key: seq<Byte>) returns (S: seq<Byte>)
    requires |key| > 0
    ensures S == Scheduled(key, 256).S
  {
    S := seq(256, k => 0);
    var i := 0;
    while i < 256
      invariant 0 <= i <= 256 && |S| == 256 && forall k :: 0 <= k < i ==> S[k] == k
    {
      S := S[i := i];
      i := i + 1;
    }
    assert S == Identity();
    var j: nat, kpos := 0, 0;
    i := 0;
    while i < 256
      invariant 0 <= i <= 256 && kpos == i % |key| && S == Scheduled(key, i).S && j == Scheduled(key, i).j
    {
      j := Plus(Plus(j, S[i]), key[kpos]);
      NextIndex(i, |key|);
      kpos := kpos + 1;
      if kpos >= |key| {
        kpos := 0;
      }
      S := S[i := S[j]][j := S[i]];
      i := i + 1;
    }
  }

  lemma NextIndex(i: nat, n: nat)
    requires n > 0
    ensures (i + 1) % n == if i % n + 1 >= n then 0 else i % n + 1
  {
    Arith.DivModEq(i, n);
    if i % n + 1 >= n {
      Arith.DivModUnique(i + 1, n, i / n + 1, 0);
    } else {
      Arith.DivModUnique(i + 1, n, i / n, i % n + 1);
    }
  }

  /** rc4_skip: len octets of the buffer from position pos on. */
  method Rc4Skip(key: seq<Byte>, skip: nat, data: array<Byte>, pos: nat, len: nat)
    requires |key| > 0 && pos + len <= data.Length
    modifies data
    ensures data[pos..pos + len] == Crypted(key, skip, old(data[pos..pos + len]))
    ensures forall k :: 0 <= k < data.Length && !(pos <= k < pos + len) ==> data[k] == old(data[k])
  {
    hide After, Next, Scheduled, XorByte;
    ghost var d := data[..];
    var S := Schedule(key);
    var i: nat, j: nat, k := 0, 0, 0;
    AfterStart(key);
    while k < skip
      invariant 0 <= k <= skip && State(S, i, j) == After(key, k) && data[..] == d
    {
      AfterStep(key, k);
      i := (i + 1) % 256;
      j := Plus(j, S[i]);
      S := S[i := S[j]][j := S[i]];
      k := k + 1;
    }
    k := 0;
    while k < len
      invariant 0 <= k <= len && State(S, i, j) == After(key, skip + k)
      invariant forall m :: pos <= m < pos + k ==> data[m] == XorByte(d[m], Output(After(key, skip + (m - pos) + 1)))
      invariant forall m :: 0 <= m < data.Length && !(pos <= m < pos + k) ==> data[m] == d[m]
    {
      AfterStep(key, skip + k);
      i := (i + 1) % 256;
      j := Plus(j, S[i]);
      S := S[i := S[j]][j := S[i]];
      data[pos + k] := XorByte(data[pos + k], S[Plus(S[i], S[j])]);
      k := k + 1;
    }
    IsCrypted(key, skip, d, data[..], pos, len);
  }

  lemma IsCrypted(key: seq<Byte>, skip: nat, d: seq<Byte>, e: seq<Byte>, pos: nat, len: nat)
    requires |key| > 0 && pos + len <= |d| == |e|
    requires forall m :: pos <= m < pos + len ==> e[m] == XorByte(d[m], Output(After(key, skip + (m - pos) + 1)))
    ensures e[pos..pos + len] == Crypted(key, skip, d[pos..pos + len])
  {
    hide After, Next, Scheduled, XorByte, Output;
    var r := Crypted(key, skip, d[pos..pos + len]);
    forall k | 0 <= k < len
      ensures e[pos..pos + len][k] == r[k]
    {
      assert e[pos + k] == XorByte(d[pos + k], Output(After(key, skip + k + 1)));
    }
  }

  lemma AfterStart(key: seq<Byte>)
    requires |key| > 0
    ensures After(key, 0) == State(Scheduled(key, 256).S, 0, 0)
  {
  }

  lemma AfterStep(key: seq<Byte>, n: nat)
    requires |key| > 0
    ensures var s := After(key, n);
            var i := (s.i + 1) % 256;
            var j := Plus(s.j, s.S[i]);
            After(key, n + 1) == State(s.S[i := s.S[j]][j := s.S[i]], i, j) && Good(After(key, n))
  {
  }
}
