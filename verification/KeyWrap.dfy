/** AES key wrap: the in-place registers of aes_wrap and aes_unwrap, and that they undo each other. */
module KeyWrap {
  import opened Bytes
  import opened Xor
  import opened Cipher

  /** The register A of 8 octets and the registers R[1..n], 8 octets each. */
  datatype Regs = Regs(a: seq<Byte>, r: seq<Byte>)

  predicate Fits(s: Regs, n: nat)
  {
    |s.a| == 8 && |s.r| == 8 * n
  }

  /** A block cipher of 16 octets whose two directions undo each other, in either order. */
  ghost predicate Permutation(c: Keyed)
  {
    c.Invertible(16) && forall b {:trigger c.dec(b)} :: |b| == 16 ==> c.enc(c.dec(b)) == b
  }

  /** There are such ciphers. */
  lemma SomePermutation()
    ensures Permutation(Keyed(b => b, b => b, 16))
  {
  }

  /** The step number goes into the last four octets. */
  function XorStep(a: seq<Byte>, t: nat): (r: seq<Byte>)
    requires |a| == 8
    ensures |r| == 8
  {
    a[..4] + XorBytes(a[4..], BE32(t))
  }

  lemma XorStepTwice(a: seq<Byte>, t: nat)
    requires |a| == 8
    ensures XorStep(XorStep(a, t), t) == a
  {
    hide XorBytes;
    var x := BE32(t);
    XorBytesTwice(a[4..], x);
    assert XorStep(a, t)[4..] == XorBytes(a[4..], x) && XorStep(a, t)[..4] == a[..4];
    assert a == a[..4] + a[4..];
  }

  function Register(r: seq<Byte>, i: nat): (b: seq<Byte>)
    requires 8 * i + 8 <= |r|
    ensures |b| == 8
  {
    r[8 * i..8 * i + 8]
  }

  function WithRegister(r: seq<Byte>, i: nat, b: seq<Byte>): (s: seq<Byte>)
    requires 8 * i + 8 <= |r| && |b| == 8
    ensures |s| == |r| && Register(s, i) == b
    ensures forall k :: 0 <= k < |r| && !(8 * i <= k < 8 * i + 8) ==> s[k] == r[k]
  {
    r[..8 * i] + b + r[8 * i + 8..]
  }

  /** B = AES(K, A | R[i]); A = MSB(64, B) ^ t; R[i] = LSB(64, B). */
  ghost function WrapStep(c: Keyed, s: Regs, n: nat, i: nat, t: nat): (u: Regs)
    requires Permutation(c) && Fits(s, n) && i < n
    ensures Fits(u, n)
  {
    var b := c.enc(s.a + Register(s.r, i));
    Regs(XorStep(b[..8], t), WithRegister(s.r, i, b[8..]))
  }

  /** B = AES-1(K, (A ^ t) | R[i]); A = MSB(64, B); R[i] = LSB(64, B). */
  ghost function UnwrapStep(c: Keyed, s: Regs, n: nat, i: nat, t: nat): (u: Regs)
    requires Permutation(c) && Fits(s, n) && i < n
    ensures Fits(u, n)
  {
    var b := c.dec(XorStep(s.a, t) + Register(s.r, i));
    Regs(b[..8], WithRegister(s.r, i, b[8..]))
  }

  lemma WithRegisterTwice(r: seq<Byte>, i: nat, b: seq<Byte>)
    requires 8 * i + 8 <= |r| && |b| == 8
    ensures WithRegister(WithRegister(r, i, b), i, Register(r, i)) == r
  {
  }

  lemma StepUndone(c: Keyed, s: Regs, n: nat, i: nat, t: nat)
    requires Permutation(c) && Fits(s, n) && i < n
    ensures UnwrapStep(c, WrapStep(c, s, n, i, t), n, i, t) == s
  {
    hide XorStep, WithRegister, Register;
    var x := s.a + Register(s.r, i);
    var b := c.enc(x);
    XorStepTwice(b[..8], t);
    assert b[..8] + b[8..] == b;
    assert x[..8] == s.a && x[8..] == Register(s.r, i);
    WithRegisterTwice(s.r, i, b[8..]);
  }

  lemma StepRedone(c: Keyed, s: Regs, n: nat, i: nat, t: nat)
    requires Permutation(c) && Fits(s, n) && i < n
    ensures WrapStep(c, UnwrapStep(c, s, n, i, t), n, i, t) == s
  {
    hide XorStep, WithRegister, Register;
    var x := XorStep(s.a, t) + Register(s.r, i);
    var b := c.dec(x);
    XorStepTwice(s.a, t);
    assert b[..8] + b[8..] == b;
    assert x[..8] == XorStep(s.a, t) && x[8..] == Register(s.r, i);
    WithRegisterTwice(s.r, i, b[8..]);
  }

  // ---------------------------------------------------------------- rounds

  /** The first i steps of a round whose step numbers start after base. */
  ghost function WrapRound(c: Keyed, s: Regs, n: nat, base: nat, i: nat): (u: Regs)
    requires Permutation(c) && Fits(s, n) && i <= n
    ensures Fits(u, n)
  {
    if i == 0 then s else WrapStep(c, WrapRound(c, s, n, base, i - 1), n, i - 1, base + i)
  }

  /** The number of steps in j rounds. */
  function StepsIn(n: nat, j: nat): nat
  {
    n * j
  }

  ghost function WrapRounds(c: Keyed, s: Regs, n: nat, j: nat): (u: Regs)
    requires Permutation(c) && Fits(s, n)
    ensures Fits(u, n)
  {
    if j == 0 then s else WrapRound(c, WrapRounds(c, s, n, j - 1), n, StepsIn(n, j - 1), n)
  }

  /** The last i steps of a round backwards. */
  ghost function UnwrapRound(c: Keyed, s: Regs, n: nat, base: nat, i: nat): (u: Regs)
    requires Permutation(c) && Fits(s, n) && i <= n
    ensures Fits(u, n)
    decreases i
  {
    if i == 0 then s else UnwrapRound(c, UnwrapStep(c, s, n, i - 1, base + i), n, base, i - 1)
  }

  ghost function UnwrapRounds(c: Keyed, s: Regs, n: nat, j: nat): (u: Regs)
    requires Permutation(c) && Fits(s, n)
    ensures Fits(u, n)
    decreases j
  {
    if j == 0 then s else UnwrapRounds(c, UnwrapRound(c, s, n, StepsIn(n, j - 1), n), n, j - 1)
  }

  lemma {:induction false} RoundUndone(c: Keyed, s: Regs, n: nat, base: nat, i: nat)
    requires Permutation(c) && Fits(s, n) && i <= n
    ensures UnwrapRound(c, WrapRound(c, s, n, base, i), n, base, i) == s
    decreases i
  {
    hide Permutation, WrapStep, UnwrapStep;
    if i > 0 {
      StepUndone(c, WrapRound(c, s, n, base, i - 1), n, i - 1, base + i);
      RoundUndone(c, s, n, base, i - 1);
    }
  }

  lemma {:induction false} RoundRedone(c: Keyed, s: Regs, n: nat, base: nat, i: nat)
    requires Permutation(c) && Fits(s, n) && i <= n
    ensures WrapRound(c, UnwrapRound(c, s, n, base, i), n, base, i) == s
    decreases i
  {
    hide Permutation, WrapStep, UnwrapStep;
    if i > 0 {
      var u := UnwrapStep(c, s, n, i - 1, base + i);
      RoundRedone(c, u, n, base, i - 1);
      StepRedone(c, s, n, i - 1, base + i);
    }
  }

  lemma {:induction false} RoundsUndone(c: Keyed, s: Regs, n: nat, j: nat)
    requires Permutation(c) && Fits(s, n)
    ensures UnwrapRounds(c, WrapRounds(c, s, n, j), n, j) == s
  {
    hide Permutation, WrapRound, UnwrapRound;
    if j > 0 {
      RoundUndone(c, WrapRounds(c, s, n, j - 1), n, StepsIn(n, j - 1), n);
      RoundsUndone(c, s, n, j - 1);
    }
  }

  lemma {:induction false} RoundsRedone(c: Keyed, s: Regs, n: nat, j: nat)
    requires Permutation(c) && Fits(s, n)
    ensures WrapRounds(c, UnwrapRounds(c, s, n, j), n, j) == s
    decreases j
  {
    hide Permutation, WrapRound, UnwrapRound;
    if j > 0 {
      RoundsRedone(c, UnwrapRound(c, s, n, StepsIn(n, j - 1), n), n, j - 1);
      RoundRedone(c, s, n, StepsIn(n, j - 1), n);
    }
  }

  // ---------------------------------------------------------------- wrapping and unwrapping

  function Iv(): (r: seq<Byte>)
    ensures |r| == 8
  {
    seq<Byte>(8, k => 0xa6)
  }

  ghost function Wrapped(c: Keyed, plain: seq<Byte>): (r: seq<Byte>)
    requires Permutation(c) && |plain| % 8 == 0
    ensures |r| == |plain| + 8
  {
    var s := WrapRounds(c, Regs(Iv(), plain), |plain| / 8, 6);
    s.a + s.r
  }

  ghost function Unwrapped(c: Keyed, y: seq<Byte>): (s: Regs)
    requires Permutation(c) && |y| % 8 == 0 && |y| >= 8
    ensures |s.r| == |y| - 8
  {
    UnwrapRounds(c, Regs(y[..8], y[8..]), |y| / 8 - 1, 6)
  }

  /** Unwrapping accepts exactly the wrapped keys, and gives back the key. */
  lemma UnwrapIff(c: Keyed, plain: seq<Byte>, y: seq<Byte>)
    requires Permutation(c) && |plain| % 8 == 0 && |y| == |plain| + 8
    ensures Unwrapped(c, y) == Regs(Iv(), plain) <==> y == Wrapped(c, plain)
  {
    hide Permutation, WrapRounds, UnwrapRounds, Iv;
    var n := |plain| / 8;
    assert |y| / 8 - 1 == n;
    var s := Regs(Iv(), plain);
    RoundsUndone(c, s, n, 6);
    var w := WrapRounds(c, s, n, 6);
    assert (w.a + w.r)[..8] == w.a && (w.a + w.r)[8..] == w.r;
    RoundsRedone(c, Regs(y[..8], y[8..]), n, 6);
    assert y[..8] + y[8..] == y;
  }

  /** What a wrapped key is, step by step: st[j][i] are the registers after i steps of round j. A step encrypts A with
      register i, and puts its number, counted from one over all rounds, into the last four octets of A. */
  lemma WrappedIs(c: Keyed, plain: seq<Byte>, n: nat, st: seq<seq<Regs>>)
    requires Permutation(c) && |plain| == 8 * n && |st| == 6
    requires forall j {:trigger st[j]} :: 0 <= j < 6 ==> |st[j]| == n + 1
    requires forall j, i {:trigger st[j][i]} :: 0 <= j < 6 && 0 <= i <= n ==> |st[j][i].a| == 8 && |st[j][i].r| == 8 * n
    requires st[0][0].a == [0xa6, 0xa6, 0xa6, 0xa6, 0xa6, 0xa6, 0xa6, 0xa6] && st[0][0].r == plain
    requires forall j {:trigger st[j]} :: 0 < j < 6 ==> st[j][0] == st[j - 1][n]
    requires forall j, i, k {:trigger st[j][i], st[j][k]} :: 0 <= j < 6 && 0 <= i < n && i < k < i + 2 ==>
               var b := c.enc(st[j][i].a + st[j][i].r[8 * i..8 * i + 8]);
               && |b| == 16 && st[j][k].r == st[j][i].r[..8 * i] + b[8..] + st[j][i].r[8 * i + 8..]
               && forall x: seq<Byte> {:trigger BytesVal(x)} ::
                    |x| == 4 && BytesVal(x) == (n * j + i + 1) % 0x1_0000_0000
                    ==> st[j][k].a == b[..4] + XorBytes(b[4..8], x)
    ensures Wrapped(c, plain) == st[5][n].a + st[5][n].r
  {
    hide Permutation, XorByte, XorBytes, WrapRound, StepsIn, BytesVal;
    var s := Regs(Iv(), plain);
    assert st[0][0] == s;
    forall j | 0 <= j < 6
      ensures st[j][n] == WrapRound(c, st[j][0], n, StepsIn(n, j), n)
    {
      forall i, k | 0 <= i < n && i < k < i + 2
        ensures Stepped(c, n, n * j, i, st[j][i], st[j][k])
      {
      }
      RoundIs(c, n, j, st[j]);
    }
    RoundsAre(c, s, n, st);
    assert |plain| / 8 == n;
  }

  lemma RoundsAre(c: Keyed, s: Regs, n: nat, st: seq<seq<Regs>>)
    requires Permutation(c) && Fits(s, n) && |st| == 6
    requires forall j {:trigger st[j]} :: 0 <= j < 6 ==> |st[j]| == n + 1
    requires st[0][0] == s && forall j {:trigger st[j]} :: 0 < j < 6 ==> st[j][0] == st[j - 1][n]
    requires forall j {:trigger st[j]} :: 0 <= j < 6 ==>
               Fits(st[j][0], n) && st[j][n] == WrapRound(c, st[j][0], n, StepsIn(n, j), n)
    ensures st[5][n] == WrapRounds(c, s, n, 6)
  {
    hide Permutation, StepsIn, WrapRound;
    var j := 0;
    while j < 6
      invariant 0 <= j <= 6 && (if j == 0 then st[0][0] else st[j - 1][n]) == WrapRounds(c, s, n, j)
    {
      j := j + 1;
    }
  }

  lemma RoundIs(c: Keyed, n: nat, j: nat, st: seq<Regs>)
    requires Permutation(c) && |st| == n + 1
    requires forall i {:trigger st[i]} :: 0 <= i <= n ==> Fits(st[i], n)
    requires forall i, k {:trigger Stepped(c, n, n * j, i, st[i], st[k])} ::
               0 <= i < n && i < k < i + 2 ==> Stepped(c, n, n * j, i, st[i], st[k])
    ensures st[n] == WrapRound(c, st[0], n, StepsIn(n, j), n)
  {
    hide Permutation, Stepped, WrapStep;
    var i := 0;
    while i < n
      invariant 0 <= i <= n && st[i] == WrapRound(c, st[0], n, StepsIn(n, j), i)
    {
      assert Stepped(c, n, n * j, i, st[i], st[i + 1]);
      StepIs(c, n, n * j, i, st[i], st[i + 1]);
      i := i + 1;
    }
  }

  /** One step written out. */
  ghost predicate Stepped(c: Keyed, n: nat, base: nat, i: nat, s: Regs, u: Regs)
    requires Fits(s, n) && i < n
  {
    var b := c.enc(s.a + s.r[8 * i..8 * i + 8]);
    && |b| == 16 && u.r == s.r[..8 * i] + b[8..] + s.r[8 * i + 8..]
    && forall x: seq<Byte> {:trigger BytesVal(x)} ::
         |x| == 4 && BytesVal(x) == (base + i + 1) % 0x1_0000_0000 ==> u.a == b[..4] + XorBytes(b[4..8], x)
  }

  lemma StepIs(c: Keyed, n: nat, base: nat, i: nat, s: Regs, u: Regs)
    requires Permutation(c) && Fits(s, n) && Fits(u, n) && i < n && Stepped(c, n, base, i, s, u)
    ensures u == WrapStep(c, s, n, i, base + i + 1)
  {
    hide XorByte, Permutation, BE32, BytesVal;
    var t := base + i + 1;
    var b := c.enc(s.a + s.r[8 * i..8 * i + 8]);
    FieldsWritten(t);
    assert u.a == b[..4] + XorBytes(b[4..8], BE32(t));
    assert b[..8][4..] == b[4..8] && b[..8][..4] == b[..4];
  }

  // ---------------------------------------------------------------- the shifting form

  /** The same steps with the registers moving instead of the index: the first register is used, the others
      move up, and the result goes last. */
  ghost function ShiftStep(c: Keyed, s: Regs, n: nat, t: nat): (u: Regs)
    requires Permutation(c) && Fits(s, n) && n > 0
    ensures Fits(u, n)
  {
    var b := c.enc(s.a + s.r[..8]);
    Regs(XorStep(b[..8], t), s.r[8..] + b[8..])
  }

  ghost function ShiftSteps(c: Keyed, s: Regs, n: nat, base: nat, k: nat): (u: Regs)
    requires Permutation(c) && Fits(s, n) && n > 0
    ensures Fits(u, n)
  {
    if k == 0 then s else ShiftStep(c, ShiftSteps(c, s, n, base, k - 1), n, base + k)
  }

  function Rotated(s: Regs, n: nat, i: nat): (u: Regs)
    requires Fits(s, n) && i <= n
    ensures Fits(u, n)
  {
    Regs(s.a, s.r[8 * i..] + s.r[..8 * i])
  }

  lemma RotatedStep(c: Keyed, s: Regs, n: nat, i: nat, t: nat)
    requires Permutation(c) && Fits(s, n) && i < n
    ensures ShiftStep(c, Rotated(s, n, i), n, t) == Rotated(WrapStep(c, s, n, i, t), n, i + 1)
  {
    hide XorStep;
    var u := Rotated(s, n, i);
    assert u.r[..8] == Register(s.r, i);
    var b := c.enc(s.a + Register(s.r, i));
    var w := WithRegister(s.r, i, b[8..]);
    assert w[8 * (i + 1)..] == s.r[8 * (i + 1)..] && w[..8 * (i + 1)] == s.r[..8 * i] + b[8..];
    assert u.r[8..] == s.r[8 * (i + 1)..] + s.r[..8 * i];
  }

  lemma {:induction false} ShiftedRound(c: Keyed, s: Regs, n: nat, base: nat, i: nat)
    requires Permutation(c) && Fits(s, n) && n > 0 && i <= n
    ensures ShiftSteps(c, s, n, base, i) == Rotated(WrapRound(c, s, n, base, i), n, i)
  {
    hide Permutation, ShiftStep, WrapStep;
    if i == 0 {
      assert s.r[0..] + s.r[..0] == s.r;
    } else {
      ShiftedRound(c, s, n, base, i - 1);
      RotatedStep(c, WrapRound(c, s, n, base, i - 1), n, i - 1, base + i);
    }
  }

  lemma {:induction false} ShiftStepsSplit(c: Keyed, s: Regs, n: nat, base: nat, k: nat, l: nat)
    requires Permutation(c) && Fits(s, n) && n > 0
    ensures ShiftSteps(c, s, n, base, k + l) == ShiftSteps(c, ShiftSteps(c, s, n, base, k), n, base + k, l)
  {
    hide Permutation, ShiftStep;
    if l > 0 {
      ShiftStepsSplit(c, s, n, base, k, l - 1);
    }
  }

  /** The indexed form computes what the shifting form does, step numbers running through all rounds. */
  lemma {:induction false} IndexedIsShifting(c: Keyed, s: Regs, n: nat, j: nat)
    requires Permutation(c) && Fits(s, n) && n > 0
    ensures WrapRounds(c, s, n, j) == ShiftSteps(c, s, n, 0, StepsIn(n, j))
  {
    hide Permutation, ShiftStep, WrapRound;
    if j > 0 {
      IndexedIsShifting(c, s, n, j - 1);
      assert n * j == n * (j - 1) + n;
      ShiftStepsSplit(c, s, n, 0, StepsIn(n, j - 1), n);
      var u := WrapRounds(c, s, n, j - 1);
      ShiftedRound(c, u, n, StepsIn(n, j - 1), n);
      var w := WrapRound(c, u, n, StepsIn(n, j - 1), n);
      assert w.r[8 * n..] + w.r[..8 * n] == w.r;
    }
  }

  // ---------------------------------------------------------------- the registers in place

  ghost function RegsOf(cipher: seq<Byte>): Regs
    requires |cipher| >= 8
  {
    Regs(cipher[..8], cipher[8..])
  }

  method Put(y: array<Byte>, pos: nat, b: seq<Byte>)
    requires pos + |b| <= y.Length
    modifies y
    ensures y[..] == old(y[..pos]) + b + old(y[pos + |b|..])
  {
    var k := 0;
    while k < |b|
      invariant 0 <= k <= |b|
      invariant y[..] == old(y[..pos]) + b[..k] + old(y[pos + k..])
    {
      y[pos + k] := b[k];
      k := k + 1;
    }
    assert b[..|b|] == b;
  }

  lemma RegisterAt(x: seq<Byte>, i: nat)
    requires 16 + 8 * i <= |x|
    ensures x[..8] == RegsOf(x).a && x[8 + 8 * i..16 + 8 * i] == Register(RegsOf(x).r, i)
  {
    assert x[8..][8 * i..8 * i + 8] == x[8 + 8 * i..16 + 8 * i];
  }

  lemma TwoWrites(x: seq<Byte>, a: seq<Byte>, b: seq<Byte>, pos: nat)
    requires |a| == 8 <= pos && pos + |b| <= |x|
    ensures var y := a + x[8..]; y[..pos] + b + y[pos + |b|..] == a + x[8..pos] + b + x[pos + |b|..]
  {
    var y := a + x[8..];
    assert y[..pos] == a + x[8..pos];
    assert y[pos + |b|..] == x[pos + |b|..];
  }

  /** One step of aes_wrap on the output buffer. */
  method WrapInPlace(c: Keyed, n: nat, i: nat, t: nat, cipher: array<Byte>)
    requires Permutation(c) && i < n && cipher.Length == 8 * (n + 1)
    modifies cipher
    ensures RegsOf(cipher[..]) == WrapStep(c, old(RegsOf(cipher[..])), n, i, t)
  {
    hide XorStep, WithRegister;
    ghost var s := RegsOf(cipher[..]);
    var pos := 8 + 8 * i;
    ghost var x := cipher[..];
    RegisterAt(x, i);
    assert cipher[..8] == x[..8] && cipher[pos..pos + 8] == x[pos..pos + 8];
    var b := c.enc(cipher[..8] + cipher[pos..pos + 8]);
    Put(cipher, 0, XorStep(b[..8], t));
    ghost var y := cipher[..];
    assert y == XorStep(b[..8], t) + x[8..];
    Put(cipher, pos, b[8..]);
    TwoWrites(x, XorStep(b[..8], t), b[8..], pos);
    WrittenRegs(x, i, XorStep(b[..8], t), b[8..]);
  }

  lemma WrittenRegs(x: seq<Byte>, i: nat, a: seq<Byte>, b: seq<Byte>)
    requires |x| >= 16 + 8 * i && |a| == 8 == |b|
    ensures RegsOf(a + x[8..8 + 8 * i] + b + x[16 + 8 * i..]) == Regs(a, WithRegister(RegsOf(x).r, i, b))
  {
    assert x[8..][..8 * i] == x[8..8 + 8 * i] && x[8..][8 * i + 8..] == x[16 + 8 * i..];
  }

  method WrapRoundInPlace(c: Keyed, n: nat, j: nat, cipher: array<Byte>)
    requires Permutation(c) && cipher.Length == 8 * (n + 1)
    modifies cipher
    ensures RegsOf(cipher[..]) == WrapRound(c, old(RegsOf(cipher[..])), n, StepsIn(n, j), n)
  {
    hide Permutation, WrapStep, RegsOf;
    ghost var u := RegsOf(cipher[..]);
    RegsFit(cipher[..], n);
    var i := 1;
    while i <= n
      invariant 1 <= i <= n + 1 && RegsOf(cipher[..]) == WrapRound(c, u, n, StepsIn(n, j), i - 1)
    {
      var t := n * j + i;
      RegsFit(cipher[..], n);
      WrapInPlace(c, n, i - 1, t, cipher);
      i := i + 1;
    }
  }

  lemma RegsFit(cipher: seq<Byte>, n: nat)
    requires |cipher| == 8 * (n + 1)
    ensures Fits(RegsOf(cipher), n) && cipher == RegsOf(cipher).a + RegsOf(cipher).r
  {
  }

  lemma RegsOfParts(a: seq<Byte>, r: seq<Byte>)
    requires |a| == 8
    ensures RegsOf(a + r) == Regs(a, r)
  {
  }

  method AesWrap(c: Keyed, n: nat, plain: seq<Byte>, cipher: array<Byte>)
    requires Permutation(c) && |plain| == 8 * n && cipher.Length == 8 * (n + 1)
    modifies cipher
    ensures cipher[..] == Wrapped(c, plain)
  {
    hide Permutation, WrapRound, StepsIn, RegsOf;
    Put(cipher, 0, Iv());
    Put(cipher, 8, plain);
    ghost var s := Regs(Iv(), plain);
    assert cipher[..] == Iv() + plain;
    RegsOfParts(Iv(), plain);
    var j := 0;
    while j <= 5
      invariant 0 <= j <= 6 && RegsOf(cipher[..]) == WrapRounds(c, s, n, j)
    {
      WrapRoundInPlace(c, n, j, cipher);
      j := j + 1;
    }
    RegsFit(cipher[..], n);
  }

  /** One step of aes_unwrap, on a local A and the output buffer. */
  method UnwrapInPlace(c: Keyed, n: nat, i: nat, t: nat, a: array<Byte>, plain: array<Byte>)
    requires Permutation(c) && i < n && a.Length == 8 && plain.Length == 8 * n && a != plain
    modifies a, plain
    ensures Regs(a[..], plain[..]) == UnwrapStep(c, old(Regs(a[..], plain[..])), n, i, t)
  {
    hide XorStep;
    var b := XorStep(a[..], t) + plain[8 * i..8 * i + 8];
    b := c.dec(b);
    Put(a, 0, b[..8]);
    Put(plain, 8 * i, b[8..]);
  }

  method UnwrapRoundInPlace(c: Keyed, n: nat, j: nat, a: array<Byte>, plain: array<Byte>)
    requires Permutation(c) && a.Length == 8 && plain.Length == 8 * n && a != plain
    modifies a, plain
    ensures Regs(a[..], plain[..]) == UnwrapRound(c, old(Regs(a[..], plain[..])), n, StepsIn(n, j), n)
  {
    hide Permutation, UnwrapStep;
    ghost var u := UnwrapRound(c, Regs(a[..], plain[..]), n, StepsIn(n, j), n);
    var i := n;
    while i >= 1
      invariant 0 <= i <= n && UnwrapRound(c, Regs(a[..], plain[..]), n, StepsIn(n, j), i) == u
    {
      var t := n * j + i;
      UnwrapInPlace(c, n, i - 1, t, a, plain);
      i := i - 1;
    }
  }

  /** Whether all octets are those of the initial value. */
  method IsIv(a: array<Byte>) returns (ok: bool)
    requires a.Length == 8
    ensures ok <==> a[..] == Iv()
  {
    var k := 0;
    while k < 8
      invariant 0 <= k <= 8 && forall m :: 0 <= m < k ==> a[m] == 0xa6
    {
      if a[k] != 0xa6 {
        assert a[..][k] != Iv()[k];
        return false;
      }
      k := k + 1;
    }
    assert a[..] == Iv();
    return true;
  }

  lemma UnwrappedRounds(c: Keyed, n: nat, cipher: seq<Byte>)
    requires Permutation(c) && |cipher| == 8 * (n + 1)
    ensures Unwrapped(c, cipher) == UnwrapRounds(c, Regs(cipher[..8], cipher[8..]), n, 6)
  {
    hide Permutation, UnwrapRounds;
    assert |cipher| / 8 - 1 == n;
  }

  method AesUnwrap(c: Keyed, n: nat, cipher: seq<Byte>, plain: array<Byte>) returns (ok: bool)
    requires Permutation(c) && |cipher| == 8 * (n + 1) && plain.Length == 8 * n
    modifies plain
    ensures var s := Unwrapped(c, cipher); plain[..] == s.r && (ok <==> s.a == Iv())
  {
    hide Permutation, UnwrapRound, Iv, StepsIn, Unwrapped;
    UnwrappedRounds(c, n, cipher);
    var a := new Byte[8];
    Put(a, 0, cipher[..8]);
    Put(plain, 0, cipher[8..]);
    ghost var all := UnwrapRounds(c, Regs(cipher[..8], cipher[8..]), n, 6);
    assert a[..] == cipher[..8] && plain[..] == cipher[8..];
    var j := 5;
    while j >= 0
      invariant -1 <= j <= 5 && UnwrapRounds(c, Regs(a[..], plain[..]), n, j + 1) == all
    {
      UnwrapRoundInPlace(c, n, j, a, plain);
      j := j - 1;
    }
    ok := IsIv(a);
  }
}
