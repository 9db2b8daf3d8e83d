/** Division with remainder, rounding toward zero: the specification and the bit-at-a-time routine
    (the build without LTM_FAST). */
module Div {
  import opened Arith
  import opened Digits
  import opened MpInts
  import AddSub
  import opened Shift

  datatype Status = Okay | Invalid

  ghost function Abs(x: int): (r: int)
    ensures r >= 0
  {
    if x < 0 then -x else x
  }

  /** The quotient rounded toward zero. */
  ghost function Quotient(x: int, y: int): int
    requires y != 0
  {
    var q := Abs(x) / Abs(y);
    if (x < 0) == (y < 0) then q else -q
  }

  /** The remainder, signed like the dividend. */
  ghost function Remainder(x: int, y: int): int
    requires y != 0
  {
    var r := Abs(x) % Abs(y);
    if x < 0 then -r else r
  }

  /** Quotient and Remainder are the one pair with x = q * y + r, |r| < |y| and r zero or signed like x. */
  lemma DivisionUnique(x: int, y: int, q: int, r: int)
    requires y != 0
    ensures x == q * y + r && Abs(r) < Abs(y) && (r == 0 || (r < 0) == (x < 0))
       <==> q == Quotient(x, y) && r == Remainder(x, y)
  {
    var m, n := Abs(x), Abs(y);
    DivModEq(m, n);
    QuotientSign(x, y);
    if x == q * y + r && Abs(r) < Abs(y) && (r == 0 || (r < 0) == (x < 0)) {
      var s := if (x < 0) == (y < 0) then q else -q;
      assert m == s * n + Abs(r);
      DivModUnique(m, n, s, Abs(r));
    }
  }

  lemma QuotientSign(x: int, y: int)
    requires y != 0
    ensures x == Quotient(x, y) * y + Remainder(x, y)
  {
    DivModEq(Abs(x), Abs(y));
  }

  /** mp_abs: b = |a|. */
  method AbsTo(a: MpInt, b: MpInt)
    requires a.Valid() && b.Valid()
    modifies b
    ensures b.Valid() && b.Val() == old(a.Mag()) && !b.neg
  {
    if a != b {
      Copy(a, b);
    }
    b.neg := false;
  }

  /** What the subtract-and-shift loop keeps: the part already divided, the part left, and the
      shifted divisor with its power of two. n counts the shifts still ahead. */
  ghost predicate Dividing(x: int, y: int, n: int, ta: int, tb: int, tq: int, q: int)
  {
    && n >= -1 && 0 <= ta && 0 <= q && x == q * y + ta
    && (n >= 0 ==> tb == y * Pow(2, n) && tq == Pow(2, n) && ta < 2 * tb)
    && (n == -1 ==> ta < y)
  }

  lemma DivideStep(x: int, y: int, n: nat, ta: int, tb: int, tq: int, q: int)
    requires y > 0 && Dividing(x, y, n, ta, tb, tq, q)
    ensures tb <= ta ==> Dividing(x, y, n - 1, ta - tb, tb / 2, tq / 2, q + tq)
    ensures ta < tb ==> Dividing(x, y, n - 1, ta, tb / 2, tq / 2, q)
  {
    assert (q + tq) * y == q * y + tq * y;
    if n > 0 {
      var p := Pow(2, n - 1);
      assert y * (2 * p) == 2 * (y * p);
    }
  }

  /** The bit lengths of dividend and divisor give the first shift. */
  lemma DivideStart(x: int, y: int, i: nat, j: nat)
    requires 0 < y <= x && i > 0 && j > 0
    requires Pow(2, i - 1) <= x < Pow(2, i) && Pow(2, j - 1) <= y < Pow(2, j)
    ensures i >= j && Dividing(x, y, i - j, x, y * Pow(2, i - j), Pow(2, i - j), 0)
  {
    if i < j {
      PowAdd(2, j - 1 - i, i);
      MulLe(1, Pow(2, j - 1 - i), Pow(2, i));
    }
    PowAdd(2, j - 1, i - j);
    MulLe(Pow(2, j - 1), y, Pow(2, i - j));
    assert Pow(2, i) == 2 * Pow(2, i - 1);
  }

  lemma HalfPow()
    ensures Pow(2, 1) == 2
  {
    assert Pow(2, 1) == 2 * Pow(2, 0);
  }

  method DivideBit(ta: MpInt, tb: MpInt, tq: MpInt, q: MpInt, ghost x: int, ghost y: int, ghost n: nat)
    requires ta.Valid() && tb.Valid() && tq.Valid() && q.Valid()
    requires ta != tb && ta != tq && ta != q && tb != tq && tb != q && tq != q
    requires y > 0 && Dividing(x, y, n, ta.Val(), tb.Val(), tq.Val(), q.Val())
    modifies ta, tb, tq, q
    ensures ta.Valid() && tb.Valid() && tq.Valid() && q.Valid()
    ensures Dividing(x, y, n - 1, ta.Val(), tb.Val(), tq.Val(), q.Val())
  {
    hide Dividing, MpInt.Wf;
    DivideStep(x, y, n, ta.Val(), tb.Val(), tq.Val(), q.Val());
    DividingSigns(x, y, n, ta.Val(), tb.Val(), tq.Val(), q.Val());
    HalfPow();
    var cmp := Cmp(tb, ta);
    if cmp != Gt {
      AddSub.Sub(ta, tb, ta);
      AddSub.Add(q, tq, q);
    }
    Div2d(tb, 1, tb, null);
    Div2d(tq, 1, tq, null);
  }

  lemma DividingSigns(x: int, y: int, n: nat, ta: int, tb: int, tq: int, q: int)
    requires y > 0 && Dividing(x, y, n, ta, tb, tq, q)
    ensures tb > 0 && tq > 0
  {
    MulLt(0, y, Pow(2, n));
  }

  method DivideLoop(ta: MpInt, tb: MpInt, tq: MpInt, q: MpInt, n0: nat, ghost x: int, ghost y: int)
    requires ta.Valid() && tb.Valid() && tq.Valid() && q.Valid()
    requires ta != tb && ta != tq && ta != q && tb != tq && tb != q && tq != q
    requires y > 0 && Dividing(x, y, n0, ta.Val(), tb.Val(), tq.Val(), q.Val())
    modifies ta, tb, tq, q
    ensures ta.Valid() && q.Valid() && Divided(x, y, q.Val(), ta.Val())
  {
    hide Dividing, Divided, Pow, MpInt.Wf, MpInt.Valid;
    var n: int := n0;
    while n >= 0
      invariant n >= -1 && ta.Valid() && tb.Valid() && tq.Valid() && q.Valid()
      invariant Dividing(x, y, n, ta.Val(), tb.Val(), tq.Val(), q.Val())
    {
      DivideBit(ta, tb, tq, q, x, y, n);
      n := n - 1;
    }
    DivideEnd(x, y, n, ta.Val(), tb.Val(), tq.Val(), q.Val());
  }

  /** ta = |a|, tb = |b| * 2^n and tq = 2^n, with n the difference of the bit lengths. */
  method StartDivision(a: MpInt, b: MpInt, ta: MpInt, tb: MpInt, tq: MpInt) returns (n: nat)
    requires a.Valid() && b.Valid() && 0 < b.Mag() <= a.Mag()
    requires ta.Valid() && tb.Valid() && tq.Valid() && ta != tb && ta != tq && tb != tq
    requires a !in {ta, tb, tq} && b !in {ta, tb, tq}
    modifies ta, tb, tq
    ensures ta.Valid() && tb.Valid() && tq.Valid()
    ensures Dividing(a.Mag(), b.Mag(), n, ta.Val(), tb.Val(), tq.Val(), 0)
  {
    hide Dividing, Pow, MpInt.Wf, MpInt.Valid;
    tq.Set(1);
    var i := CountBits(a);
    var j := CountBits(b);
    DivideStart(a.Mag(), b.Mag(), i, j);
    n := i - j;
    AbsTo(a, ta);
    AbsTo(b, tb);
    Mul2d(tb, n, tb);
    Mul2d(tq, n, tq);
    assert 1 * Pow(2, n) == Pow(2, n);
  }

  /** The temporaries and the loop of the bit-at-a-time division. */
  method DivideMagnitudes(a: MpInt, b: MpInt) returns (q: MpInt, ta: MpInt)
    requires a.Valid() && b.Valid() && 0 < b.Mag() <= a.Mag()
    ensures fresh(q) && fresh(ta) && q != ta && q.Valid() && ta.Valid()
    ensures Divided(a.Mag(), b.Mag(), q.Val(), ta.Val())
  {
    hide Dividing, Divided, MpInt.Wf, MpInt.Valid;
    ta := new MpInt();
    var tb := new MpInt();
    var tq := new MpInt();
    q := new MpInt();
    var n := StartDivision(a, b, ta, tb, tq);
    DivideLoop(ta, tb, tq, q, n, a.Mag(), b.Mag());
  }

  /** q and r are quotient and remainder of the nonnegative x by the positive y. */
  ghost predicate Divided(x: int, y: int, q: int, r: int)
  {
    y > 0 && q == x / y && r == x % y
  }

  lemma DivideEnd(x: int, y: int, n: int, ta: int, tb: int, tq: int, q: int)
    requires y > 0 && n < 0 && Dividing(x, y, n, ta, tb, tq, q)
    ensures Divided(x, y, q, ta)
  {
    DivModUnique(x, y, q, ta);
  }

  lemma SmallDividend(x: int, y: int)
    requires Abs(x) < Abs(y)
    ensures Quotient(x, y) == 0 && Remainder(x, y) == x
  {
    ModSmall(Abs(x), Abs(y));
  }

  /** mp_div, the bit-at-a-time version: c and d (where wanted) become quotient and remainder. */
  method DivBits(a: MpInt, b: MpInt, c: MpInt?, d: MpInt?) returns (st: Status)
    requires a.Valid() && b.Valid() && (c != null ==> c.Valid()) && (d != null ==> d.Valid())
    requires c != null ==> c != d
    modifies c, d
    ensures st == Invalid <==> old(b.Val()) == 0
    ensures c != null ==> c.Valid() && (st == Okay ==> c.Val() == old(Quotient(a.Val(), b.Val())))
    ensures d != null ==> d.Valid() && (st == Okay ==> d.Val() == old(Remainder(a.Val(), b.Val())))
    ensures st == Invalid ==> (c != null ==> unchanged(c)) && (d != null ==> unchanged(d))
  {
    hide Divided, MpInt.Wf, Quotient, Remainder;
    if b.used == 0 {
      return Invalid;
    }
    st := Okay;
    ghost var x, y := a.Val(), b.Val();
    var cmp := CmpMag(a, b);
    if cmp == Lt {
      SmallDividend(x, y);
      if d != null {
        Copy(a, d);
      }
      if c != null {
        c.Zero();
      }
      return;
    }
    var n, n2 := a.neg, a.neg != b.neg;
    var q, ta := DivideMagnitudes(a, b);
    DivideSigned(x, y, q.Val(), ta.Val());
    if c != null {
      Deliver(c, q, n2);
    }
    if d != null {
      Deliver(d, ta, n);
    }
  }

  /** Hand a temporary's value over with a sign; zero stays positive. */
  method Deliver(c: MpInt, q: MpInt, neg: bool)
    requires c != q && q.Valid() && q.Val() >= 0
    modifies c, q
    ensures c.Valid() && c.Val() == if neg then -old(q.Val()) else old(q.Val())
  {
    Exch(c, q);
    c.neg := c.used != 0 && neg;
  }

  lemma DivideSigned(x: int, y: int, q: int, r: int)
    requires y != 0 && Divided(Abs(x), Abs(y), q, r)
    ensures Quotient(x, y) == (if (x < 0) == (y < 0) then q else -q)
    ensures Remainder(x, y) == if x < 0 then -r else r
    ensures q >= 0 && r >= 0
  {
    DivModEq(Abs(x), Abs(y));
    if q < 0 {
      MulLe(q, -1, Abs(y));
    }
  }

  /** The residue mp_mod delivers. */
  ghost function Residue(x: int, y: int): int
    requires y != 0
  {
    var r := Remainder(x, y);
    if (r < 0) != (y < 0) then y + r else r
  }

  /** For a positive modulus it is the least nonnegative one. */
  lemma ResidueIsMod(x: int, y: int)
    requires y > 0
    ensures Residue(x, y) == x % y
  {
    var m := Abs(x);
    DivModEq(m, y);
    if x < 0 {
      if m % y == 0 {
        DivModUnique(x, y, -(m / y), 0);
      } else {
        DivModUnique(x, y, -(m / y) - 1, y - m % y);
      }
    }
  }

  /** mp_mod: c = a mod b. */
  method Mod(a: MpInt, b: MpInt, c: MpInt) returns (st: Status)
    requires a.Valid() && b.Valid() && c.Valid()
    modifies c
    ensures st == Invalid <==> old(b.Val()) == 0
    ensures c.Valid() && (st == Okay ==> c.Val() == old(Residue(a.Val(), b.Val())))
    ensures st == Invalid ==> unchanged(c)
  {
    hide MpInt.Wf, Remainder;
    var t := new MpInt();
    st := DivBits(a, b, null, t);
    if st == Okay {
      if t.neg != b.neg {
        AddSub.Add(b, t, c);
      } else {
        Exch(t, c);
      }
    }
  }
}
