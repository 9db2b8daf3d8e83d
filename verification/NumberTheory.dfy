/** The number theory behind RSA: binomial coefficients modulo a prime, Fermat's little theorem, and
    residues that agree modulo two coprime factors. */
module NumberTheory {
  import opened Arith

  predicate Prime(p: int)
  {
    p > 1 && forall d :: 1 < d < p ==> p % d != 0
  }

  /** Extended Euclid: a common divisor as a combination of both numbers. */
  lemma {:induction false} Bezout(a: nat, b: nat) returns (g: nat, x: int, y: int)
    requires a > 0
    ensures g > 0 && a % g == 0 && b % g == 0 && g == a * x + b * y
    decreases b
  {
    if b == 0 {
      g, x, y := a, 1, 0;
      DivModUnique(a, a, 1, 0);
      ModSmall(0, a);
    } else {
      var x1, y1;
      g, x1, y1 := Bezout(b, a % b);
      x, y := y1, x1 - (a / b) * y1;
      BezoutStep(a, b, g, x1, y1);
    }
  }

  lemma BezoutStep(a: nat, b: nat, g: nat, x1: int, y1: int)
    requires b > 0 && g > 0 && b % g == 0 && (a % b) % g == 0 && g == b * x1 + (a % b) * y1
    ensures a % g == 0 && g == a * y1 + b * (x1 - (a / b) * y1)
  {
    var q, r, k := a / b, a % b, b / g;
    DivModEq(a, b);
    DivModEq(b, g);
    assert a == r + (q * k) * g by { MulAssoc(q, k, g); }
    ModAddMultiple(r, q * k, g);
    assert (q * b + r) * y1 == (q * b) * y1 + r * y1;
    assert b * (x1 - q * y1) == b * x1 - b * (q * y1);
    MulAssoc(b, q, y1);
  }

  /** Euclid's lemma. */
  lemma PrimeDividesFactor(p: int, a: nat, b: int)
    requires Prime(p) && (a * b) % p == 0 && a % p != 0
    ensures b % p == 0
  {
    var g, x, y := Bezout(p, a);
    DivisorOfPrime(p, g);
    CombinationDivides(p, a, b, x, y);
  }

  lemma DivisorOfPrime(p: int, g: int)
    requires Prime(p) && g > 0 && p % g == 0
    ensures g == 1 || g == p
  {
    DivModEq(p, g);
    if g > p {
      ModSmall(p, g);
    }
  }

  lemma CombinationDivides(p: int, a: int, b: int, x: int, y: int)
    requires p > 0 && 1 == p * x + a * y && (a * b) % p == 0
    ensures b % p == 0
  {
    var k := (a * b) / p;
    DivModEq(a * b, p);
    assert b == (x * b + k * y) * p by {
      assert (p * x + a * y) * b == (p * x) * b + (a * y) * b;
      assert (p * x) * b == (x * b) * p by { MulAssoc(p, x, b); }
      assert (a * y) * b == (a * b) * y == (k * y) * p by {
        MulAssoc(a, y, b);
        MulAssoc(a, b, y);
        MulAssoc(k, p, y);
        MulAssoc(k, y, p);
      }
      assert (x * b + k * y) * p == (x * b) * p + (k * y) * p;
    }
    DivModUnique(b, p, x * b + k * y, 0);
  }

  /** Pascal's triangle. */
  ghost function Choose(n: nat, k: nat): (c: nat)
  {
    if k == 0 then 1
    else if n == 0 then 0
    else Choose(n - 1, k - 1) + Choose(n - 1, k)
  }

  lemma {:induction false} ChooseBeyond(n: nat, k: nat)
    requires k > n
    ensures Choose(n, k) == 0
  {
    if n > 0 {
      ChooseBeyond(n - 1, k - 1);
      ChooseBeyond(n - 1, k);
    }
  }

  lemma {:induction false} ChooseAll(n: nat)
    ensures Choose(n, n) == 1
  {
    if n > 0 {
      ChooseAll(n - 1);
      ChooseBeyond(n - 1, n);
    }
  }

  /** k * C(n, k) = n * C(n - 1, k - 1). */
  lemma {:induction false} Absorption(n: nat, k: nat)
    requires n > 0 && k > 0
    ensures k * Choose(n, k) == n * Choose(n - 1, k - 1)
  {
    hide Choose;
    PascalRule(n, k);
    if n == 1 {
      ChooseBeyond(0, k);
      if k > 1 {
        ChooseBeyond(0, k - 1);
      } else {
        ChooseAll(0);
      }
    } else {
      Absorption(n - 1, k);
      PascalRule(n - 1, k - 1);
      PascalRule(n - 2, 0);
      if k > 1 {
        Absorption(n - 1, k - 1);
        AbsorptionSum(n, k, Choose(n - 2, k - 2), Choose(n - 2, k - 1), Choose(n - 1, k - 1), Choose(n - 1, k));
      }
    }
  }

  lemma PascalRule(n: nat, k: nat)
    ensures k == 0 ==> Choose(n, k) == 1
    ensures n > 0 && k > 0 ==> Choose(n, k) == Choose(n - 1, k - 1) + Choose(n - 1, k)
  {
  }

  lemma AbsorptionSum(n: int, k: int, c0: int, c1: int, d0: int, d1: int)
    requires k * d1 == (n - 1) * c1 && (k - 1) * d0 == (n - 1) * c0 && d0 == c0 + c1
    ensures k * (d0 + d1) == n * d0
  {
    assert (n - 1) * d0 == (n - 1) * c0 + (n - 1) * c1;
    assert k * (d0 + d1) == (k - 1) * d0 + d0 + k * d1;
  }

  lemma PrimeDividesChoose(p: int, k: nat)
    requires Prime(p) && 0 < k < p
    ensures Choose(p, k) % p == 0
  {
    Absorption(p, k);
    DivModUnique(k * Choose(p, k), p, Choose(p - 1, k - 1), 0);
    ModSmall(k, p);
    PrimeDividesFactor(p, k, Choose(p, k));
  }

  /** The first j terms of the expansion of (1 + a)^n. */
  ghost function Binomial(a: int, n: nat, j: nat): int
  {
    if j == 0 then 0 else Binomial(a, n, j - 1) + Choose(n, j - 1) * Pow(a, j - 1)
  }

  lemma {:induction false} BinomialStep(a: int, n: nat, j: nat)
    ensures Binomial(a, n + 1, j + 1) == Binomial(a, n, j + 1) + a * Binomial(a, n, j)
  {
    if j > 0 {
      BinomialStep(a, n, j - 1);
      PascalTerm(a, Choose(n, j - 1), Choose(n, j), Pow(a, j - 1), Binomial(a, n, j - 1));
    }
  }

  lemma PascalTerm(a: int, c: int, d: int, p: int, s: int)
    ensures (c + d) * (a * p) == d * (a * p) + a * (c * p)
    ensures a * (s + c * p) == a * s + a * (c * p)
  {
    MulAssoc(c, a, p);
    MulAssoc(a, c, p);
  }

  lemma {:induction false} BinomialTheorem(a: int, n: nat)
    ensures Binomial(a, n, n + 1) == Pow(1 + a, n)
  {
    if n > 0 {
      hide Pow, Choose, Binomial;
      BinomialTheorem(a, n - 1);
      BinomialStep(a, n - 1, n);
      LastTerm(a, n);
      PowStep(1 + a, n);
      OnePlus(a, Pow(1 + a, n - 1));
    } else {
      assert Binomial(a, 0, 1) == Binomial(a, 0, 0) + Choose(0, 0) * Pow(a, 0);
    }
  }

  lemma LastTerm(a: int, n: nat)
    requires n > 0
    ensures Binomial(a, n - 1, n + 1) == Binomial(a, n - 1, n)
  {
    hide Pow, Choose;
    ChooseBeyond(n - 1, n);
    assert 0 * Pow(a, n) == 0;
  }

  lemma OnePlus(a: int, x: int)
    ensures (1 + a) * x == x + a * x
  {
  }

  /** Modulo a prime only the first and the last term survive. */
  lemma {:induction false} BinomialModPrime(a: int, p: int, j: nat)
    requires Prime(p) && 0 < j <= p
    ensures Binomial(a, p, j) % p == 1
  {
    if j == 1 {
      assert Binomial(a, p, 1) == Binomial(a, p, 0) + Choose(p, 0) * Pow(a, 0);
      ModSmall(1, p);
    } else {
      BinomialModPrime(a, p, j - 1);
      PrimeDividesChoose(p, j - 1);
      var c := Choose(p, j - 1);
      DivModEq(c, p);
      assert c * Pow(a, j - 1) == ((c / p) * Pow(a, j - 1)) * p by { MulAssoc(c / p, p, Pow(a, j - 1)); MulAssoc(c / p, Pow(a, j - 1), p); }
      ModAddMultiple(Binomial(a, p, j - 1), (c / p) * Pow(a, j - 1), p);
    }
  }

  /** Fermat: a^p is a modulo p. */
  lemma {:induction false} Fermat(a: nat, p: int)
    requires Prime(p)
    ensures Pow(a, p) % p == a % p
  {
    if a == 0 {
      PowStep(0, p);
    } else {
      Fermat(a - 1, p);
      BinomialTheorem(a - 1, p);
      BinomialModPrime(a - 1, p, p);
      ChooseAll(p);
      ModSmall(1, p);
      CongAdd(Binomial(a - 1, p, p), 1, Pow(a - 1, p), a - 1, p);
    }
  }

  /** An exponent that is 1 modulo p - 1 does nothing modulo p. */
  lemma {:induction false} FermatExponent(a: nat, p: int, k: nat)
    requires Prime(p)
    ensures k * (p - 1) >= 0 && Pow(a, 1 + k * (p - 1)) % p == a % p
  {
    if k == 0 {
      PowStep(a, 1);
      assert Pow(a, 0) == 1;
    } else {
      FermatExponent(a, p, k - 1);
      var e := 1 + (k - 1) * (p - 1);
      assert 1 + k * (p - 1) == (p - 1) + e;
      PowAdd(a, p - 1, e);
      CongScale(Pow(a, e), a, Pow(a, p - 1), p);
      PowStep(a, p);
      Fermat(a, p);
      assert Pow(a, e) * Pow(a, p - 1) == Pow(a, p - 1) * Pow(a, e);
      assert a * Pow(a, p - 1) == Pow(a, p);
    }
  }

  /** The two exponents of an RSA key undo each other modulo the prime. */
  lemma ExponentsUndo(a: nat, p: int, e: nat, d: nat)
    requires Prime(p) && p > 2 && (e * d) % (p - 1) == 1
    ensures Pow(Pow(a, e), d) % p == a % p
    ensures e > 0 && d > 0
  {
    PowMul(a, e, d);
    DivModEq(e * d, p - 1);
    var k := (e * d) / (p - 1);
    if k < 0 {
      MulLe(k, -1, p - 1);
    }
    FermatExponent(a, p, k);
  }

  /** Agreement modulo p and modulo q is agreement modulo p * q when q has an inverse modulo p. */
  lemma AgreeModProduct(x: int, y: int, p: int, q: int, i: int)
    requires p > 0 && q > 0 && (i * q) % p == 1 % p && x % p == y % p && x % q == y % q
    ensures p * q > 0 && x % (p * q) == y % (p * q)
  {
    MulLt(0, p, q);
    var k := CongWitness(x, y, q);
    var l := CongWitness(x, y, p);
    var j := CongWitness(i * q, 1, p);
    assert k == (i * l - k * j) * p by {
      assert k * (i * q) == i * (k * q) by { MulAssoc(k, i, q); MulAssoc(i, k, q); }
      assert i * (l * p) == (i * l) * p by { MulAssoc(i, l, p); }
      assert k * (1 + j * p) == k + (k * j) * p by { MulAssoc(k, j, p); }
      assert (i * l - k * j) * p == (i * l) * p - (k * j) * p;
    }
    var z := i * l - k * j;
    assert x == y + z * (p * q) by { MulAssoc(z, p, q); }
    ModAddMultiple(y, z, p * q);
  }
}
