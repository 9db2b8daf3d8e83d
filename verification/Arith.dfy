/** Multiplication, division and congruence facts the solver does not find by itself. */
module Arith {

  lemma MulLe(x: int, y: int, z: int)
    requires x <= y && 0 <= z
    ensures x * z <= y * z
  {
    assert 0 <= (y - x) * z;
  }

  lemma MulLt(x: int, y: int, z: int)
    requires x < y && 0 < z
    ensures x * z < y * z
  {
    assert 0 < (y - x) * z;
  }

  /** Shapes of distributivity and associativity that the digit proofs need. */
  lemma MulDist(p: int, e: int, d: int, q: int)
    ensures p * (e + d * q) == p * e + d * (p * q)
  {
    assert p * (e + d * q) == p * e + p * (d * q);
    MulAssoc(p, d, q);
    MulAssoc(d, p, q);
  }

  lemma MulAssoc(x: int, y: int, z: int)
    ensures x * (y * z) == (x * y) * z == (y * x) * z
  {
  }

  /** A product kept folded, for loops that count. */
  ghost function Times(k: int, m: int): int
  {
    k * m
  }

  lemma TimesStep(k: int, m: int)
    ensures Times(k + 1, m) == Times(k, m) + m && Times(0, m) == 0
  {
  }

  lemma TimesBelow(k: int, n: int, m: int)
    requires Times(k, m) < Times(n, m) && 0 < m
    ensures k < n
  {
    MulCancelLt(k, n, m);
  }

  /** A product orders its left factors. */
  lemma MulCancelLt(x: int, y: int, z: int)
    requires x * z < y * z && 0 < z
    ensures x < y
  {
    if y <= x {
      MulLe(y, x, z);
    }
  }

  /** Quotient and remainder are determined by the division equation. */
  lemma DivModUnique(a: int, b: int, q: int, r: int)
    requires a == q * b + r && 0 <= r < b
    ensures a / b == q && a % b == r
  {
    var k := a / b - q;
    assert a == (a / b) * b + a % b;
    assert k * b == r - a % b;
    if k >= 1 {
      MulLe(1, k, b);
    } else if k <= -1 {
      MulLe(k, -1, b);
    }
  }

  lemma DivModEq(a: int, b: int)
    requires b > 0
    ensures a == (a / b) * b + a % b && 0 <= a % b < b
  {
  }

  /** Adding a multiple of the modulus changes nothing. */
  lemma ModAddMultiple(a: int, k: int, m: int)
    requires m > 0
    ensures (a + k * m) % m == a % m
  {
    DivModEq(a, m);
    assert a + k * m == (a / m + k) * m + a % m by {
      assert (a / m + k) * m == (a / m) * m + k * m;
    }
    DivModUnique(a + k * m, m, a / m + k, a % m);
  }

  lemma ModSmall(a: int, m: int)
    requires 0 <= a < m
    ensures a % m == a && a / m == 0
  {
    DivModUnique(a, m, 0, a);
  }

  /** Congruence, with the multiple as a witness. */
  lemma CongWitness(a: int, b: int, m: int) returns (k: int)
    requires m > 0 && a % m == b % m
    ensures a == b + k * m
  {
    DivModEq(a, m);
    DivModEq(b, m);
    k := a / m - b / m;
    assert k * m == (a / m) * m - (b / m) * m;
  }

  lemma CongScale(a: int, b: int, c: int, m: int)
    requires m > 0 && a % m == b % m
    ensures (a * c) % m == (b * c) % m
  {
    var k := CongWitness(a, b, m);
    ScaledWitness(a, b, k, m, c);
    ModAddMultiple(b * c, k * c, m);
  }

  lemma ScaledWitness(a: int, b: int, k: int, m: int, c: int)
    requires a == b + k * m
    ensures a * c == b * c + (k * c) * m
  {
    MulAssoc(k, m, c);
    MulAssoc(m, k, c);
  }

  lemma CongMul(a: int, b: int, c: int, d: int, m: int)
    requires m > 0 && a % m == b % m && c % m == d % m
    ensures (a * c) % m == (b * d) % m
  {
    CongScale(a, b, c, m);
    CongScale(c, d, b, m);
    assert a * c == c * a && b * c == c * b && b * d == d * b;
  }

  lemma CongAdd(a: int, b: int, c: int, d: int, m: int)
    requires m > 0 && a % m == b % m && c % m == d % m
    ensures (a + c) % m == (b + d) % m
  {
    var k := CongWitness(a, b, m);
    var l := CongWitness(c, d, m);
    assert a + c == b + d + (k + l) * m;
    ModAddMultiple(b + d, k + l, m);
  }

  lemma DivDiv(x: int, a: int, b: int)
    requires 0 < a && 0 < b
    ensures 0 < a * b && (x / a) / b == x / (a * b)
  {
    MulLt(0, a, b);
    var q, r := x / a, x % a;
    DivModEq(x, a);
    DivModEq(q, b);
    MulAssoc(q / b, b, a);
    assert x == (q / b) * (b * a) + ((q % b) * a + r) by {
      assert q * a == ((q / b) * b) * a + (q % b) * a;
    }
    MulLe(q % b + 1, b, a);
    MulLe(0, q % b, a);
    assert (q % b + 1) * a == (q % b) * a + a;
    DivModUnique(x, b * a, q / b, (q % b) * a + r);
  }

  lemma ModMod(a: int, m: int)
    requires m > 0
    ensures (a % m) % m == a % m
  {
    ModSmall(a % m, m);
  }

  function Pow(g: int, n: nat): (r: int)
    ensures g > 0 ==> r > 0
  {
    if n == 0 then 1 else g * Pow(g, n - 1)
  }

  lemma {:induction false} PowAdd(g: int, a: nat, b: nat)
    ensures Pow(g, a + b) == Pow(g, a) * Pow(g, b)
  {
    if a > 0 {
      PowAdd(g, a - 1, b);
      MulAssoc(g, Pow(g, a - 1), Pow(g, b));
    }
  }

  lemma {:induction false} PowMul(g: int, a: nat, b: nat)
    ensures a * b >= 0 && Pow(g, a * b) == Pow(Pow(g, a), b)
  {
    if b > 0 {
      PowMul(g, a, b - 1);
      assert a * b == a + a * (b - 1);
      PowAdd(g, a, a * (b - 1));
    }
  }

  lemma {:induction false} PowCong(a: int, b: int, n: nat, m: int)
    requires m > 0 && a % m == b % m
    ensures Pow(a, n) % m == Pow(b, n) % m
  {
    if n > 0 {
      PowCong(a, b, n - 1, m);
      CongMul(a, b, Pow(a, n - 1), Pow(b, n - 1), m);
    }
  }

  lemma PowStep(g: int, n: nat)
    requires n > 0
    ensures Pow(g, n) == g * Pow(g, n - 1)
  {
  }

  lemma PowTwo28()
    ensures Pow(2, 28) == 0x1000_0000
  {
    assert Pow(2, 7) == 128;
    PowAdd(2, 7, 7);
    PowAdd(2, 14, 14);
  }
}
