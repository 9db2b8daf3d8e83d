/** Polynomials over GF(2) and the field product of GCM: multiplication of 128-bit blocks modulo
    x^128 + x^7 + x^2 + x + 1. The leftmost bit of a block is the coefficient of x^0. */
module Gf128 {

  /** A polynomial: coefficient k at index k; trailing zeros do not matter. */
  type Poly = seq<bool>

  function Zeros(n: nat): (r: Poly)
    ensures |r| == n && forall k :: 0 <= k < n ==> !r[k]
  {
    seq(n, k => false)
  }

  /** A block of 128 bits. */
  type Element = s: Poly | |s| == 128 witness Zeros(128)

  function At(p: Poly, k: nat): bool
  {
    k < |p| && p[k]
  }

  function Max(a: nat, b: nat): nat
  {
    if a < b then b else a
  }

  function Add(a: Poly, b: Poly): (r: Poly)
    ensures |r| == Max(|a|, |b|) && forall k {:trigger r[k]} :: 0 <= k < |r| ==> r[k] == (At(a, k) != At(b, k))
  {
    seq(Max(|a|, |b|), k requires k >= 0 => At(a, k) != At(b, k))
  }

  lemma AddComm(a: Poly, b: Poly)
    ensures Add(a, b) == Add(b, a)
  {
  }

  lemma AddAssoc(a: Poly, b: Poly, c: Poly)
    ensures Add(Add(a, b), c) == Add(a, Add(b, c))
  {
  }

  lemma AddZeros(a: Poly, n: nat)
    requires n <= |a|
    ensures Add(a, Zeros(n)) == a && Add(Zeros(n), a) == a && Add(a, a) == Zeros(|a|)
  {
  }

  /** Sums of four, regrouped. */
  lemma AddFour(a: Poly, b: Poly, c: Poly, d: Poly)
    ensures Add(Add(a, b), Add(c, d)) == Add(Add(a, c), Add(b, d))
  {
  }

  function Scaled(b: bool, p: Poly): (r: Poly)
    ensures |r| == |p|
  {
    if b then p else Zeros(|p|)
  }

  lemma ScaledAdd(b: bool, p: Poly, q: Poly)
    requires |p| == |q|
    ensures Scaled(b, Add(p, q)) == Add(Scaled(b, p), Scaled(b, q))
  {
  }

  lemma ScaledSum(b: bool, c: bool, p: Poly)
    ensures Scaled(b != c, p) == Add(Scaled(b, p), Scaled(c, p))
  {
    AddZeros(p, |p|);
  }

  /** The product of polynomials, nothing reduced. */
  function Product(x: Poly, y: Poly): (r: Poly)
    ensures x != [] && y != [] ==> |r| == |x| + |y| - 1
  {
    if x == [] then [] else Add(Scaled(x[0], y), [false] + Product(x[1..], y))
  }

  // ---------------------------------------------------------------- the field

  /** The octet 0xe1 followed by zeros: x^7 + x^2 + x + 1. */
  function R(): Element
  {
    Zeros(128)[0 := true][1 := true][2 := true][7 := true]
  }

  function Modulus(): (r: Poly)
    ensures |r| == 129
  {
    R() + [true]
  }

  function One(): Element
  {
    Zeros(128)[0 := true]
  }

  /** Shift to the right, and fold the bit that falls out back in. */
  function TimesX(v: Element): Element
  {
    Add([false] + v[..127], Scaled(v[127], R()))
  }

  /** The sum of TimesX^k(y) over the coefficients k that are set in x. */
  function Sum(x: Poly, y: Element): Element
    decreases |x|
  {
    if x == [] then Zeros(128) else Add(Scaled(x[0], y), Sum(x[1..], TimesX(y)))
  }

  /** The product of blocks. */
  function Mul(x: Element, y: Element): Element
  {
    Sum(x, y)
  }

  lemma TimesXAdd(u: Element, v: Element)
    ensures TimesX(Add(u, v)) == Add(TimesX(u), TimesX(v))
  {
    hide R;
    var w: Element := Add(u, v);
    assert [false] + w[..127] == Add([false] + u[..127], [false] + v[..127]);
    assert w[127] == (u[127] != v[127]);
    ScaledSum(u[127], v[127], R());
    AddFour([false] + u[..127], [false] + v[..127], Scaled(u[127], R()), Scaled(v[127], R()));
  }

  lemma TimesXZero()
    ensures TimesX(Zeros(128)) == Zeros(128)
  {
    assert [false] + Zeros(128)[..127] == Zeros(128);
    AddZeros(Zeros(128), 128);
  }

  lemma TimesXScaled(b: bool, v: Element)
    ensures TimesX(Scaled(b, v)) == Scaled(b, TimesX(v))
  {
    hide TimesX;
    TimesXZero();
  }

  /** The sum is linear in the block. */
  lemma {:induction false} SumAdd(x: Poly, u: Element, v: Element)
    ensures Sum(x, Add(u, v)) == Add(Sum(x, u), Sum(x, v))
    decreases |x|
  {
    hide TimesX, Add, Scaled;
    if x == [] {
      AddZeros(Zeros(128), 128);
    } else {
      TimesXAdd(u, v);
      SumAdd(x[1..], TimesX(u), TimesX(v));
      ScaledAdd(x[0], u, v);
      AddFour(Scaled(x[0], u), Scaled(x[0], v), Sum(x[1..], TimesX(u)), Sum(x[1..], TimesX(v)));
    }
  }

  lemma {:induction false} SumZero(x: Poly)
    ensures Sum(x, Zeros(128)) == Zeros(128)
  {
    if x != [] {
      TimesXZero();
      SumZero(x[1..]);
      AddZeros(Zeros(128), 128);
    }
  }

  lemma SumScaled(x: Poly, b: bool, u: Element)
    ensures Sum(x, Scaled(b, u)) == Scaled(b, Sum(x, u))
  {
    SumZero(x);
  }

  lemma {:induction false} SumTimesX(x: Poly, u: Element)
    ensures Sum(x, TimesX(u)) == TimesX(Sum(x, u))
    decreases |x|
  {
    hide TimesX, Add, Scaled;
    if x == [] {
      TimesXZero();
    } else {
      SumTimesX(x[1..], TimesX(u));
      TimesXScaled(x[0], u);
      TimesXAdd(Scaled(x[0], u), Sum(x[1..], TimesX(u)));
    }
  }

  /** Two sums, one inside the other, in either order. */
  lemma {:induction false} SumSwap(a: Poly, b: Poly, c: Element)
    ensures Sum(a, Sum(b, c)) == Sum(b, Sum(a, c))
    decreases |b|
  {
    hide TimesX, Add, Scaled, Sum;
    SumStep(b, c);
    SumStep(b, Sum(a, c));
    if b == [] {
      SumZero(a);
    } else {
      SumAdd(a, Scaled(b[0], c), Sum(b[1..], TimesX(c)));
      SumScaled(a, b[0], c);
      SumSwap(a, b[1..], TimesX(c));
      SumTimesX(a, c);
    }
  }

  lemma SumStep(b: Poly, c: Element)
    ensures Sum(b, c) == if b == [] then Zeros(128) else Add(Scaled(b[0], c), Sum(b[1..], TimesX(c)))
  {
  }

  /** The power x^k, k below 128. */
  function Unit(k: nat): Element
    requires k < 128
  {
    Zeros(128)[k := true]
  }

  lemma TimesXUnit(k: nat)
    requires k < 128
    ensures TimesX(Unit(k)) == if k < 127 then Unit(k + 1) else R()
  {
    if k < 127 {
      assert [false] + Unit(k)[..127] == Unit(k + 1);
      AddZeros(Unit(k + 1), 128);
    } else {
      assert [false] + Unit(k)[..127] == Zeros(128);
      AddZeros(R(), 128);
    }
  }

  lemma {:induction false} SumUnit(x: Poly, k: nat)
    requires k < 128 && |x| + k <= 128
    ensures Sum(x, Unit(k)) == Zeros(k) + x + Zeros(128 - k - |x|)
    decreases |x|
  {
    hide TimesX, Sum;
    SumStep(x, Unit(k));
    if x == [] {
    } else if k == 127 {
      SumStep(x[1..], TimesX(Unit(k)));
    } else {
      TimesXUnit(k);
      SumUnit(x[1..], k + 1);
    }
  }

  /** One is one. */
  lemma SumOne(x: Element)
    ensures Sum(x, One()) == x
  {
    SumUnit(x, 0);
  }

  lemma MulComm(x: Element, y: Element)
    ensures Mul(x, y) == Mul(y, x)
  {
    SumOne(x);
    SumOne(y);
    SumSwap(x, y, One());
  }

  lemma MulAssoc(x: Element, y: Element, z: Element)
    ensures Mul(Mul(x, y), z) == Mul(x, Mul(y, z))
  {
    MulComm(Mul(x, y), z);
    SumSwap(z, x, y);
    MulComm(z, y);
  }

  lemma MulBilinear(x: Element, y: Element, z: Element)
    ensures Mul(x, Add(y, z)) == Add(Mul(x, y), Mul(x, z))
    ensures Mul(Add(y, z), x) == Add(Mul(y, x), Mul(z, x))
  {
    hide Sum, Add;
    SumAdd(x, y, z);
    MulComm(x, y);
    MulComm(x, z);
    MulComm(x, Add(y, z));
  }

  lemma MulOneZero(x: Element)
    ensures Mul(One(), x) == x && Mul(x, One()) == x && Mul(Zeros(128), x) == Zeros(128)
  {
    SumOne(x);
    MulComm(One(), x);
    SumZero(x);
    MulComm(Zeros(128), x);
  }

  // ---------------------------------------------------------------- against polynomial arithmetic

  /** The residue of a polynomial of any degree. */
  function Reduced(p: Poly): Element
  {
    Sum(p, One())
  }

  lemma AddParts(a: Poly, b: Poly)
    requires a != [] && b != []
    ensures Add(a, b) == [a[0] != b[0]] + Add(a[1..], b[1..])
  {
  }

  lemma {:induction false} SumOfAdd(a: Poly, b: Poly, y: Element)
    ensures Sum(Add(a, b), y) == Add(Sum(a, y), Sum(b, y))
    decreases |a| + |b|
  {
    hide TimesX, Sum;
    if a == [] {
      SumStep(a, y);
      AddZeros(b, 0);
      AddZeros(Sum(b, y), 128);
    } else if b == [] {
      SumStep(b, y);
      AddZeros(a, 0);
      AddZeros(Sum(a, y), 128);
    } else {
      AddParts(a, b);
      var s := Add(a, b);
      assert s[0] == (a[0] != b[0]) && s[1..] == Add(a[1..], b[1..]);
      hide Add, Scaled;
      SumStep(a, y);
      SumStep(b, y);
      SumStep(s, y);
      SumOfAdd(a[1..], b[1..], TimesX(y));
      ScaledSum(a[0], b[0], y);
      AddFour(Scaled(a[0], y), Scaled(b[0], y), Sum(a[1..], TimesX(y)), Sum(b[1..], TimesX(y)));
    }
  }

  lemma {:induction false} SumOfZeros(n: nat, y: Element)
    ensures Sum(Zeros(n), y) == Zeros(128)
  {
    hide TimesX, Sum;
    SumStep(Zeros(n), y);
    if n > 0 {
      assert Zeros(n)[1..] == Zeros(n - 1);
      SumOfZeros(n - 1, TimesX(y));
      AddZeros(Zeros(128), 128);
    }
  }

  lemma SumOfScaled(b: bool, p: Poly, y: Element)
    ensures Sum(Scaled(b, p), y) == Scaled(b, Sum(p, y))
  {
    SumOfZeros(|p|, y);
  }

  lemma SumOfShift(p: Poly, y: Element)
    ensures Sum([false] + p, y) == Sum(p, TimesX(y))
  {
    hide TimesX, Sum;
    SumStep([false] + p, y);
    assert ([false] + p)[1..] == p;
    AddZeros(Sum(p, TimesX(y)), 128);
  }

  /** A sum over a product is a sum of a sum. */
  lemma {:induction false} SumOfProduct(x: Poly, y: Poly, z: Element)
    ensures Sum(Product(x, y), z) == Sum(x, Sum(y, z))
    decreases |x|
  {
    hide TimesX, Sum, Add, Scaled, Product;
    ProductStep(x, y);
    SumStep(x, Sum(y, z));
    if x == [] {
      SumStep([], z);
    } else {
      var t := Product(x[1..], y);
      SumOfAdd(Scaled(x[0], y), [false] + t, z);
      SumOfScaled(x[0], y, z);
      SumOfShift(t, z);
      SumOfProduct(x[1..], y, TimesX(z));
      SumTimesX(y, z);
    }
  }

  lemma ProductStep(x: Poly, y: Poly)
    ensures Product(x, y) == if x == [] then [] else Add(Scaled(x[0], y), [false] + Product(x[1..], y))
  {
  }

  /** The block product is the reduced polynomial product. */
  lemma MulIsReducedProduct(x: Element, y: Element)
    ensures Mul(x, y) == Reduced(Product(x, y))
  {
    SumOfProduct(x, y, One());
    SumOne(y);
  }

  lemma ModulusVanishes()
    ensures Reduced(Modulus()) == Zeros(128)
  {
    hide Sum, R, Modulus;
    ModulusParts();
    SumOfAdd(R(), Zeros(128) + [true], One());
    SumOne(R());
    TopPower(0);
    AddZeros(R(), 128);
  }

  lemma ModulusParts()
    ensures Modulus() == Add(R(), Zeros(128) + [true])
  {
  }

  lemma {:induction false} TopPower(k: nat)
    requires k < 128
    ensures Sum(Zeros(128 - k) + [true], Unit(k)) == R()
    decreases 128 - k
  {
    hide TimesX, Sum;
    var p := Zeros(127 - k) + [true];
    assert Zeros(128 - k) + [true] == [false] + p;
    SumOfShift(p, Unit(k));
    TimesXUnit(k);
    if k < 127 {
      TopPower(k + 1);
    } else {
      assert p == [true];
      SumStep(p, R());
      SumStep([], TimesX(R()));
      assert p[1..] == [];
      AddZeros(R(), 128);
    }
  }

  /** Reduction is division with remainder by the modulus: here is the quotient. */
  lemma {:induction false} DivideByModulus(p: Poly) returns (q: Poly)
    requires |p| >= 128
    ensures |q| == |p| - 128 && Add(Product(q, Modulus()), Reduced(p)) == p
    decreases |p|
  {
    if |p| == 128 {
      q := [];
      SumOne(p);
      AddZeros(p, 0);
    } else {
      var t := DivideByModulus(p[1..]);
      var r := Reduced(p[1..]);
      q := [r[127]] + t;
      assert q[1..] == t;
      hide Modulus, Product, Sum;
      ReducedStep(p);
      ProductStep(q, Modulus());
      QuotientStep(p, Scaled(r[127], Modulus()), Product(t, Modulus()), r);
    }
  }

  lemma ReducedStep(p: Poly)
    requires p != []
    ensures Reduced(p) == Add(Scaled(p[0], One()), TimesX(Reduced(p[1..])))
  {
    hide TimesX;
    SumTimesX(p[1..], One());
  }

  lemma QuotientStep(p: Poly, m: Poly, t: Poly, r: Element)
    requires |p| > 128 && m == Scaled(r[127], Modulus()) && Add(t, r) == p[1..]
    ensures Add(Add(m, [false] + t), Add(Scaled(p[0], One()), TimesX(r))) == p
  {
    var u := Add(m, TimesX(r));
    ShiftedRemainder(r);
    AddFour(m, [false] + t, Scaled(p[0], One()), TimesX(r));
    assert u == [false] + r;
    AddFour(m, [false] + t, TimesX(r), Scaled(p[0], One()));
    AddComm(Scaled(p[0], One()), TimesX(r));
    var low := Add([false] + t, Scaled(p[0], One()));
    forall k | 0 <= k < |p|
      ensures |Add([false] + r, low)| == |p| && Add([false] + r, low)[k] == p[k]
    {
      assert k > 0 ==> p[1..][k - 1] == (At(t, k - 1) != At(r, k - 1));
    }
  }

  /** x * r written with quotient and remainder. */
  lemma ShiftedRemainder(r: Element)
    ensures Add(Scaled(r[127], Modulus()), TimesX(r)) == [false] + r
  {
  }

  /** The product of blocks is the remainder of the polynomial product, and the only one. */
  lemma MulIsRemainder(x: Element, y: Element, z: Element)
    ensures z == Mul(x, y) <==> exists q: Poly :: |q| == 127 && Add(Product(q, Modulus()), z) == Product(x, y)
  {
    hide Product, Modulus, Sum, Add;
    MulIsReducedProduct(x, y);
    if z == Mul(x, y) {
      var q := DivideByModulus(Product(x, y));
      assert |q| == 127 && Add(Product(q, Modulus()), z) == Product(x, y);
    }
    if q: Poly :| |q| == 127 && Add(Product(q, Modulus()), z) == Product(x, y) {
      SumOfAdd(Product(q, Modulus()), z, One());
      SumOfProduct(q, Modulus(), One());
      ModulusVanishes();
      SumZero(q);
      SumOne(z);
      AddZeros(z, 128);
    }
  }
}
