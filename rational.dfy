/** Exact rational arithmetic on a numerator/denominator pair of integers.

    Every operation builds a new value; none has state. Construction divides
    both parts by their greatest common divisor, so every result of
    `MakeRational` (and so of `Add`, `Subtract`, `Multiply` and `Divide`) is
    in lowest terms and denotes the same number as the fraction it was built
    from. The sign of the denominator is NOT normalised: `MakeRational`
    keeps the sign of the denominator it is given. */
module Rational {
  import opened CArith

  /** A numerator and a denominator. Nothing stops a value from having a
      zero denominator; the operations that divide by one demand it nonzero. */
  datatype Rational = Rational(numer: int, denom: int)

  /** The number a rational with a nonzero denominator stands for. */
  ghost function Value(r: Rational): real
    requires r.denom != 0
  {
    r.numer as real / r.denom as real
  }

  /** The numerator and the denominator have no common factor but 1. */
  predicate LowestTerms(r: Rational)
  {
    IntegerGcd(r.numer, r.denom) == 1
  }

  // ---------------------------------------------------------------------
  // Greatest common divisor and least common multiple of two integers.
  // The operations below rely on the contracts of IntegerGcd and
  // IntegerLcm, on IntegerGcdGreatest (proved from Euclid's definition of
  // Gcd) and on IntegerLcmCommutes (proved from IntegerLcm's definition).
  // ---------------------------------------------------------------------

  /** Euclid's algorithm on natural numbers. */
  function Gcd(a: nat, b: nat): nat
    decreases b
  {
    if b == 0 then a else Gcd(b, a % b)
  }

  lemma {:induction false} GcdDividesBoth(a: nat, b: nat)
    requires a > 0 || b > 0
    ensures Gcd(a, b) > 0 && Divides(Gcd(a, b), a) && Divides(Gcd(a, b), b)
    decreases b
  {
    if b == 0 {
      MulDivCancel(a, 1);
    } else {
      GcdDividesBoth(b, a % b);
      var g := Gcd(b, a % b);
      assert a == (a / b) * b + a % b;
      DividesCombination(g, b, a % b, a / b);
    }
  }

  lemma {:induction false} GcdGreatest(a: nat, b: nat, d: nat)
    requires Divides(d, a) && Divides(d, b)
    ensures Divides(d, Gcd(a, b))
    decreases b
  {
    if b != 0 {
      assert a % b == (-(a / b)) * b + a;
      DividesCombination(d, b, a, -(a / b));
      GcdGreatest(b, a % b, d);
    }
  }

  /** The greatest common divisor of two integers: positive unless both
      are zero, and a divisor of both. */
  function IntegerGcd(a: int, b: int): (g: nat)
    ensures a != 0 || b != 0 ==> g > 0 && Divides(g, a) && Divides(g, b)
  {
    var g := Gcd(Abs(a), Abs(b));
    if a != 0 || b != 0 then
      GcdDividesBoth(Abs(a), Abs(b));
      DividesAbs(g, a);
      DividesAbs(g, b);
      g
    else
      g
  }

  /** Every common divisor of `a` and `b` divides their greatest common divisor. */
  lemma IntegerGcdGreatest(a: int, b: int, d: nat)
    requires Divides(d, a) && Divides(d, b)
    ensures Divides(d, IntegerGcd(a, b))
  {
    DividesAbs(d, a);
    DividesAbs(d, b);
    GcdGreatest(Abs(a), Abs(b), d);
  }

  /** A positive divisor of a positive number is no larger than it. */
  lemma DividesAtMost(d: nat, n: nat)
    requires n > 0 && Divides(d, n)
    ensures d <= n
  {
    DividesFactor(d, n);
    assert n / d >= 1;
    MulAtLeast(d, n / d);
  }

  /** Two positive numbers that divide each other are equal. */
  lemma DividesAntisymmetric(x: nat, y: nat)
    requires x > 0 && y > 0 && Divides(x, y) && Divides(y, x)
    ensures x == y
  {
    DividesAtMost(x, y);
    DividesAtMost(y, x);
  }

  lemma IntegerGcdCommutes(a: int, b: int)
    ensures IntegerGcd(a, b) == IntegerGcd(b, a)
  {
    if a != 0 || b != 0 {
      IntegerGcdGreatest(a, b, IntegerGcd(b, a));
      IntegerGcdGreatest(b, a, IntegerGcd(a, b));
      DividesAntisymmetric(IntegerGcd(a, b), IntegerGcd(b, a));
    }
  }

  /** The greatest common divisor of zero and a nonzero `d` is `d`'s magnitude. */
  lemma IntegerGcdWithZero(d: int)
    requires d != 0
    ensures IntegerGcd(0, d) == Abs(d)
  {
    var g := IntegerGcd(0, d);
    MulDivCancel(Abs(d), 1);
    MulDivCancel(Abs(d), 0);
    DividesAbs(Abs(d), d);
    IntegerGcdGreatest(0, d, Abs(d));
    DividesAbs(g, d);
    DividesAntisymmetric(g, Abs(d));
  }

  /** Only 1 divides 1. */
  lemma IntegerGcdWithOne(n: int)
    ensures IntegerGcd(n, 1) == 1
  {
    DividesAtMost(IntegerGcd(n, 1), 1);
  }

  /** The least common multiple as `ECVRationalAdd` uses it: for two
      nonzero integers, a positive common multiple of both. */
  function IntegerLcm(a: int, b: int): (l: nat)
    ensures a != 0 && b != 0 ==> l > 0 && Divides(Abs(a), l) && Divides(Abs(b), l)
  {
    if a == 0 || b == 0 then 0
    else
      var g := IntegerGcd(a, b);
      LcmIsCommonMultiple(a, b);
      (Abs(a) / g) * Abs(b)
  }

  lemma LcmIsCommonMultiple(a: int, b: int)
    requires a != 0 && b != 0
    ensures var g := IntegerGcd(a, b);
      g > 0 && (Abs(a) / g) * Abs(b) > 0 &&
      Divides(Abs(a), (Abs(a) / g) * Abs(b)) && Divides(Abs(b), (Abs(a) / g) * Abs(b))
  {
    var g := IntegerGcd(a, b);
    DividesAbs(g, a);
    DividesAbs(g, b);
    DividesFactor(g, Abs(a));
    DividesFactor(g, Abs(b));
    var x, y := Abs(a) / g, Abs(b) / g;
    assert x > 0 && y > 0;
    assert x * Abs(b) == Abs(a) * y by {
      assert x * Abs(b) == x * (g * y) == (g * x) * y;
    }
    DividesMultiple(Abs(a), y);
    DividesMultiple(Abs(b), x);
  }

  lemma IntegerLcmCommutes(a: int, b: int)
    ensures IntegerLcm(a, b) == IntegerLcm(b, a)
  {
    if a != 0 && b != 0 {
      IntegerGcdCommutes(a, b);
      var g := IntegerGcd(a, b);
      DividesAbs(g, a);
      DividesAbs(g, b);
      DividesFactor(g, Abs(a));
      DividesFactor(g, Abs(b));
      var x, y := Abs(a) / g, Abs(b) / g;
      calc {
        IntegerLcm(a, b);
        x * (g * y);
        y * (g * x);
        IntegerLcm(b, a);
      }
    }
  }

  // ---------------------------------------------------------------------
  // The rational operations
  // ---------------------------------------------------------------------

  /** ECVMakeRational: divide numerator and denominator by their greatest
      common divisor. The denominator must be nonzero. */
  function MakeRational(numer: int, denom: int): (r: Rational)
    requires denom != 0
    ensures r.denom != 0 && (r.denom > 0 <==> denom > 0)
    ensures r.numer * denom == numer * r.denom
    ensures Value(r) == numer as real / denom as real
    ensures LowestTerms(r)
  {
    var g := IntegerGcd(numer, denom);
    Reduce(numer, denom);
    Rational(CDiv(numer, g), CDiv(denom, g))
  }

  /** Dividing both parts by their greatest common divisor `g` keeps the
      sign of the denominator and the value, and leaves no common factor. */
  lemma Reduce(numer: int, denom: int)
    requires denom != 0
    ensures var g := IntegerGcd(numer, denom);
      var r := Rational(CDiv(numer, g), CDiv(denom, g));
      r.denom != 0 && (r.denom > 0 <==> denom > 0) &&
      r.numer * denom == numer * r.denom &&
      Value(r) == numer as real / denom as real &&
      LowestTerms(r)
  {
    var g := IntegerGcd(numer, denom);
    CDivMultiple(numer, g);
    CDivMultiple(denom, g);
    var n', d' := CDiv(numer, g), CDiv(denom, g);
    CoprimeQuotients(numer, denom, g, n', d');
    SignOfQuotient(denom, g, d');
    assert n' * denom == numer * d' by {
      assert n' * denom == n' * (d' * g) == (n' * g) * d';
    }
    CrossProductValue(n', d', numer, denom);
  }

  /** Dividing by a positive number keeps the sign. */
  lemma SignOfQuotient(x: int, g: int, q: int)
    requires g > 0 && x != 0 && q * g == x
    ensures q != 0 && (q > 0 <==> x > 0)
  {
    if q >= 1 {
      MulAtLeast(g, q);
    } else if q <= -1 {
      MulAtLeast(g, -q);
      assert q * g == -(g * (-q));
    }
  }

  /** If `g` is the greatest common divisor of `numer` and `denom`, the
      quotients `numer / g` and `denom / g` are coprime. */
  lemma CoprimeQuotients(numer: int, denom: int, g: nat, n': int, d': int)
    requires g == IntegerGcd(numer, denom) && g > 0
    requires numer == n' * g && denom == d' * g && d' != 0
    ensures IntegerGcd(n', d') == 1
  {
    var h := IntegerGcd(n', d');
    ScaledDivisor(n', h, g);
    ScaledDivisor(d', h, g);
    IntegerGcdGreatest(numer, denom, g * h);
    DividesAtMost(g * h, g);
    if h >= 2 {
      assert g * h == g + g * (h - 1);
      MulAtLeast(g, h - 1);
    }
  }

  /** Scaling a number and one of its divisors by the same positive factor
      keeps the divisibility. */
  lemma ScaledDivisor(x: int, h: nat, g: nat)
    requires Divides(h, x) && g > 0
    ensures g * h > 0 && Divides(g * h, x * g)
  {
    DividesFactor(h, x);
    var k := x / h;
    assert x * g == (g * h) * k by {
      assert x * g == (h * k) * g;
    }
    DividesMultiple(g * h, k);
  }

  /** Value equality of two fractions, from their cross products. */
  lemma CrossProductValue(p: int, q: int, s: int, t: int)
    requires q != 0 && t != 0 && p * t == s * q
    ensures p as real / q as real == s as real / t as real
  {
  }

  /** ECVRationalInverse: numerator and denominator trade places. */
  function Inverse(r: Rational): (inv: Rational)
    ensures r.numer != 0 && r.denom != 0 ==> inv.denom != 0 && Value(inv) == 1.0 / Value(r)
  {
    Rational(r.denom, r.numer)
  }

  /** ECVRationalAdd: both numerators are rescaled to the least common
      multiple of the denominators, and the sum is reduced. Because that
      common multiple is positive, so is the denominator of every sum. */
  function Add(a: Rational, b: Rational): (r: Rational)
    requires a.denom != 0 && b.denom != 0
    ensures r.denom > 0 && LowestTerms(r)
    ensures Value(r) == Value(a) + Value(b)
  {
    var denom := IntegerLcm(a.denom, b.denom);
    var aMul := CDiv(denom, a.denom);
    var bMul := CDiv(denom, b.denom);
    CDivMultiple(denom, a.denom);
    CDivMultiple(denom, b.denom);
    RescaledSum(a.numer, a.denom, b.numer, b.denom, denom, aMul, bMul);
    MakeRational(a.numer * aMul + b.numer * bMul, denom)
  }

  /** Rescaling two fractions to a common denominator keeps their sum. */
  lemma RescaledSum(p: int, q: int, s: int, t: int, l: int, u: int, v: int)
    requires q != 0 && t != 0 && l != 0 && u * q == l && v * t == l
    ensures (p * u + s * v) as real / l as real == p as real / q as real + s as real / t as real
  {
  }

  /** ECVRationalSubtract: add the operand with its numerator negated. */
  function Subtract(a: Rational, b: Rational): (r: Rational)
    requires a.denom != 0 && b.denom != 0
    ensures r.denom > 0 && LowestTerms(r)
    ensures Value(r) == Value(a) - Value(b)
  {
    var bNeg := Rational(-b.numer, b.denom);
    assert Value(bNeg) == -Value(b);
    Add(a, bNeg)
  }

  /** ECVRationalMultiply: multiply the parts crosswise and reduce. */
  function Multiply(a: Rational, b: Rational): (r: Rational)
    requires a.denom != 0 && b.denom != 0
    ensures r.denom != 0 && LowestTerms(r)
    ensures r.denom > 0 <==> a.denom * b.denom > 0
    ensures Value(r) == Value(a) * Value(b)
  {
    NonzeroProduct(a.denom, b.denom);
    ProductValue(a.numer, a.denom, b.numer, b.denom);
    MakeRational(a.numer * b.numer, a.denom * b.denom)
  }

  lemma NonzeroProduct(x: int, y: int)
    requires x != 0 && y != 0
    ensures x * y != 0
  {
  }

  /** The product of two fractions is the fraction of the products. */
  lemma ProductValue(p: int, q: int, s: int, t: int)
    requires q != 0 && t != 0
    ensures q * t != 0
    ensures (p * s) as real / (q * t) as real == (p as real / q as real) * (s as real / t as real)
  {
  }

  /** ECVRationalDivide: multiply by the inverse. The divisor's numerator
      becomes a factor of the denominator handed to `MakeRational`, so it
      must be nonzero; the divisor's denominator may be anything. */
  function Divide(a: Rational, b: Rational): (r: Rational)
    requires a.denom != 0 && b.numer != 0
    ensures r.denom != 0 && LowestTerms(r)
    ensures r.denom > 0 <==> a.denom * b.numer > 0
    ensures b.denom != 0 ==> Value(r) == Value(a) / Value(b)
  {
    var r := Multiply(a, Inverse(b));
    if b.denom != 0 then
      ScaleByReciprocal(Value(a), Value(b), Value(Inverse(b)), Value(r));
      r
    else
      r
  }

  /** ECVRationalToNSInteger: a rational whose denominator is 1 is the
      integer it stands for. */
  function ToInteger(r: Rational): (n: int)
    requires r.denom == 1
    ensures n as real == Value(r)
  {
    r.numer
  }

  // ---------------------------------------------------------------------
  // Laws relating several operations
  // ---------------------------------------------------------------------

  /** Inverting twice gives back the very same pair. */
  lemma InverseInvolutive(r: Rational)
    ensures Inverse(Inverse(r)) == r
  {
  }

  /** A value in lowest terms is left as it is by `MakeRational`. */
  lemma MakeRationalOfLowestTerms(r: Rational)
    requires r.denom != 0 && LowestTerms(r)
    ensures MakeRational(r.numer, r.denom) == r
  {
    CDivExact(r.numer, 1, r.numer);
    CDivExact(r.denom, 1, r.denom);
  }

  /** Hence normalising twice is the same as normalising once. */
  lemma MakeRationalIdempotent(numer: int, denom: int)
    requires denom != 0
    ensures var r := MakeRational(numer, denom); MakeRational(r.numer, r.denom) == r
  {
    MakeRationalOfLowestTerms(MakeRational(numer, denom));
  }

  /** An integer made into a rational with denominator 1 converts back to itself. */
  lemma ToIntegerOfWhole(n: int)
    ensures MakeRational(n, 1).denom == 1 && ToInteger(MakeRational(n, 1)) == n
  {
    IntegerGcdWithOne(n);
    CDivExact(n, 1, n);
    CDivExact(1, 1, 1);
  }

  /** The product of two whole numbers is a whole number again, so it can
      be converted with `ToInteger`. */
  lemma MultiplyWholes(m: int, n: int)
    ensures Multiply(Rational(m, 1), Rational(n, 1)).denom == 1
    ensures ToInteger(Multiply(Rational(m, 1), Rational(n, 1))) == m * n
  {
    ToIntegerOfWhole(m * n);
  }

  /** A rational minus itself is exactly zero over one. */
  lemma SubtractSelf(a: Rational)
    requires a.denom != 0
    ensures Subtract(a, a) == Rational(0, 1)
  {
    var l := IntegerLcm(a.denom, a.denom);
    var m := CDiv(l, a.denom);
    assert a.numer * m + (-a.numer) * m == 0;
    IntegerGcdWithZero(l);
    CDivExact(0, l, 0);
    CDivExact(l, l, 1);
  }

  /** Addition gives the same pair whichever operand comes first. */
  lemma AddCommutes(a: Rational, b: Rational)
    requires a.denom != 0 && b.denom != 0
    ensures Add(a, b) == Add(b, a)
  {
    IntegerLcmCommutes(a.denom, b.denom);
  }

  /** So does multiplication. */
  lemma MultiplyCommutes(a: Rational, b: Rational)
    requires a.denom != 0 && b.denom != 0
    ensures Multiply(a, b) == Multiply(b, a)
  {
    assert a.numer * b.numer == b.numer * a.numer;
    assert a.denom * b.denom == b.denom * a.denom;
  }

  /** Dividing by `b` and multiplying by `b` again gives back the value of `a`. */
  lemma DivideThenMultiply(a: Rational, b: Rational)
    requires a.denom != 0 && b.numer != 0 && b.denom != 0
    ensures Value(Multiply(Divide(a, b), b)) == Value(a)
  {
    var q := Divide(a, b);
    assert Value(b) != 0.0;
    DivideThenScale(Value(a), Value(b), Value(q), Value(Multiply(q, b)));
  }

  lemma ScaleByReciprocal(x: real, y: real, inv: real, p: real)
    requires y != 0.0 && inv == 1.0 / y && p == x * inv
    ensures p == x / y
  {
  }

  lemma DivideThenScale(x: real, y: real, q: real, p: real)
    requires y != 0.0 && q == x / y && p == q * y
    ensures p == x
  {
  }

  /** A nonzero rational times its inverse is one. */
  lemma MultiplyByInverse(r: Rational)
    requires r.numer != 0 && r.denom != 0
    ensures Value(Multiply(r, Inverse(r))) == 1.0
  {
  }
}
