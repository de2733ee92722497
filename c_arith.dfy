/** Integer arithmetic as C performs it, stated over unbounded integers.

    Dafny's `/` and `%` on `int` are Euclidean; C's `/` (section 6.5.5 of
    ISO/IEC 9899:1999) truncates the quotient toward zero. The rational
    arithmetic and the Syntek percentage macro both divide with C's `/`,
    so they use `CDiv` below. */
module CArith {

  function Abs(x: int): (r: nat)
    ensures r == x || r == -x
  {
    if x < 0 then -x else x
  }

  /** C's `a / b`: the quotient truncated toward zero. The remainder
      `a - q * b` is smaller than the divisor in magnitude and never has
      the opposite sign of the dividend. */
  function CDiv(a: int, b: int): (q: int)
    requires b != 0
    ensures Abs(a - q * b) < Abs(b)
    ensures a >= 0 ==> a - q * b >= 0
    ensures a <= 0 ==> a - q * b <= 0
  {
    TruncatedQuotientRemainder(a, b);
    TruncatedQuotient(a, b)
  }

  /** The quotient of the magnitudes, given the sign of the exact quotient. */
  function TruncatedQuotient(a: int, b: int): int
    requires b != 0
  {
    var m := Abs(a) / Abs(b);
    if (a < 0) == (b < 0) then m else -m
  }

  lemma TruncatedQuotientRemainder(a: int, b: int)
    requires b != 0
    ensures var r := a - TruncatedQuotient(a, b) * b;
      Abs(r) < Abs(b) && (a >= 0 ==> r >= 0) && (a <= 0 ==> r <= 0)
  {
    var m, r := Abs(a) / Abs(b), Abs(a) % Abs(b);
    SignedRemainder(a, b, TruncatedQuotient(a, b), m, r);
  }

  /** Given the division of the magnitudes, the signed remainder is the
      magnitude remainder carrying the sign of `a`. */
  lemma SignedRemainder(a: int, b: int, q: int, m: int, r: int)
    requires b != 0 && Abs(a) == m * Abs(b) + r && 0 <= r < Abs(b)
    requires q == if (a < 0) == (b < 0) then m else -m
    ensures a - q * b == if a < 0 then -r else r
  {
    NegateFactor(m, b);
    if a >= 0 && b > 0 {
      assert q * b == m * Abs(b);
    } else if a >= 0 {
      assert q * b == m * Abs(b);
    } else if b > 0 {
      assert q * b == -(m * Abs(b));
    } else {
      assert q * b == -(m * Abs(b));
    }
  }

  lemma NegateFactor(m: int, b: int)
    ensures (-m) * b == -(m * b) && m * b == -(m * (-b))
  {
  }

  /** The magnitude of a product is the product of the magnitudes. */
  lemma AbsOfProduct(t: int, b: int)
    ensures Abs(t * b) == Abs(t) * Abs(b)
  {
    if t < 0 && b >= 0 {
      assert t * b == -(Abs(t) * b);
    } else if t >= 0 && b < 0 {
      assert t * b == -(t * Abs(b));
    } else if t < 0 && b < 0 {
      assert t * b == Abs(t) * Abs(b);
    }
  }

  /** The only multiple of `b` smaller than `b` in magnitude is zero. */
  lemma SmallMultipleIsZero(t: int, b: int)
    requires b != 0 && Abs(t * b) < Abs(b)
    ensures t == 0
  {
    AbsOfProduct(t, b);
    if t != 0 {
      MulAtLeast(Abs(b), Abs(t));
    }
  }

  /** `d` divides `n` (for a positive `d`). */
  predicate Divides(d: nat, n: int)
  {
    d > 0 && n % d == 0
  }

  /** A product divided by one of its factors gives back the other one. */
  lemma MulDivCancel(d: int, m: int)
    requires d > 0
    ensures (d * m) / d == m && (d * m) % d == 0
  {
    var n := d * m;
    var q, r := n / d, n % d;
    assert n == d * q + r && 0 <= r < d;
    assert d * (m - q) == r;
    assert d * (m - q) == -(d * (q - m));
    if m - q >= 1 {
      MulAtLeast(d, m - q);
    } else if m - q <= -1 {
      MulAtLeast(d, q - m);
    }
  }

  /** A positive factor at least 1 makes a product at least as large as `d`. */
  lemma MulAtLeast(d: int, k: int)
    requires d > 0 && k >= 1
    ensures d * k >= d
  {
    assert d * k == d + d * (k - 1);
    assert d * (k - 1) >= 0;
  }

  /** Divisibility, spelled out as a factorisation. */
  lemma DividesFactor(d: nat, n: int)
    requires d > 0
    ensures Divides(d, n) <==> n == d * (n / d)
  {
    assert n == d * (n / d) + n % d;
  }

  /** `d` divides every multiple of itself. */
  lemma DividesMultiple(d: nat, k: int)
    requires d > 0
    ensures Divides(d, d * k)
  {
    MulDivCancel(d, k);
  }

  /** Divisibility does not see the sign of the dividend. */
  lemma DividesAbs(d: nat, n: int)
    requires d > 0
    ensures Divides(d, n) <==> Divides(d, Abs(n))
  {
    DividesFactor(d, n);
    DividesFactor(d, -n);
    if Divides(d, n) {
      DividesMultiple(d, -(n / d));
      assert -n == d * (-(n / d));
    }
    if Divides(d, -n) {
      DividesMultiple(d, -((-n) / d));
      assert n == d * (-((-n) / d));
    }
  }

  /** `d` divides every integer combination of two of its multiples. */
  lemma DividesCombination(d: nat, x: int, y: int, c: int)
    requires Divides(d, x) && Divides(d, y)
    ensures Divides(d, c * x + y)
  {
    DividesFactor(d, x);
    DividesFactor(d, y);
    var kx, ky := x / d, y / d;
    assert c * x + y == d * (c * kx + ky) by {
      assert c * x == c * (d * kx) == d * (c * kx);
    }
    DividesMultiple(d, c * kx + ky);
  }

  /** When `b` divides `a` exactly, C's truncating division is exact. */
  lemma CDivExact(a: int, b: int, k: int)
    requires b != 0 && a == k * b
    ensures CDiv(a, b) == k
  {
    var q := CDiv(a, b);
    assert a - q * b == (k - q) * b;
    SmallMultipleIsZero(k - q, b);
  }

  /** A nonzero `b` whose magnitude divides `a` divides it exactly under C's `/`. */
  lemma CDivMultiple(a: int, b: int)
    requires b != 0 && Divides(Abs(b), a)
    ensures CDiv(a, b) * b == a
  {
    DividesFactor(Abs(b), a);
    var k := a / Abs(b);
    if b > 0 {
      CDivExact(a, b, k);
    } else {
      assert a == (-k) * b;
      CDivExact(a, b, -k);
    }
  }

  /** A quotient whose remainder has the dividend's sign and is smaller
      than the divisor is C's quotient. */
  lemma CDivUnique(a: int, b: int, q: int)
    requires b > 0
    requires -b < a - q * b < b
    requires a >= 0 ==> a - q * b >= 0
    requires a <= 0 ==> a - q * b <= 0
    ensures CDiv(a, b) == q
  {
    var c := CDiv(a, b);
    var r1, r2 := a - q * b, a - c * b;
    assert r1 - r2 == (c - q) * b;
    assert Abs((c - q) * b) < Abs(b);
    SmallMultipleIsZero(c - q, b);
  }
}
