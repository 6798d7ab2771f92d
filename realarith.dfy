/** Facts about products and quotients of reals that the geometric proofs
    lean on. Each is stated over plain parameters so that it is proved once in
    a small context. */
module RealArith {

  function Square(x: real): real {
    x * x
  }

  /** A zero product with a nonzero factor has a zero other factor. */
  lemma ZeroProduct(x: real, y: real)
    requires x * y == 0.0 && y != 0.0
    ensures x == 0.0
  {
    assert x == (x * y) / y;
  }

  lemma SquareZero(a: real)
    requires a * a == 0.0
    ensures a == 0.0
  {
    if a != 0.0 {
      ZeroProduct(a, a);
    }
  }

  lemma SquarePositive(r: real)
    requires r != 0.0
    ensures 0.0 < Square(r)
  {
    SquareNonNegative(r);
    if Square(r) == 0.0 {
      SquareZero(r);
    }
  }

  lemma SquareNonNegative(a: real)
    ensures 0.0 <= a * a
  {
  }

  lemma ScaleDownLeq(f: real, x: real)
    requires 0.0 <= x && f <= 1.0
    ensures f * x <= x
  {
  }

  /** A product of two numbers in [0, 1] stays in [0, 1]. */
  lemma UnitProduct(a: real, b: real)
    requires 0.0 <= a <= 1.0 && 0.0 <= b <= 1.0
    ensures 0.0 <= a * b <= 1.0
  {
    ProductNonNegative(a, b);
    ScaleDownLeq(a, b);
  }

  lemma ProductNonNegative(a: real, b: real)
    requires 0.0 <= a && 0.0 <= b
    ensures 0.0 <= a * b
  {
  }

  /** Two non-negative reals with the same square are equal. */
  lemma SquareRootUnique(a: real, b: real)
    requires 0.0 <= a && 0.0 <= b && a * a == b * b
    ensures a == b
  {
    assert (a - b) * (a + b) == a * a - b * b;
    if a + b != 0.0 {
      ZeroProduct(a - b, a + b);
    }
  }

  /** The non-negative number whose square is that of a non-positive `a` is
      `-a`. */
  lemma NonNegativeRootOfSquare(a: real, s: real)
    requires a <= 0.0 && 0.0 <= s && s * s == a * a
    ensures s == -a
  {
    assert (s + a) * (s - a) == s * s - a * a;
    if s - a != 0.0 {
      ZeroProduct(s + a, s - a);
    }
  }

  /** Multiplying by a factor and then by its reciprocal gives back the
      original. */
  lemma ReciprocalCancels(d: real, t: real)
    requires d != 0.0
    ensures d * t * (1.0 / d) == t
  {
    assert d * (1.0 / d) == 1.0;
  }

  /** Dividing by a positive number preserves order. */
  lemma DivideByPositive(x: real, y: real, a: real)
    requires x <= y && 0.0 < a
    ensures x / a <= y / a
  {
    assert y / a - x / a == (y - x) / a;
    assert 0.0 <= (y - x) / a;
  }

  lemma ScaleByNegative(x: real, y: real, c: real)
    requires x <= y && c < 0.0
    ensures y * c <= x * c
  {
  }

  lemma ScaleByNonNegative(x: real, y: real, c: real)
    requires x <= y && 0.0 <= c
    ensures x * c <= y * c
  {
  }

  /** Squaring commutes with division. */
  lemma DivSquare(a: real, l: real)
    requires l != 0.0
    ensures (a / l) * (a / l) * (l * l) == a * a
  {
    var q := a / l;
    assert q * l == a;
    calc {
      q * q * (l * l);
      (q * l) * (q * l);
      a * a;
    }
  }
}
