/** Facts of real arithmetic that the solver does not find on its own. Each lemma takes
    distinct parameters, so that a square x * x is proved about as a product a * b. */
module RealArith {

  /** scaling both sides of an equality: the solver does not distribute d over a sum on its own */
  lemma ScaleEqual(d: real, y: real, z: real)
    requires y == z
    ensures d * y == d * z
  {
  }

  lemma ProductNonNegative(a: real, b: real)
    requires 0.0 <= a && 0.0 <= b
    ensures 0.0 <= a * b
  {
  }

  lemma ProductPositive(a: real, b: real)
    requires 0.0 < a && 0.0 < b
    ensures 0.0 < a * b
  {
  }

  lemma ProductNonZero(a: real, b: real)
    requires a != 0.0 && b != 0.0
    ensures a * b != 0.0
  {
  }

  lemma CubeNonZero(a: real, b: real, c: real)
    requires a != 0.0 && b != 0.0 && c != 0.0
    ensures a * b * c != 0.0
  {
    ProductNonZero(a, b);
    ProductNonZero(a * b, c);
  }

  lemma CubePositive(a: real, b: real, c: real)
    requires 0.0 < a && 0.0 < b && 0.0 < c
    ensures 0.0 < a * b * c
  {
    ProductPositive(a, b);
    ProductPositive(a * b, c);
  }

  lemma FifthNonZero(a: real, b: real, c: real, d: real, e: real)
    requires a != 0.0 && b != 0.0 && c != 0.0 && d != 0.0 && e != 0.0
    ensures a * b * c * d * e != 0.0
  {
    CubeNonZero(a, b, c);
    CubeNonZero(a * b * c, d, e);
  }

  lemma FifthPositive(a: real, b: real, c: real, d: real, e: real)
    requires 0.0 < a && 0.0 < b && 0.0 < c && 0.0 < d && 0.0 < e
    ensures 0.0 < a * b * c * d * e
  {
    CubePositive(a, b, c);
    CubePositive(a * b * c, d, e);
  }

  lemma ProductMono(b1: real, b2: real, s1: real, s2: real)
    requires 0.0 <= b1 <= s1 && 0.0 <= b2 <= s2
    ensures b1 * b2 <= s1 * s2
  {
  }

  lemma QuotientPositive(a: real, h: real)
    requires a > 0.0 && h > 0.0
    ensures a / h > 0.0
  {
  }

  lemma QuotientBelowOne(a: real, d: real)
    requires 0.0 <= a < d
    ensures a / d < 1.0
  {
  }

  lemma QuotientTimes(a: real, d: real)
    requires d != 0.0
    ensures a / d * d == a
  {
  }

  lemma ScaledQuotient(c: real, a: real, d: real)
    requires d != 0.0
    ensures c * a / d == c * (a / d)
  {
  }

  lemma ProductQuotient(a: real, d: real)
    requires d != 0.0
    ensures d * a / d == a
  {
  }

  /** multiplying by a positive number keeps a strict order */
  lemma ScaleStrict(a: real, b: real, d: real)
    requires a < b && 0.0 < d
    ensures a * d < b * d
  {
    ProductPositive(b - a, d);
  }

  /** If i <= y / d < i + 1 for a positive d, then d i <= y < d (i + 1). */
  lemma QuotientBracket(y: real, d: real, i: int)
    requires 0.0 < d && i as real <= y / d < (i + 1) as real
    ensures d * i as real <= y < d * (i + 1) as real
  {
    QuotientTimes(y, d);
    ScaledBracket(y / d, y, d, i as real, (i + 1) as real);
  }

  lemma ScaledBracket(q: real, y: real, d: real, a: real, b: real)
    requires 0.0 < d && a <= q < b && q * d == y
    ensures d * a <= y < d * b
  {
    ScaleStrict(q, b, d);
    ProductNonNegative(q - a, d);
  }

  /** the difference of two squares */
  lemma SquareDifference(x: real, y: real)
    ensures x * x - y * y == (x - y) * (x + y)
  {
  }

  /** x^2 >= 0, for either sign of x */
  lemma SquareNonNegative(x: real)
    ensures x * x >= 0.0
  {
    if x < 0.0 {
      NegatedSquare(x, -x);
      ProductNonNegative(-x, -x);
    } else {
      ProductNonNegative(x, x);
    }
  }

  lemma NegatedSquare(x: real, y: real)
    requires y == -x
    ensures x * x == y * y
  {
  }
}
