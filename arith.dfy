/** Facts about real arithmetic used by the geometric and grid proofs. */
module Arith {

  function Max(a: real, b: real): real { if a >= b then a else b }

  function Min(a: real, b: real): real { if a <= b then a else b }

  /** A quotient of a numerator between 0 and a positive denominator lies in [0, 1]. */
  lemma FractionInUnit(a: real, d: real)
    requires 0.0 <= a <= d && d > 0.0
    ensures 0.0 <= a / d <= 1.0
  {
  }

  /** Scaling w by a factor in [0, 1] stays between 0 and w. */
  lemma ScaleByUnit(w: real, t: real)
    requires 0.0 <= t <= 1.0
    ensures Min(0.0, w) <= w * t <= Max(0.0, w)
  {
  }

  /** The product of two positive reals is positive. */
  lemma MulPositive(p: real, q: real)
    requires p > 0.0 && q > 0.0
    ensures p * q > 0.0
  {
  }

  /** Multiplying by a positive d preserves a strict order. */
  lemma ScaleLess(a: real, b: real, d: real)
    requires a < b && d > 0.0
    ensures a * d < b * d
  {
  }

  /** Multiplying by a positive d preserves an order. */
  lemma ScaleAtMost(a: real, b: real, d: real)
    requires a <= b && d > 0.0
    ensures a * d <= b * d
  {
  }

  /** Dividing by a positive d preserves an upper bound: a <= b·d gives a / d <= b. */
  lemma DivAtMost(a: real, b: real, d: real)
    requires d > 0.0 && a <= b * d
    ensures a / d <= b
  {
  }

  /** Dividing by a positive d preserves a lower bound: a >= b·d gives a / d >= b. */
  lemma DivAtLeast(a: real, b: real, d: real)
    requires d > 0.0 && a >= b * d
    ensures a / d >= b
  {
  }

  /** Dividing by a positive d keeps the sign of the numerator. */
  lemma DivSign(a: real, d: real)
    requires d > 0.0
    ensures a >= 0.0 ==> a / d >= 0.0
    ensures a <= 0.0 ==> a / d <= 0.0
    ensures a < 0.0 ==> a / d < 0.0
    ensures a > 0.0 ==> a / d > 0.0
  {
  }

  /** A product with a non-negative factor k has the sign of the other factor. */
  lemma ProductSign(k: real, v: real)
    requires k >= 0.0
    ensures v >= 0.0 ==> k * v >= 0.0
    ensures v <= 0.0 ==> k * v <= 0.0
    ensures k > 0.0 && v < 0.0 ==> k * v < 0.0
    ensures k > 0.0 && v > 0.0 ==> k * v > 0.0
  {
  }

  /** A square no larger than rad² means a distance of at most rad. */
  lemma SquareBound(a: real, rad: real)
    requires rad >= 0.0 && a * a <= rad * rad
    ensures -rad <= a <= rad
  {
    if a > rad {
      MulPositive(a - rad, a + rad);
    }
    if a < -rad {
      MulPositive(-rad - a, rad - a);
    }
  }

  /** (n - 1)·d == n·d - d. */
  lemma PredTimes(n: int, d: real)
    ensures (n - 1) as real * d == n as real * d - d
  {
  }

  /** A square is non-negative. */
  lemma SquareNonNegative(a: real)
    ensures a * a >= 0.0
  {
  }

  /** A count n whose multiple by a positive d is non-negative is itself non-negative. */
  lemma NonNegativeCount(n: int, d: real)
    requires d > 0.0 && n as real * d >= 0.0
    ensures n >= 0
  {
  }
}
