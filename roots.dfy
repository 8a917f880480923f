/**
 * The square root of `f64`, on reals.
 *
 * Dafny has no real square root, so every member that takes one receives it as a
 * parameter `sqrt` and requires `IsSqrt(sqrt)`: on non-negative arguments it is
 * non-negative and squares back to its argument. The facts the model needs about
 * it (uniqueness, monotonicity, the values at 0 and 1) are proved from that.
 */
module Roots {

  ghost predicate IsSqrt(sqrt: real -> real)
  {
    forall x: real :: RootAt(sqrt, x)
  }

  /**
   * The requirement at one point. Keeping it behind its own predicate means
   * the verifier uses it only where a proof asks for it through `SqrtFacts`,
   * not at every root a model term happens to mention.
   */
  ghost predicate RootAt(sqrt: real -> real, x: real)
  {
    0.0 <= x ==> 0.0 <= sqrt(x) && sqrt(x) * sqrt(x) == x
  }

  lemma SqrtFacts(sqrt: real -> real, x: real)
    requires IsSqrt(sqrt)
    requires 0.0 <= x
    ensures 0.0 <= sqrt(x) && sqrt(x) * sqrt(x) == x
  {
    assert RootAt(sqrt, x);
  }

  /** A non-negative root of `x` is the root `sqrt` picks. */
  lemma SqrtUnique(sqrt: real -> real, x: real, y: real)
    requires IsSqrt(sqrt)
    requires 0.0 <= y && y * y == x
    ensures sqrt(x) == y
  {
    SqrtFacts(sqrt, x);
    var s := sqrt(x);
    DifferenceOfSquares(s, y);
    DifferenceOfSquares(y, s);
    if s + y != 0.0 {
      NonPositiveFactor(s - y, s + y);
      NonPositiveFactor(y - s, y + s);
    }
  }

  /** The root is zero exactly at zero. */
  lemma SqrtZeroIff(sqrt: real -> real, x: real)
    requires IsSqrt(sqrt)
    requires 0.0 <= x
    ensures 0.0 <= sqrt(x) && sqrt(x) * sqrt(x) == x
    ensures sqrt(x) == 0.0 <==> x == 0.0
  {
    SqrtFacts(sqrt, x);
    if x == 0.0 {
      SqrtUnique(sqrt, x, 0.0);
    } else {
      SqrtPositive(sqrt, x);
    }
  }

  lemma SqrtOfSquare(sqrt: real -> real, y: real)
    requires IsSqrt(sqrt)
    requires 0.0 <= y
    ensures sqrt(y * y) == y
  {
    SqrtUnique(sqrt, y * y, y);
  }

  lemma SqrtPositive(sqrt: real -> real, x: real)
    requires IsSqrt(sqrt)
    requires 0.0 < x
    ensures 0.0 < sqrt(x)
  {
    SqrtFacts(sqrt, x);
  }

  lemma SqrtMonotone(sqrt: real -> real, x: real, y: real)
    requires IsSqrt(sqrt)
    requires 0.0 <= x <= y
    ensures sqrt(x) <= sqrt(y)
  {
    SqrtFacts(sqrt, x);
    SqrtFacts(sqrt, y);
    var sx, sy := sqrt(x), sqrt(y);
    assert (sx - sy) * (sx + sy) == x - y;
    if sx + sy != 0.0 {
      NonPositiveFactor(sx - sy, sx + sy);
    }
  }

  lemma DifferenceOfSquares(a: real, b: real)
    ensures (a - b) * (a + b) == a * a - b * b
  {
  }

  lemma NonPositiveFactor(d: real, p: real)
    requires 0.0 < p && d * p <= 0.0
    ensures d <= 0.0
  {
  }
}
