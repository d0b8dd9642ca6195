/** Square roots. The program calls the C library's sqrt; the model receives the
    square-root function as a parameter and assumes of it only what IsSqrt says,
    so no property proved here depends on how roots are computed. */
module Roots {

  /** sqrt maps every non-negative real to its non-negative square root. */
  ghost predicate IsSqrt(sqrt: real -> real) {
    forall d :: 0.0 <= d ==> 0.0 <= sqrt(d) && sqrt(d) * sqrt(d) == d
  }

  /** Of two non-negative reals, the larger has the larger square. */
  lemma SquareMonotone(a: real, b: real)
    requires 0.0 <= a < b
    ensures a * a < b * b
  {
    assert 0.0 <= a * (b - a);
    assert 0.0 < b * (b - a);
  }

  /** A non-negative real is determined by its square. */
  lemma SquareInjective(a: real, b: real)
    requires 0.0 <= a && 0.0 <= b && a * a == b * b
    ensures a == b
  {
    if a < b {
      SquareMonotone(a, b);
    } else if b < a {
      SquareMonotone(b, a);
    }
  }

  /** A positive real has a positive root. */
  lemma SqrtPositive(sqrt: real -> real, d: real)
    requires IsSqrt(sqrt) && 0.0 < d
    ensures 0.0 < sqrt(d) && sqrt(d) * sqrt(d) == d
  {
  }

  /** The three surds of the quaternion Fourier transform. */
  lemma SurdFacts(sqrt: real -> real)
    requires IsSqrt(sqrt)
    ensures 0.0 < sqrt(2.0) && sqrt(2.0) * sqrt(2.0) == 2.0
    ensures 0.0 < sqrt(3.0) && sqrt(3.0) * sqrt(3.0) == 3.0
    ensures 0.0 < sqrt(6.0) && sqrt(6.0) * sqrt(6.0) == 6.0
  {
  }

  /** (1 / s)^2 = 1 / n when s is a positive root of n. */
  lemma InverseSquare(s: real, n: real)
    requires 0.0 < s && 0.0 < n && s * s == n
    ensures (1.0 / s) * (1.0 / s) == 1.0 / n
  {
    var t := 1.0 / s;
    assert t * s == 1.0;
    assert (t * t) * n == (t * s) * (t * s);
  }
}
