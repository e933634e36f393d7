/** Facts about products of reals that the solver does not find on its own. */
module RealArith {

  lemma MulPos(a: real, b: real)
    requires a > 0.0 && b > 0.0
    ensures a * b > 0.0
  {
  }

  lemma MulNonNeg(a: real, b: real)
    requires a >= 0.0 && b >= 0.0
    ensures a * b >= 0.0
  {
  }

  /** On non-negative reals, squaring preserves and reflects the order. */
  lemma SquareLe(a: real, b: real)
    requires a >= 0.0 && b >= 0.0
    ensures a <= b <==> a * a <= b * b
  {
    if a <= b {
      MulNonNeg(b - a, b + a);
      assert (b - a) * (b + a) == b * b - a * a;
    } else {
      MulPos(a - b, a + b);
      assert (a - b) * (a + b) == a * a - b * b;
    }
  }

  lemma SquareLt(a: real, b: real)
    requires a >= 0.0 && b >= 0.0
    ensures a < b <==> a * a < b * b
  {
    SquareLe(b, a);
  }
}
