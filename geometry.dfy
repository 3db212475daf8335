/** Points, segments and the real-number facts shared by the edge and arrowhead geometry. */
module Geometry {

  datatype Point = Point(x: real, y: real)

  /** A segment from (startX, startY) to (finishX, finishY), in the order the drawing code passes them. */
  datatype Segment = Segment(startX: real, startY: real, finishX: real, finishY: real)

  function Abs(a: real): (r: real)
    ensures r >= 0.0 && (r == a || r == -a)
  {
    if a < 0.0 then -a else a
  }

  /** -1, 0 or 1 according to the sign of `a`. */
  function Sign(a: real): real
  {
    if a > 0.0 then 1.0 else if a < 0.0 then -1.0 else 0.0
  }

  /**
   * Signs of a square. The strict fact is stated through the reciprocal: the solver
   * keeps `1 / x^2 > 0` as a fact about the product, where it would rewrite `x^2 > 0` away.
   */
  lemma SquareFacts(x: real)
    ensures x * x >= 0.0
    ensures x != 0.0 ==> 1.0 / (x * x) > 0.0
  {
  }

  /**
   * All the model knows of `Math.sqrt`: on a non-negative argument it returns the
   * non-negative square root. The square root is a parameter of every computation
   * that uses it, constrained by this predicate.
   */
  ghost predicate IsSqrt(sqrt: real -> real)
  {
    forall a :: a >= 0.0 ==> sqrt(a) >= 0.0 && sqrt(a) * sqrt(a) == a
  }

  /** The square root is determined by its two guarantees. */
  lemma SqrtUnique(sqrt: real -> real, a: real, s: real)
    requires IsSqrt(sqrt)
    requires s >= 0.0 && s * s == a
    ensures sqrt(a) == s
  {
    var t := sqrt(a);
    assert t >= 0.0 && t * t == a;
    assert (t - s) * (t + s) == 0.0;
    if t + s == 0.0 {
      assert t == 0.0 && s == 0.0;
    }
  }

  /** The square root of a positive number is positive. */
  lemma SqrtPositive(sqrt: real -> real, a: real)
    requires IsSqrt(sqrt)
    requires a > 0.0
    ensures sqrt(a) > 0.0
  {
    assert sqrt(a) * sqrt(a) == a;
  }
}
