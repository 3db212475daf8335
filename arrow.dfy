/**
 * Arrowhead geometry (`findArrow` and `quadraticEquation`): the two wing points that,
 * with the tip of a segment, form the filled triangle drawn at the segment's end.
 * The source's `square(v)` is written as the product `v * v`.
 */
module Arrow {
  import opened Geometry
  import opened Config

  /** Half the width of an arrowhead: the distance of each wing from the arrow's back point. */
  const WING: real := ARROW_SIZE / 2.7

  datatype Wings = Wings(leftX: real, leftY: real, rightX: real, rightY: real)

  /**
   * The two results of the quadratic formula for A*y^2 + B*y + C = 0, the one with
   * -sqrt(D) first. Whatever the square root returns, the two results sum to -B/A and
   * differ by sqrt(D)/A.
   */
  function QuadraticEquation(A: real, B: real, C: real, sqrt: real -> real): (r: (real, real))
    requires A != 0.0
    ensures r.0 + r.1 == -B / A
    ensures r.1 - r.0 == sqrt(B * B - 4.0 * A * C) / A
  {
    var D := B * B - 4.0 * A * C;
    var x1 := (-B - sqrt(D)) / (2.0 * A);
    var x2 := (-B + sqrt(D)) / (2.0 * A);
    (x1, x2)
  }

  /** With a true square root and a non-negative discriminant, both results are roots. */
  lemma QuadraticEquationSolves(A: real, B: real, C: real, sqrt: real -> real)
    requires IsSqrt(sqrt)
    requires A != 0.0 && B * B - 4.0 * A * C >= 0.0
    ensures var r := QuadraticEquation(A, B, C, sqrt);
      A * r.0 * r.0 + B * r.0 + C == 0.0 && A * r.1 * r.1 + B * r.1 + C == 0.0
  {
    var D := B * B - 4.0 * A * C;
    QuadraticRoot(A, B, C, -sqrt(D), (-B - sqrt(D)) / (2.0 * A));
    QuadraticRoot(A, B, C, sqrt(D), (-B + sqrt(D)) / (2.0 * A));
  }

  /** (-B + s) / 2A solves the equation when s^2 is the discriminant. */
  lemma QuadraticRoot(A: real, B: real, C: real, s: real, y: real)
    requires A != 0.0 && s * s == B * B - 4.0 * A * C
    requires y == (-B + s) / (2.0 * A)
    ensures A * y * y + B * y + C == 0.0
  {
    assert 2.0 * A * y == s - B;
    calc {
      4.0 * A * (A * y * y + B * y + C);
      (2.0 * A * y) * (2.0 * A * y) + 2.0 * B * (2.0 * A * y) + 4.0 * A * C;
      (s - B) * (s - B) + 2.0 * B * (s - B) + 4.0 * A * C;
      s * s - B * B + 4.0 * A * C;
      0.0;
    }
  }

  /** The worked case: y^2 - 4 = 0 gives -2 and 2, in that order. */
  lemma QuadraticEquationExample(sqrt: real -> real)
    requires IsSqrt(sqrt)
    ensures QuadraticEquation(1.0, 0.0, -4.0, sqrt) == (-2.0, 2.0)
  {
    SqrtUnique(sqrt, 16.0, 4.0);
  }

  /**
   * The back point H of the arrow, on the segment's line at distance ARROW_SIZE from
   * the tip: the point dividing start..finish in the ratio lambda = (L - ARROW_SIZE) / ARROW_SIZE.
   * Since 1 + lambda = L / ARROW_SIZE, finish - H is (finish - start) scaled by ARROW_SIZE / L.
   */
  function BackPoint(startX: real, startY: real, finishX: real, finishY: real, L: real): (h: Point)
    requires L > 0.0
    ensures finishX - h.x == (finishX - startX) * ARROW_SIZE / L
    ensures finishY - h.y == (finishY - startY) * ARROW_SIZE / L
  {
    var x := L - ARROW_SIZE;
    var lambda := x / ARROW_SIZE;
    assert 1.0 + lambda == L / ARROW_SIZE;
    BackPointScale(startX, finishX, lambda, L);
    BackPointScale(startY, finishY, lambda, L);
    Point((startX + lambda * finishX) / (1.0 + lambda), (startY + lambda * finishY) / (1.0 + lambda))
  }

  lemma BackPointScale(s: real, f: real, lambda: real, L: real)
    requires L > 0.0 && 1.0 + lambda == L / ARROW_SIZE
    ensures f - (s + lambda * f) / (1.0 + lambda) == (f - s) * ARROW_SIZE / L
  {
    var h := (s + lambda * f) / (1.0 + lambda);
    assert h * (1.0 + lambda) == s + lambda * f;
    assert (f - h) * (1.0 + lambda) == f - s;
    assert (f - h) * L == (f - s) * ARROW_SIZE;
  }

  /** The leading coefficient of the wing equation, Y^2 / X^2 + 1. */
  function CoefA(X: real, Y: real): (a: real)
    requires X != 0.0
    ensures a >= 1.0 && a * (X * X) == X * X + Y * Y
  {
    SquareFacts(X);
    SquareFacts(Y);
    QuotientNonNegative(Y * Y, X * X);
    Y * Y / (X * X) + 1.0
  }

  lemma QuotientNonNegative(n: real, d: real)
    requires n >= 0.0 && d > 0.0
    ensures n / d >= 0.0
  {
  }

  /** k * n / d and k * (n / d) agree. */
  lemma ScaledQuotient(k: real, n: real, d: real)
    requires d != 0.0
    ensures k * n / d == k * (n / d)
  {
  }

  /** The middle coefficient as written in `findArrow`; its xH terms cancel, leaving -2 * yH * A. */
  function CoefB(X: real, Y: real, xH: real, yH: real): (b: real)
    requires X != 0.0
    ensures b == -2.0 * yH * CoefA(X, Y)
  {
    SquareFacts(X);
    ScaledQuotient(2.0 * yH, Y * Y, X * X);
    -(2.0 * Y * xH / X) - (2.0 * (Y * Y) * yH / (X * X)) + (2.0 * Y * xH / X) - 2.0 * yH
  }

  /** The constant coefficient as written in `findArrow`; it reduces to A * yH^2 - (ARROW_SIZE / 2.7)^2. */
  function CoefC(X: real, Y: real, xH: real, yH: real): (c: real)
    requires X != 0.0
    ensures c == CoefA(X, Y) * (yH * yH) - WING * WING
  {
    SquareFacts(X);
    QuotientSquared(Y * yH, X);
    ScaledQuotient(yH * yH, Y * Y, X * X);
    2.0 * (xH * xH) + (Y * yH / X) * (Y * yH / X) + 2.0 * Y * xH * yH / X - 2.0 * (xH * xH)
      - 2.0 * Y * yH * xH / X + yH * yH - (ARROW_SIZE / 2.7) * (ARROW_SIZE / 2.7)
  }

  /** (n / d)^2 is n^2 / d^2. */
  lemma QuotientSquared(n: real, d: real)
    requires d != 0.0
    ensures (n / d) * (n / d) == (n * n) / (d * d)
  {
    var q := n / d;
    assert q * d == n;
    assert (q * q) * (d * d) == n * n;
    SquareFacts(d);
  }

  /** The X-coordinate of a wing from its Y-coordinate: the point on the perpendicular to (X, Y) through H. */
  function WingX(X: real, Y: real, xH: real, yH: real, wy: real): (wx: real)
    requires X != 0.0
    ensures X * (wx - xH) + Y * (wy - yH) == 0.0
  {
    (X * xH + Y * yH - Y * wy) / X
  }

  /**
   * The wings of the arrowhead at (finishX, finishY) for the segment from (startX, startY).
   * A vertical segment gets wings ARROW_SIZE behind the tip and ARROW_SIZE / 2.7 to either side;
   * any other segment gets them from the quadratic solved for the wing Y-coordinates.
   */
  function FindArrow(startX: real, startY: real, finishX: real, finishY: real, sqrt: real -> real): (w: Wings)
    requires IsSqrt(sqrt)
    ensures startX == finishX ==>
      && w.leftY == w.rightY
      && w.leftY == (if finishY > startY then finishY - ARROW_SIZE else finishY + ARROW_SIZE)
      && w.leftX + w.rightX == 2.0 * finishX
      && Abs(w.leftX - w.rightX) == 2.0 * WING
  {
    var X := finishX - startX;
    var Y := finishY - startY;
    if X == 0.0 then
      if finishY > startY then
        var arrLy := finishY - ARROW_SIZE;
        Wings(finishX - ARROW_SIZE / 2.7, arrLy, finishX + ARROW_SIZE / 2.7, arrLy)
      else
        var arrLy := finishY + ARROW_SIZE;
        Wings(finishX + ARROW_SIZE / 2.7, arrLy, finishX - ARROW_SIZE / 2.7, arrLy)
    else
      var L := SegmentLength(X, Y, sqrt);
      var H := BackPoint(startX, startY, finishX, finishY, L);
      WingsAt(X, Y, H, sqrt)
  }

  /**
   * The wings for a segment with direction (X, Y), X != 0, and back point h: the Y-coordinates
   * solve A*y^2 + B*y + C = 0 and each X-coordinate is placed on the perpendicular through h.
   * The wings surround h as an arrowhead's base should.
   */
  function WingsAt(X: real, Y: real, h: Point, sqrt: real -> real): (w: Wings)
    requires IsSqrt(sqrt) && X != 0.0
    ensures WingsAround(X, Y, h, w)
  {
    var r := QuadraticEquation(CoefA(X, Y), CoefB(X, Y, h.x, h.y), CoefC(X, Y, h.x, h.y), sqrt);
    WingRootsAt(X, Y, h.x, h.y, sqrt);
    WingsFromHeights(X, Y, h, r.0, r.1)
  }

  /** The wings at heights ly and ry, each moved onto the perpendicular to (X, Y) through h. */
  function WingsFromHeights(X: real, Y: real, h: Point, ly: real, ry: real): (w: Wings)
    requires X != 0.0
    requires ly + ry == 2.0 * h.y
    requires CoefA(X, Y) * ((ly - h.y) * (ly - h.y)) == WING * WING
    requires CoefA(X, Y) * ((ry - h.y) * (ry - h.y)) == WING * WING
    ensures WingsAround(X, Y, h, w)
  {
    WingPlacementAt(X, Y, h.x, h.y, ly, ry);
    Wings(WingX(X, Y, h.x, h.y, ly), ly, WingX(X, Y, h.x, h.y, ry), ry)
  }

  /**
   * The base of an arrowhead for a segment with direction (X, Y) and back point h: the wings'
   * midpoint is h, each wing lies on the perpendicular to the segment through h, and each is
   * ARROW_SIZE / 2.7 from h.
   */
  predicate WingsAround(X: real, Y: real, h: Point, w: Wings)
  {
    && w.leftX + w.rightX == 2.0 * h.x && w.leftY + w.rightY == 2.0 * h.y
    && X * (w.leftX - h.x) + Y * (w.leftY - h.y) == 0.0
    && X * (w.rightX - h.x) + Y * (w.rightY - h.y) == 0.0
    && (w.leftX - h.x) * (w.leftX - h.x) + (w.leftY - h.y) * (w.leftY - h.y) == WING * WING
    && (w.rightX - h.x) * (w.rightX - h.x) + (w.rightY - h.y) * (w.rightY - h.y) == WING * WING
  }

  /** `Math.sqrt(square(X) + square(Y))`: the length of the segment, positive unless it is a point. */
  function SegmentLength(X: real, Y: real, sqrt: real -> real): (L: real)
    requires IsSqrt(sqrt)
    ensures L >= 0.0 && L * L == X * X + Y * Y
    ensures X != 0.0 || Y != 0.0 ==> L > 0.0
  {
    SquareFacts(X);
    SquareFacts(Y);
    if X != 0.0 || Y != 0.0 then
      SqrtPositive(sqrt, X * X + Y * Y);
      sqrt(X * X + Y * Y)
    else
      sqrt(X * X + Y * Y)
  }

  /** With B = -2 yH A and C = A yH^2 - WING^2 the discriminant is 4 A WING^2, so it is never negative. */
  lemma WingDiscriminant(A: real, yH: real, B: real, C: real)
    requires A >= 1.0 && B == -2.0 * yH * A && C == A * (yH * yH) - WING * WING
    ensures B * B - 4.0 * A * C == 4.0 * A * (WING * WING)
    ensures B * B - 4.0 * A * C > 0.0
  {
  }

  /** Vieta's sum for the wing equation: the two wing Y-coordinates average to yH. */
  lemma WingVieta(A: real, yH: real, B: real, sum: real)
    requires A != 0.0 && B == -2.0 * yH * A && sum == -B / A
    ensures sum == 2.0 * yH
  {
    assert -B == (2.0 * yH) * A;
  }

  /** A root of the wing equation lies WING / sqrt(A) from yH: A * (wy - yH)^2 = WING^2. */
  lemma WingOffset(A: real, B: real, C: real, yH: real, wy: real)
    requires B == -2.0 * yH * A && C == A * (yH * yH) - WING * WING
    requires A * wy * wy + B * wy + C == 0.0
    ensures A * ((wy - yH) * (wy - yH)) == WING * WING
  {
  }

  /** A point on the perpendicular through H at height offset dy with A * dy^2 = WING^2 is WING from H. */
  lemma WingDistance(X: real, Y: real, A: real, dx: real, dy: real)
    requires X != 0.0 && A * (X * X) == X * X + Y * Y
    requires X * dx + Y * dy == 0.0
    requires A * (dy * dy) == WING * WING
    ensures dx * dx + dy * dy == WING * WING
  {
    assert X * dx == -(Y * dy);
    assert (X * dx) * (X * dx) == (Y * dy) * (Y * dy);
    var s := dx * dx + dy * dy;
    calc {
      s * (X * X);
      (X * dx) * (X * dx) + (X * X) * (dy * dy);
      (Y * dy) * (Y * dy) + (X * X) * (dy * dy);
      (dy * dy) * (X * X + Y * Y);
      (dy * dy) * (A * (X * X));
      (WING * WING) * (X * X);
    }
    CancelSquare(s - WING * WING, X);
  }

  lemma CancelSquare(t: real, X: real)
    requires X != 0.0 && t * (X * X) == 0.0
    ensures t == 0.0
  {
    SquareFacts(X);
  }

  /** The two results of the wing equation average to yH and lie WING / sqrt(A) from it. */
  lemma WingRoots(A: real, B: real, C: real, yH: real, sqrt: real -> real)
    requires IsSqrt(sqrt)
    requires A >= 1.0 && B == -2.0 * yH * A && C == A * (yH * yH) - WING * WING
    ensures var r := QuadraticEquation(A, B, C, sqrt);
      && r.0 + r.1 == 2.0 * yH
      && A * ((r.0 - yH) * (r.0 - yH)) == WING * WING
      && A * ((r.1 - yH) * (r.1 - yH)) == WING * WING
  {
    var r := QuadraticEquation(A, B, C, sqrt);
    WingVieta(A, yH, B, r.0 + r.1);
    WingDiscriminant(A, yH, B, C);
    QuadraticEquationSolves(A, B, C, sqrt);
    WingOffset(A, B, C, yH, r.0);
    WingOffset(A, B, C, yH, r.1);
  }

  /** WingRoots for the coefficients FindArrow computes. */
  lemma WingRootsAt(X: real, Y: real, xH: real, yH: real, sqrt: real -> real)
    requires IsSqrt(sqrt) && X != 0.0
    ensures var r := QuadraticEquation(CoefA(X, Y), CoefB(X, Y, xH, yH), CoefC(X, Y, xH, yH), sqrt);
      && r.0 + r.1 == 2.0 * yH
      && CoefA(X, Y) * ((r.0 - yH) * (r.0 - yH)) == WING * WING
      && CoefA(X, Y) * ((r.1 - yH) * (r.1 - yH)) == WING * WING
  {
    WingRoots(CoefA(X, Y), CoefB(X, Y, xH, yH), CoefC(X, Y, xH, yH), yH, sqrt);
  }

  /** WingPlacement for the X-coordinates FindArrow computes. */
  lemma WingPlacementAt(X: real, Y: real, xH: real, yH: real, ly: real, ry: real)
    requires X != 0.0
    requires ly + ry == 2.0 * yH
    requires CoefA(X, Y) * ((ly - yH) * (ly - yH)) == WING * WING
    requires CoefA(X, Y) * ((ry - yH) * (ry - yH)) == WING * WING
    ensures var lx := WingX(X, Y, xH, yH, ly);
      var rx := WingX(X, Y, xH, yH, ry);
      && lx + rx == 2.0 * xH
      && X * (lx - xH) + Y * (ly - yH) == 0.0 && X * (rx - xH) + Y * (ry - yH) == 0.0
      && (lx - xH) * (lx - xH) + (ly - yH) * (ly - yH) == WING * WING
      && (rx - xH) * (rx - xH) + (ry - yH) * (ry - yH) == WING * WING
  {
    WingPlacement(X, Y, CoefA(X, Y), xH, yH, ly, ry, WingX(X, Y, xH, yH, ly), WingX(X, Y, xH, yH, ry));
  }

  /** Wings on the perpendicular through H, at heights averaging yH and A * dy^2 = WING^2. */
  lemma WingPlacement(X: real, Y: real, A: real, xH: real, yH: real, ly: real, ry: real, lx: real, rx: real)
    requires X != 0.0 && A * (X * X) == X * X + Y * Y
    requires ly + ry == 2.0 * yH
    requires A * ((ly - yH) * (ly - yH)) == WING * WING && A * ((ry - yH) * (ry - yH)) == WING * WING
    requires X * (lx - xH) + Y * (ly - yH) == 0.0 && X * (rx - xH) + Y * (ry - yH) == 0.0
    ensures lx + rx == 2.0 * xH
    ensures (lx - xH) * (lx - xH) + (ly - yH) * (ly - yH) == WING * WING
    ensures (rx - xH) * (rx - xH) + (ry - yH) * (ry - yH) == WING * WING
  {
    WingDistance(X, Y, A, lx - xH, ly - yH);
    WingDistance(X, Y, A, rx - xH, ry - yH);
    MidpointFromPerpendicular(X, Y, lx - xH, ly - yH, rx - xH, ry - yH);
  }

  /**
   * Every arrowhead FindArrow draws for a segment of non-zero length, vertical or not, is the
   * base of an arrowhead around the back point H, which lies ARROW_SIZE behind the tip.
   */
  lemma FindArrowShape(startX: real, startY: real, finishX: real, finishY: real, sqrt: real -> real)
    requires IsSqrt(sqrt) && (startX != finishX || startY != finishY)
    ensures var X := finishX - startX; var Y := finishY - startY; var L := SegmentLength(X, Y, sqrt);
      var H := BackPoint(startX, startY, finishX, finishY, L);
      && (finishX - H.x) * L == X * ARROW_SIZE && (finishY - H.y) * L == Y * ARROW_SIZE
      && WingsAround(X, Y, H, FindArrow(startX, startY, finishX, finishY, sqrt))
  {
    var X := finishX - startX;
    var Y := finishY - startY;
    var L := SegmentLength(X, Y, sqrt);
    var H := BackPoint(startX, startY, finishX, finishY, L);
    BackPointTimesLength(finishX - H.x, X, L);
    BackPointTimesLength(finishY - H.y, Y, L);
    if X == 0.0 {
      VerticalBackPoint(startY, finishY, L, H.y);
    }
  }

  /** For a vertical segment L = |Y|, so the back point is ARROW_SIZE above or below the tip. */
  lemma VerticalBackPoint(startY: real, finishY: real, L: real, hy: real)
    requires L > 0.0 && L * L == (finishY - startY) * (finishY - startY)
    requires (finishY - hy) * L == (finishY - startY) * ARROW_SIZE
    ensures hy == if finishY > startY then finishY - ARROW_SIZE else finishY + ARROW_SIZE
  {
    var Y := finishY - startY;
    var a := Abs(Y);
    assert a * a == Y * Y;
    assert (L - a) * (L + a) == 0.0;
    assert L - a == ((L - a) * (L + a)) / (L + a);
    if Y > 0.0 {
      assert (finishY - hy - ARROW_SIZE) * Y == 0.0;
    } else {
      assert Y != 0.0;
      assert (finishY - hy + ARROW_SIZE) * Y == 0.0;
    }
  }

  lemma BackPointTimesLength(d: real, X: real, L: real)
    requires L > 0.0 && d == X * ARROW_SIZE / L
    ensures d * L == X * ARROW_SIZE
  {
  }

  /** Two offsets on the same perpendicular whose Y parts cancel also have cancelling X parts. */
  lemma MidpointFromPerpendicular(X: real, Y: real, lx: real, ly: real, rx: real, ry: real)
    requires X != 0.0 && X * lx + Y * ly == 0.0 && X * rx + Y * ry == 0.0 && ly + ry == 0.0
    ensures lx + rx == 0.0
  {
    assert X * (lx + rx) == 0.0;
  }
}
