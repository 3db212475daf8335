/**
 * Trimming an edge so that it starts and ends on the boundary circles of its two
 * nodes rather than at their centres (`findSubs` and `changeCoords`).
 */
module Trim {
  import opened Geometry
  import opened Config

  /** How far each end of a segment is pulled in along X and along Y. */
  datatype Offset = Offset(subX: real, subY: real)

  /** The slope ratio x / y, cut down to two decimals with `Math.floor`. */
  function Proportion(x: real, y: real): (p: real)
    requires x > 0.0 && y > 0.0
    ensures 0.0 <= p <= x / y < p + 0.01
    ensures (100.0 * p).Floor as real == 100.0 * p
  {
    ((x / y) * 100.0).Floor as real / 100.0
  }

  /**
   * The trim offset for an edge. An axis-aligned edge gets the fixed offset (10, 10);
   * otherwise the offset has length R and the slope of the two-decimal proportion.
   * The requires of Proportion is what keeps the division by y from seeing a zero.
   */
  function FindSubs(startX: real, startY: real, finishX: real, finishY: real, sqrt: real -> real): (r: Offset)
    requires IsSqrt(sqrt)
    ensures (startX == finishX || startY == finishY) <==> r == Offset(10.0, 10.0)
    ensures startX != finishX && startY != finishY ==>
      var p := Proportion(Abs(finishX - startX), Abs(finishY - startY));
      0.0 < r.subY <= R && r.subX == r.subY * p && r.subX * r.subX + r.subY * r.subY == R * R
  {
    var x := Abs(finishX - startX);
    var y := Abs(finishY - startY);
    if x == 0.0 || y == 0.0 then
      Offset(10.0, 10.0)
    else
      var proportion := Proportion(x, y);
      var k := 1.0 / (1.0 + proportion * proportion);
      var subY := R * sqrt(k);
      SplitLength(proportion, k, sqrt(k));
      Offset(subY * proportion, subY)
  }

  /** The algebra behind FindSubs: R * sqrt(1 / (1 + p^2)) and p times it form a vector of length R. */
  lemma SplitLength(p: real, k: real, s: real)
    requires p >= 0.0 && k == 1.0 / (1.0 + p * p)
    requires s >= 0.0 && s * s == k
    ensures 0.0 < R * s <= R
    ensures p > 0.0 ==> R * s < R
    ensures (R * s * p) * (R * s * p) + (R * s) * (R * s) == R * R
  {
    assert k * (1.0 + p * p) == 1.0;
    assert 0.0 < k <= 1.0;
    assert s > 0.0;
    if p > 0.0 {
      var pk := p * k;
      assert pk > 0.0;
      assert k == 1.0 - pk * p;
      assert pk * p > 0.0;
      assert s * s < 1.0;
    }
    calc {
      (R * s * p) * (R * s * p) + (R * s) * (R * s);
      R * R * (s * s) * (p * p + 1.0);
      R * R * k * (1.0 + p * p);
      R * R;
    }
  }

  /**
   * Pulls both ends of a segment towards each other by (subX, subY): on each axis
   * the larger coordinate decreases and the smaller increases, and an axis on
   * which the two ends agree is left alone.
   */
  function ChangeCoords(startX: real, startY: real, finishX: real, finishY: real, subX: real, subY: real): (r: Segment)
    ensures r.startX + r.finishX == startX + finishX && r.startY + r.finishY == startY + finishY
    ensures r.finishX - r.startX == (finishX - startX) - 2.0 * Sign(finishX - startX) * subX
    ensures r.finishY - r.startY == (finishY - startY) - 2.0 * Sign(finishY - startY) * subY
  {
    var (sX, fX) :=
      if startX > finishX then (startX - subX, finishX + subX)
      else if startX < finishX then (startX + subX, finishX - subX)
      else (startX, finishX);
    var (sY, fY) :=
      if startY > finishY then (startY - subY, finishY + subY)
      else if startY < finishY then (startY + subY, finishY - subY)
      else (startY, finishY);
    Segment(sX, sY, fX, fY)
  }

  /**
   * On an axis where the ends agree nothing moves, whatever the offset. On any other axis,
   * an offset of at most half the extent shrinks the extent by exactly twice the offset and
   * keeps the direction of the segment. Each axis is stated on its own.
   */
  lemma ChangeCoordsShrinks(startX: real, startY: real, finishX: real, finishY: real, subX: real, subY: real)
    ensures var r := ChangeCoords(startX, startY, finishX, finishY, subX, subY);
      && (startX == finishX ==> r.startX == startX && r.finishX == finishX)
      && (startY == finishY ==> r.startY == startY && r.finishY == finishY)
      && (startX != finishX && 0.0 <= subX && 2.0 * subX <= Abs(finishX - startX) ==>
            Abs(r.finishX - r.startX) == Abs(finishX - startX) - 2.0 * subX
            && Sign(r.finishX - r.startX) * Sign(finishX - startX) >= 0.0)
      && (startY != finishY && 0.0 <= subY && 2.0 * subY <= Abs(finishY - startY) ==>
            Abs(r.finishY - r.startY) == Abs(finishY - startY) - 2.0 * subY
            && Sign(r.finishY - r.startY) * Sign(finishY - startY) >= 0.0)
  {
  }

  /** A vertical edge with the fixed offset: only the Y ends move, each by 10. */
  lemma ChangeCoordsVerticalExample()
    ensures ChangeCoords(0.0, 0.0, 0.0, 100.0, 10.0, 10.0) == Segment(0.0, 10.0, 0.0, 90.0)
  {
  }

  /**
   * The X ends depend only on the X inputs, and the Y ends only on the Y inputs: changing
   * one axis's inputs leaves the other axis's results as they were.
   */
  lemma ChangeCoordsAxesIndependent(startX: real, startY: real, finishX: real, finishY: real, subX: real, subY: real,
                                    startX': real, startY': real, finishX': real, finishY': real, subX': real, subY': real)
    ensures var r := ChangeCoords(startX, startY, finishX, finishY, subX, subY);
      var r' := ChangeCoords(startX, startY', finishX, finishY', subX, subY');
      r.startX == r'.startX && r.finishX == r'.finishX
    ensures var r := ChangeCoords(startX, startY, finishX, finishY, subX, subY);
      var r' := ChangeCoords(startX', startY, finishX', finishY, subX', subY);
      r.startY == r'.startY && r.finishY == r'.finishY
  {
  }

  /** The trimmed segment drawn for an edge between two distinct node centres (drawConnection's else-branch). */
  function TrimEdge(s: Point, f: Point, sqrt: real -> real): (r: Segment)
    requires IsSqrt(sqrt)
    ensures s != f ==> (r.startX - s.x) * (r.startX - s.x) + (r.startY - s.y) * (r.startY - s.y) == R * R
    ensures s != f ==> (r.finishX - f.x) * (r.finishX - f.x) + (r.finishY - f.y) * (r.finishY - f.y) == R * R
    ensures s.x == f.x ==> r.startX == s.x && r.finishX == f.x
    ensures s.y == f.y ==> r.startY == s.y && r.finishY == f.y
  {
    var o := FindSubs(s.x, s.y, f.x, f.y, sqrt);
    ChangeCoords(s.x, s.y, f.x, f.y, o.subX, o.subY)
  }
}
