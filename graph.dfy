/**
 * The graph itself: the nodes laid out on a circle and labelled 1..N (`definePeaks`),
 * their adjacency lists read off the matrix (`connectPeaks`), and what is drawn for
 * every edge (`drawConnection`, `drTail` and the computing half of `drLine`).
 */
module Graph {
  import opened Geometry
  import opened Config
  import opened Trim
  import opened Arrow

  /** A node: its label, its centre, the indices of the nodes it has edges to, and its angle. */
  datatype Peak = Peak(name: int, x: real, y: real, connectedTo: seq<nat>, rad: real)

  datatype Option<T> = None | Some(value: T)

  /**
   * Where a node at angle `rad` and distance `radius` from the layout centre goes:
   * (CENTER_X + sin(rad) * radius, CENTER_Y - cos(rad) * radius). Sine and cosine are
   * not modelled, so the placement is a parameter.
   */
  type Placement = (real, real) -> Point

  /**
   * What the model knows of a placement: a point at a given angle moves out along a fixed
   * ray from the layout centre, its offset from the centre scaling with the radius, as
   * (sin(rad) * radius, -cos(rad) * radius) does.
   */
  ghost predicate IsRadial(place: Placement)
  {
    forall rad, radius ::
      && place(rad, radius).x - CENTER_X == radius / RADIUS * (place(rad, RADIUS).x - CENTER_X)
      && place(rad, radius).y - CENTER_Y == radius / RADIUS * (place(rad, RADIUS).y - CENTER_Y)
  }

  /** The angle, in radians, of the i-th node: i steps of DEGREES. */
  function Rad(i: nat): (r: real)
    ensures i < N ==> 0.0 <= r < 2.0 * PI
  {
    (i as real * DEGREES) * PI / 180.0
  }

  /** Later nodes sit at strictly larger angles, so no two nodes share a position angle. */
  lemma RadIncreasing(i: nat, j: nat)
    requires i < j
    ensures Rad(i) < Rad(j)
  {
    assert (j as real * DEGREES) - (i as real * DEGREES) == (j - i) as real * DEGREES;
  }

  /** The centre of a node. */
  function Centre(p: Peak): Point
  {
    Point(p.x, p.y)
  }

  /**
   * Creates the N nodes, walking the angle up by DEGREES and the label up by one per node.
   * Node i is labelled i + 1, sits at angle Rad(i) and starts with no edges.
   */
  method DefinePeaks(place: Placement) returns (peaks: seq<Peak>)
    ensures |peaks| == N
    ensures forall i :: 0 <= i < N ==>
      peaks[i] == Peak(i + 1, place(Rad(i), RADIUS).x, place(Rad(i), RADIUS).y, [], Rad(i))
  {
    var degree := 0.0;
    var name := 1;
    peaks := [];
    for i := 0 to N
      invariant |peaks| == i
      invariant degree == i as real * DEGREES && name == i + 1
      invariant forall k :: 0 <= k < i ==>
        peaks[k] == Peak(k + 1, place(Rad(k), RADIUS).x, place(Rad(k), RADIUS).y, [], Rad(k))
    {
      assert degree * PI / 180.0 == Rad(i);
      var rad := degree * PI / 180.0;
      var p := place(rad, RADIUS);
      peaks := peaks + [Peak(name, p.x, p.y, [], rad)];
      degree := degree + DEGREES;
      name := name + 1;
    }
  }

  /** The labels DefinePeaks hands out are 1..N, each exactly once, at increasing angles. */
  lemma DefinePeaksLabels(peaks: seq<Peak>, place: Placement)
    requires |peaks| == N
    requires forall i :: 0 <= i < N ==>
      peaks[i] == Peak(i + 1, place(Rad(i), RADIUS).x, place(Rad(i), RADIUS).y, [], Rad(i))
    ensures forall i :: 0 <= i < N ==> 1 <= peaks[i].name <= N && peaks[i].connectedTo == []
    ensures forall i, j :: 0 <= i < j < N ==> peaks[i].name != peaks[j].name && peaks[i].rad < peaks[j].rad
  {
    forall i, j | 0 <= i < j < N
      ensures peaks[i].name != peaks[j].name && peaks[i].rad < peaks[j].rad
    {
      RadIncreasing(i, j);
    }
  }

  /**
   * The columns j < n whose entry in `row` is 1, in ascending order. A row shorter than n
   * has no entry past its end, and a missing entry is not 1.
   */
  function Targets(row: seq<int>, n: nat): (ts: seq<nat>)
    ensures forall k :: 0 <= k < |ts| ==> ts[k] < n
    ensures |ts| <= n
    decreases n
  {
    if n == 0 then []
    else Targets(row, n - 1) + (if n - 1 < |row| && row[n - 1] == 1 then [n - 1] else [])
  }

  /** j is a target exactly when it is a column below n holding a 1. */
  lemma {:induction false} TargetsMembers(row: seq<int>, n: nat, j: nat)
    ensures j in Targets(row, n) <==> j < n && j < |row| && row[j] == 1
  {
    if n > 0 {
      TargetsMembers(row, n - 1, j);
    }
  }

  /** Each entry is larger than the ones before it, so none is listed twice. */
  predicate StrictlyAscending(ts: seq<nat>)
  {
    forall a, b :: 0 <= a < b < |ts| ==> ts[a] < ts[b]
  }

  /** Targets come out strictly ascending. */
  lemma {:induction false} TargetsAscending(row: seq<int>, n: nat)
    ensures StrictlyAscending(Targets(row, n))
  {
    if n > 0 {
      TargetsAscending(row, n - 1);
      var prev := Targets(row, n - 1);
      var ts := Targets(row, n);
      forall a, b | 0 <= a < b < |ts|
        ensures ts[a] < ts[b]
      {
        assert ts[a] == prev[a] && prev[a] < n - 1;
        if b == |prev| {
          assert ts[b] == n - 1;
        } else {
          assert ts[b] == prev[b] && prev[a] < prev[b];
        }
      }
    }
  }

  /** A node has an edge to itself exactly when the diagonal entry of its row is 1. */
  lemma SelfLoopIffDiagonal(matrix: seq<seq<int>>, i: nat)
    requires i < N && i < |matrix|
    ensures i in Targets(matrix[i], N) <==> i < |matrix[i]| && matrix[i][i] == 1
  {
    TargetsMembers(matrix[i], N, i);
  }

  /**
   * Appends to each of the first N nodes' adjacency lists the columns of its matrix row
   * that hold a 1, scanning the columns in order. Nodes past N are left as they are.
   */
  method ConnectPeaks(peaks: seq<Peak>, matrix: seq<seq<int>>) returns (result: seq<Peak>)
    requires |peaks| >= N && |matrix| >= N
    ensures |result| == |peaks|
    ensures forall i :: 0 <= i < N ==>
      result[i] == peaks[i].(connectedTo := peaks[i].connectedTo + Targets(matrix[i], N))
    ensures forall i :: N <= i < |peaks| ==> result[i] == peaks[i]
  {
    result := peaks;
    for i := 0 to N
      invariant |result| == |peaks|
      invariant forall k :: 0 <= k < i ==>
        result[k] == peaks[k].(connectedTo := peaks[k].connectedTo + Targets(matrix[k], N))
      invariant forall k :: i <= k < |peaks| ==> result[k] == peaks[k]
    {
      ghost var before := result;
      for j := 0 to N
        invariant |result| == |peaks|
        invariant result[i] == peaks[i].(connectedTo := peaks[i].connectedTo + Targets(matrix[i], j))
        invariant forall k :: 0 <= k < |peaks| && k != i ==> result[k] == before[k]
      {
        if j < |matrix[i]| && matrix[i][j] == 1 {
          result := result[i := result[i].(connectedTo := result[i].connectedTo + [j])];
        }
      }
    }
  }

  /**
   * Starting from nodes with empty lists (as DefinePeaks leaves them), ConnectPeaks gives
   * each of the first N nodes exactly the columns of its row that hold a 1, ascending and
   * without repeats, and every entry names one of the N nodes.
   */
  lemma ConnectPeaksFromEmpty(peaks: seq<Peak>, matrix: seq<seq<int>>, result: seq<Peak>)
    requires |peaks| == N && |matrix| >= N && |result| == N
    requires forall i :: 0 <= i < N ==> peaks[i].connectedTo == []
    requires forall i :: 0 <= i < N ==>
      result[i] == peaks[i].(connectedTo := peaks[i].connectedTo + Targets(matrix[i], N))
    ensures TargetsInRange(result)
    ensures forall i :: 0 <= i < N ==> StrictlyAscending(result[i].connectedTo)
    ensures forall i, j: nat :: 0 <= i < N ==>
      (j in result[i].connectedTo <==> j < N && j < |matrix[i]| && matrix[i][j] == 1)
  {
    forall i | 0 <= i < N
      ensures result[i].connectedTo == Targets(matrix[i], N)
      ensures StrictlyAscending(result[i].connectedTo)
    {
      assert [] + Targets(matrix[i], N) == Targets(matrix[i], N);
      TargetsAscending(matrix[i], N);
    }
    forall i, j: nat | 0 <= i < N
      ensures j in result[i].connectedTo <==> j < N && j < |matrix[i]| && matrix[i][j] == 1
    {
      TargetsMembers(matrix[i], N, j);
    }
  }

  /** For the demo's own matrix, node 7's only edge is its self-loop. */
  lemma MatrixTargetsNode7()
    ensures Targets(MATRIX[6], N) == [6]
  {
    var row := MATRIX[6];
    assert Targets(row, 6) == [];
  }

  /** Node 6 of the demo's matrix has no edges. */
  lemma MatrixTargetsNode6()
    ensures Targets(MATRIX[5], N) == []
  {
    var row := MATRIX[5];
    assert Targets(row, 5) == [];
  }

  /** Node 10 of the demo's matrix has edges to indices 1, 3, 4, 8 and 9. */
  lemma MatrixTargetsNode10()
    ensures Targets(MATRIX[9], N) == [1, 3, 4, 8, 9]
  {
    var row := MATRIX[9];
    assert Targets(row, 5) == [1, 3, 4];
  }

  /** In the demo's matrix, exactly nodes 7, 9 and 10 (indices 6, 8 and 9) have self-loops. */
  lemma MatrixSelfLoops(i: nat)
    requires i < N
    ensures i in Targets(MATRIX[i], N) <==> i == 6 || i == 8 || i == 9
  {
    SelfLoopIffDiagonal(MATRIX, i);
    if i == 0 {} else if i == 1 {} else if i == 2 {} else if i == 3 {} else if i == 4 {}
    else if i == 5 {} else if i == 6 {} else if i == 7 {} else if i == 8 {} else {}
  }

  /** An edge of the graph: from node `from` to node `to`, by index. */
  datatype Edge = Edge(from: nat, to: nat)

  /** The edges out of node i, one per entry of its adjacency list, in list order. */
  function OutEdges(i: nat, ts: seq<nat>): (es: seq<Edge>)
    ensures |es| == |ts|
    ensures forall k :: 0 <= k < |ts| ==> es[k] == Edge(i, ts[k])
  {
    if ts == [] then [] else OutEdges(i, ts[..|ts| - 1]) + [Edge(i, ts[|ts| - 1])]
  }

  /** The edges out of the first n nodes, in the order drawConnection visits them. */
  function Edges(peaks: seq<Peak>, n: nat): (es: seq<Edge>)
    requires n <= |peaks|
    ensures forall k :: 0 <= k < |es| ==> es[k].from < n && es[k].to in peaks[es[k].from].connectedTo
  {
    if n == 0 then [] else Edges(peaks, n - 1) + OutEdges(n - 1, peaks[n - 1].connectedTo)
  }

  /** Every adjacency-list entry of the first n nodes is visited as an edge. */
  lemma {:induction false} EdgesComplete(peaks: seq<Peak>, n: nat, i: nat, t: nat)
    requires n <= |peaks| && i < n && t in peaks[i].connectedTo
    ensures Edge(i, t) in Edges(peaks, n)
  {
    var es := Edges(peaks, n);
    if i == n - 1 {
      var k :| 0 <= k < |peaks[i].connectedTo| && peaks[i].connectedTo[k] == t;
      var out := OutEdges(n - 1, peaks[n - 1].connectedTo);
      assert out[k] == Edge(i, t);
      assert es[|Edges(peaks, n - 1)| + k] == out[k];
    } else {
      EdgesComplete(peaks, n - 1, i, t);
      var k :| 0 <= k < |Edges(peaks, n - 1)| && Edges(peaks, n - 1)[k] == Edge(i, t);
      assert es[k] == Edge(i, t);
    }
  }

  /** What one edge puts on the canvas: a tail circle centred at `centre`, or a line with its arrowhead. */
  datatype Draw = Tail(centre: Point) | Line(segment: Segment, arrow: Option<Wings>)

  /**
   * `drTail`: a self-loop is a circle on the ray from the layout centre through node p,
   * (RADIUS + 2R) / RADIUS times as far out as the node itself.
   */
  function DrTail(p: Peak, place: Placement): (d: Draw)
    ensures d.Tail?
    ensures IsRadial(place) && Centre(p) == place(p.rad, RADIUS) ==>
      && d.centre.x - CENTER_X == (RADIUS + 2.0 * R) / RADIUS * (p.x - CENTER_X)
      && d.centre.y - CENTER_Y == (RADIUS + 2.0 * R) / RADIUS * (p.y - CENTER_Y)
  {
    Tail(place(p.rad, RADIUS + 2.0 * R))
  }

  /**
   * The computing half of `drLine`: the segment, with the arrowhead at its finish when FOCUS
   * is on. For a segment of non-zero length the arrowhead's base surrounds the back point H
   * ARROW_SIZE behind the tip: midpoint H, both wings on the perpendicular through H, both
   * ARROW_SIZE / 2.7 from it.
   */
  function DrLine(startX: real, startY: real, finishX: real, finishY: real, sqrt: real -> real): (d: Draw)
    requires IsSqrt(sqrt)
    ensures d.Line? && d.segment == Segment(startX, startY, finishX, finishY)
    ensures d.arrow.Some? <==> FOCUS
    ensures d.arrow.Some? && (startX != finishX || startY != finishY) ==>
      var X := finishX - startX;
      var Y := finishY - startY;
      var L := SegmentLength(X, Y, sqrt);
      var H := BackPoint(startX, startY, finishX, finishY, L);
      && (finishX - H.x) * L == X * ARROW_SIZE && (finishY - H.y) * L == Y * ARROW_SIZE
      && WingsAround(X, Y, H, d.arrow.value)
  {
    ArrowShape(startX, startY, finishX, finishY, sqrt);
    var arrow := if FOCUS then Some(FindArrow(startX, startY, finishX, finishY, sqrt)) else None;
    Line(Segment(startX, startY, finishX, finishY), arrow)
  }

  /** FindArrowShape stated for every segment, degenerate or not. */
  lemma ArrowShape(startX: real, startY: real, finishX: real, finishY: real, sqrt: real -> real)
    requires IsSqrt(sqrt)
    ensures startX != finishX || startY != finishY ==>
      var X := finishX - startX;
      var Y := finishY - startY;
      var L := SegmentLength(X, Y, sqrt);
      var H := BackPoint(startX, startY, finishX, finishY, L);
      && (finishX - H.x) * L == X * ARROW_SIZE && (finishY - H.y) * L == Y * ARROW_SIZE
      && WingsAround(X, Y, H, FindArrow(startX, startY, finishX, finishY, sqrt))
  {
    if startX != finishX || startY != finishY {
      FindArrowShape(startX, startY, finishX, finishY, sqrt);
    }
  }

  /**
   * The dispatch inside drawConnection: an edge to the node itself becomes a tail and
   * nothing else; any other edge is trimmed to the two node circles and drawn as a line.
   */
  function DrawEdge(peaks: seq<Peak>, e: Edge, place: Placement, sqrt: real -> real): (d: Draw)
    requires IsSqrt(sqrt) && e.from < |peaks| && e.to < |peaks|
    ensures d.Tail? <==> e.from == e.to
    ensures d.Tail? && IsRadial(place) && Centre(peaks[e.from]) == place(peaks[e.from].rad, RADIUS) ==>
      && d.centre.x - CENTER_X == (RADIUS + 2.0 * R) / RADIUS * (peaks[e.from].x - CENTER_X)
      && d.centre.y - CENTER_Y == (RADIUS + 2.0 * R) / RADIUS * (peaks[e.from].y - CENTER_Y)
    ensures d.Line? ==> d.segment == TrimEdge(Centre(peaks[e.from]), Centre(peaks[e.to]), sqrt)
  {
    if e.to == e.from then DrTail(peaks[e.from], place)
    else
      var s := TrimEdge(Centre(peaks[e.from]), Centre(peaks[e.to]), sqrt);
      DrLine(s.startX, s.startY, s.finishX, s.finishY, sqrt)
  }

  /** Whether every adjacency-list entry of the first N nodes names a node. */
  predicate TargetsInRange(peaks: seq<Peak>)
  {
    |peaks| >= N && forall i, t :: 0 <= i < N && t in peaks[i].connectedTo ==> t < |peaks|
  }

  /** Whether both ends of every edge in `es` name a node. */
  predicate EdgesInRange(peaks: seq<Peak>, es: seq<Edge>)
  {
    forall k :: 0 <= k < |es| ==> es[k].from < |peaks| && es[k].to < |peaks|
  }

  /** `ds` holds the drawing of each edge of `es`, one per edge, in order. */
  predicate Renders(peaks: seq<Peak>, es: seq<Edge>, ds: seq<Draw>, place: Placement, sqrt: real -> real)
    requires IsSqrt(sqrt) && EdgesInRange(peaks, es)
  {
    |ds| == |es| && forall k :: 0 <= k < |es| ==> ds[k] == DrawEdge(peaks, es[k], place, sqrt)
  }

  /**
   * Draws every edge of the first N nodes: for each node in order and each entry of its
   * adjacency list in order, a tail for a self-loop and a trimmed line otherwise.
   */
  method DrawConnection(peaks: seq<Peak>, place: Placement, sqrt: real -> real) returns (drawn: seq<Draw>)
    requires IsSqrt(sqrt) && TargetsInRange(peaks)
    ensures EdgesInRange(peaks, Edges(peaks, N))
    ensures Renders(peaks, Edges(peaks, N), drawn, place, sqrt)
  {
    drawn := [];
    for i := 0 to N
      invariant EdgesInRange(peaks, Edges(peaks, i))
      invariant Renders(peaks, Edges(peaks, i), drawn, place, sqrt)
    {
      var targets := peaks[i].connectedTo;
      ghost var es := Edges(peaks, i);
      for k := 0 to |targets|
        invariant es == Edges(peaks, i) + OutEdges(i, targets[..k])
        invariant EdgesInRange(peaks, es) && Renders(peaks, es, drawn, place, sqrt)
      {
        var index := targets[k];
        assert index in peaks[i].connectedTo;
        var d := DrawEdge(peaks, Edge(i, index), place, sqrt);
        RendersAppend(peaks, es, drawn, Edge(i, index), place, sqrt);
        OutEdgesExtend(i, targets, k);
        es := es + [Edge(i, index)];
        drawn := drawn + [d];
      }
      assert targets[..|targets|] == targets;
    }
  }

  /**
   * Every entry t of node i's list is drawn, at the position of the edge (i, t), and that
   * drawing is a tail exactly when t is i itself; any other entry gets a trimmed line.
   */
  lemma DrawConnectionCovers(peaks: seq<Peak>, drawn: seq<Draw>, place: Placement, sqrt: real -> real, i: nat, t: nat)
    requires IsSqrt(sqrt) && TargetsInRange(peaks) && EdgesInRange(peaks, Edges(peaks, N))
    requires Renders(peaks, Edges(peaks, N), drawn, place, sqrt)
    requires i < N && t in peaks[i].connectedTo
    ensures exists k :: 0 <= k < |drawn| && Edges(peaks, N)[k] == Edge(i, t) && (drawn[k].Tail? <==> t == i)
    ensures t != i ==>
      exists k :: 0 <= k < |drawn| && drawn[k].Line? && drawn[k].segment == TrimEdge(Centre(peaks[i]), Centre(peaks[t]), sqrt)
  {
    EdgesComplete(peaks, N, i, t);
    var k :| 0 <= k < |drawn| && Edges(peaks, N)[k] == Edge(i, t);
    assert drawn[k] == DrawEdge(peaks, Edge(i, t), place, sqrt);
  }

  /** Drawing one more edge extends the rendering by that edge's drawing. */
  lemma RendersAppend(peaks: seq<Peak>, es: seq<Edge>, ds: seq<Draw>, e: Edge, place: Placement, sqrt: real -> real)
    requires IsSqrt(sqrt) && EdgesInRange(peaks, es) && Renders(peaks, es, ds, place, sqrt)
    requires e.from < |peaks| && e.to < |peaks|
    ensures EdgesInRange(peaks, es + [e])
    ensures Renders(peaks, es + [e], ds + [DrawEdge(peaks, e, place, sqrt)], place, sqrt)
  {
  }

  lemma OutEdgesExtend(i: nat, ts: seq<nat>, k: nat)
    requires k < |ts|
    ensures OutEdges(i, ts[..k + 1]) == OutEdges(i, ts[..k]) + [Edge(i, ts[k])]
  {
    assert ts[..k + 1][..k] == ts[..k];
  }
}
