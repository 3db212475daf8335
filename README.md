# DS_lab1 graph drawing, modelled in Dafny

The program draws a fixed directed graph of N = 10 nodes ("peaks") placed on a circle.
A constant 10×10 0/1 matrix gives its edges. The model covers the logic between the
matrix and the drawing calls:

- **Adjacency lists.** `connectPeaks` turns each row of the matrix into the node's
  `connectedTo` list.
- **Node layout.** `definePeaks` assigns each node its label and angle. The node's
  position is taken from a placement function.
- **Edge dispatch.** `drawConnection` sends each self-loop to `drTail`, which draws a
  detached circle. Every other edge becomes a line that is trimmed to the two node
  circles.
- **Trimming.** `findSubs` computes the trim offset and `changeCoords` applies it.
- **Arrowheads.** `findArrow` and `quadraticEquation` compute the two wing points of
  the arrowhead at the end of each line.

All arithmetic is on `real`. The model has these modules:

- `Geometry`: points and segments, `Abs` and `Sign`, and `Math.sqrt`. The square
  root is a parameter constrained by `IsSqrt`: for `a >= 0` it returns `s >= 0`
  with `s * s == a`.
- `Config`: the constants and `MATRIX`.
- `Trim`: `findSubs`, `changeCoords`, and their composition for one edge.
- `Arrow`: `findArrow` and `quadraticEquation`, with the algebra behind them.
- `Graph`: `definePeaks`, `connectPeaks`, `drawConnection`, `drTail`, and the
  computing half of `drLine`.

`definePeaks` builds its nodes in a single loop, and `connectPeaks` and
`drawConnection` build their results in nested loops. All three are modelled as
methods with loop invariants. Each method is proved
against a specification function:

- `definePeaks` against `Rad`;
- `connectPeaks` against `Targets`;
- `drawConnection` against `Edges` and `DrawEdge`.

The global `peaks` array becomes a `seq<Peak>` that these methods take and return.
The other operations are expression code and are modelled as functions.

Two facts come out of the proofs. Neither is a defect.

- **The discriminant is never negative.** In `findArrow` the coefficients reduce to
  B = −2·yH·A and C = A·yH² − (ARROW_SIZE/2.7)². The discriminant is therefore
  4·A·(ARROW_SIZE/2.7)², which is positive for every non-vertical segment, short or
  long (`Arrow.WingDiscriminant`). One might expect a negative discriminant on
  segments shorter than ARROW_SIZE, but the code cannot produce one.
- **Trimmed endpoints are exactly R from their centres.** In real arithmetic this
  holds in both branches of `findSubs` (`Trim.TrimEdge`):
  - in the axis-aligned branch, the fixed offset 10 equals R and moves only the axis
    on which the nodes differ;
  - in the general branch, the offset has length R whatever the two-decimal
    proportion is.

  The floor cap changes only the direction of the trim, not its length.

## Model

| member | source | states |
|---|---|---|
| Trim.Proportion | index.js:117 | the slope ratio capped to two decimals lies in [x/y − 0.01, x/y], is non-negative, and is a whole number of hundredths; its requires `y > 0` is the guard that keeps the division by y from seeing zero |
| Trim.FindSubs | index.js:106-122 | the offset is exactly (10, 10) if and only if one of the deltas is 0; otherwise `0 < subY <= R`, `subX = subY · proportion`, and the offset vector has length R |
| Trim.SplitLength | index.js:118-119 | R·sqrt(1/(1+p²)) is in (0, R], strictly below R when p > 0, and together with p times it forms a vector of length R |
| Trim.ChangeCoords | index.js:124-140 | on each axis the two ends keep their sum, and the extent changes by −2·sign(extent)·offset (no change when the ends agree) |
| Trim.ChangeCoordsShrinks | index.js:124-140 | an axis whose ends agree is unchanged whatever the offset; on any other axis, on its own, an offset of at most half the extent shrinks the absolute extent by exactly 2·offset and keeps the direction |
| Trim.ChangeCoordsVerticalExample | index.js:124-140 | a vertical edge from (0, 0) to (0, 100) with the fixed offset (10, 10) becomes (0, 10) to (0, 90) |
| Trim.ChangeCoordsAxesIndependent | index.js:125-139 | the X results do not depend on any Y input, and the Y results do not depend on any X input |
| Trim.TrimEdge | index.js:87-92 | for distinct centres each trimmed end is exactly R from its own centre; an axis on which the centres agree is left as it was |
| Arrow.QuadraticEquation | index.js:202-207 | the two results sum to −B/A and differ by sqrt(D)/A, whatever the square root returns |
| Arrow.QuadraticEquationSolves | index.js:202-207 | with D ≥ 0, both results are roots of A·y² + B·y + C |
| Arrow.QuadraticEquationExample | index.js:202-207 | A=1, B=0, C=−4 gives (−2, 2) in that order |
| Arrow.BackPoint | index.js:180-184 | finish − H = (finish − start)·ARROW_SIZE/L on both axes, because 1 + lambda = L/ARROW_SIZE |
| Arrow.SegmentLength | index.js:180 | L ≥ 0, L² = X² + Y², and L > 0 unless the segment is a point |
| Arrow.CoefA | index.js:185 | A ≥ 1 and A·X² = X² + Y² |
| Arrow.CoefB | index.js:186-188 | the xH terms cancel and B = −2·yH·A |
| Arrow.CoefC | index.js:189-194 | C = A·yH² − (ARROW_SIZE/2.7)² |
| Arrow.WingX | index.js:196-197 | the wing X-coordinate puts the wing on the perpendicular to (X, Y) through H |
| Arrow.WingDiscriminant | index.js:185-195 | the discriminant of the wing equation is 4·A·(ARROW_SIZE/2.7)², so it is positive |
| Arrow.WingVieta | index.js:195 | the wing Y-coordinates sum to 2·yH |
| Arrow.WingOffset | index.js:195 | a root of the wing equation is at A·(y − yH)² = (ARROW_SIZE/2.7)² |
| Arrow.WingRoots | index.js:185-195 | the two quadratic results average to yH, and each satisfies A·(y − yH)² = (ARROW_SIZE/2.7)² |
| Arrow.WingRootsAt | index.js:185-195 | the same facts for the coefficients as `findArrow` writes them |
| Arrow.WingDistance | index.js:196-197 | a point on the perpendicular with A·dy² = (ARROW_SIZE/2.7)² is ARROW_SIZE/2.7 from H |
| Arrow.WingPlacement | index.js:196-197 | wings at such heights, placed on the perpendicular, have midpoint H and are ARROW_SIZE/2.7 from H |
| Arrow.WingPlacementAt | index.js:196-197 | the same for the wing X-coordinates as `findArrow` computes them |
| Arrow.WingsFromHeights | index.js:196-197 | the wings built from two such heights form an arrowhead base around H (`WingsAround`) |
| Arrow.WingsAt | index.js:185-197 | the general-branch wings form an arrowhead base around H: midpoint H, both on the perpendicular through H, both ARROW_SIZE/2.7 from H |
| Arrow.FindArrow | index.js:162-200 | vertical segment: both wings at finishY ∓ ARROW_SIZE (by direction), symmetric about finishX, 2·ARROW_SIZE/2.7 apart |
| Arrow.FindArrowShape | index.js:162-200 | for every segment of non-zero length, vertical or not, H lies ARROW_SIZE behind the tip along the segment, and the wings form an arrowhead base around H |
| Arrow.VerticalBackPoint | index.js:166-178 | for a vertical segment the back point is ARROW_SIZE below or above the tip, matching the vertical branch's wing height |
| Arrow.MidpointFromPerpendicular | index.js:196-197 | two offsets on the same perpendicular whose Y parts cancel also have X parts that cancel |
| Graph.Rad | index.js:55-62 | each node's angle lies in [0, 2π) |
| Graph.RadIncreasing | index.js:53-65 | later nodes have strictly larger angles |
| Graph.DefinePeaks | index.js:51-68 | node i gets label i + 1, angle Rad(i), the position `place` gives for that angle at RADIUS, and an empty list |
| Graph.DefinePeaksLabels | index.js:51-68 | the labels are 1..N, pairwise distinct, at strictly increasing angles, all with empty lists |
| Graph.Targets | index.js:72-74 | every listed column is below n, and there are at most n of them |
| Graph.TargetsMembers | index.js:72-74 | j is listed if and only if j < n and row[j] is 1 |
| Graph.TargetsAscending | index.js:72-74 | the list is strictly ascending, so it has no duplicates |
| Graph.SelfLoopIffDiagonal | index.js:70-76 | node i lists itself if and only if its diagonal entry is 1 |
| Graph.ConnectPeaks | index.js:70-76 | each of the first N nodes gets its row's targets appended to its list; all other fields and all other nodes are unchanged |
| Graph.ConnectPeaksFromEmpty | index.js:70-76 | starting from empty lists, each list holds exactly the columns with a 1, ascending, each naming one of the nodes |
| Graph.MatrixTargetsNode7 | index.js:18-29 | in the demo matrix node 7 (index 6) lists only itself |
| Graph.MatrixTargetsNode6 | index.js:18-29 | in the demo matrix node 6 (index 5) lists nothing |
| Graph.MatrixTargetsNode10 | index.js:18-29 | in the demo matrix node 10 (index 9) lists [1, 3, 4, 8, 9] |
| Graph.MatrixSelfLoops | index.js:18-29 | in the demo matrix only indices 6, 8 and 9 (nodes 7, 9 and 10) have self-loops |
| Graph.OutEdges | index.js:83 | one edge per list entry, in list order |
| Graph.Edges | index.js:81-83 | every visited edge starts at one of the first n nodes and ends at an entry of that node's list |
| Graph.EdgesComplete | index.js:81-83 | every list entry of the first n nodes is visited as an edge |
| Graph.DrTail | index.js:99-104 | for a radial placement and a node placed at its own angle, the tail lies on the ray from the layout centre through the node, (RADIUS + 2·R)/RADIUS times as far out |
| Graph.DrLine | index.js:142-149 | the line runs from the given start to the given finish and carries an arrowhead if and only if FOCUS is set; for a segment of non-zero length that arrowhead's base surrounds the back point ARROW_SIZE behind the tip |
| Graph.ArrowShape | index.js:148-149 | FindArrow's arrowhead shape (back point ARROW_SIZE behind the tip, wings around it) for any start and finish that differ |
| Graph.DrawEdge | index.js:84-93 | the drawing is a tail if and only if the edge is a self-loop; a tail lies on the node's ray, (RADIUS + 2·R)/RADIUS times as far out; a line is the trimmed segment between the two centres |
| Graph.DrawConnection | index.js:81-97 | the drawing list has one entry per edge, in drawConnection's visiting order, each entry being that edge's DrawEdge |
| Graph.DrawConnectionCovers | index.js:81-97 | every list entry is drawn at its edge's position, as a tail exactly when it is a self-loop; a non-self-loop entry gets the trimmed line between the two centres |
| Graph.OutEdgesExtend | index.js:83 | extending the visited prefix of a list by one entry adds exactly that entry's edge |

## Left out

- Canvas drawing (`circle`, `peak`, the stroke and fill calls of `drLine`, `document.getElementById`): these only paint. The label text offsets in `peak` are drawing detail.
- `Math.sin` and `Math.cos`: positions are given by a `Placement` parameter that maps an angle and a radius to a point. The only fact assumed of it (`IsRadial`) is that the offset from the layout centre scales with the radius. The model does not show that nodes lie on the layout circle.
- `Math.sqrt`: it is a parameter constrained only by `IsSqrt`. A negative argument gives an unconstrained value rather than NaN. Every call site the model reaches has a non-negative argument, except `quadraticEquation` called directly with D < 0.
- `Math.PI`: it is the decimal `3.141592653589793`.
- Floating point: arithmetic is exact real arithmetic. Rounding, NaN and infinities are not modelled.
- Matrix validation: a row entry counts only when it is exactly 1. Entries past the end of a short row (undefined in the source) are not 1. The model does not check that the matrix is square or binary, because the source does not check it either.
- `square`: `Math.pow(p, 2)` is written as the product `p * p`. This is true of every `square` in the model.
- `console.log` in `findArrow`: it is output only.
- The module-level `peaks` array and the top-level call order (`definePeaks(); connectPeaks(); drawConnection();`). The three methods take and return the node sequence instead. `Graph.ConnectPeaksFromEmpty` relates the output of `connectPeaks` on freshly defined nodes to the precondition of `DrawConnection`.
- The matrix argument: `ConnectPeaks` takes the matrix as a parameter instead of reading the global constant. The `Graph.MatrixTargetsNode…` lemmas and `Graph.MatrixSelfLoops` state what the constant gives.
- Inputs on which the source throws: `ConnectPeaks` requires at least N nodes and N matrix rows, and `DrawConnection` requires every list entry to name a node (`TargetsInRange`). With fewer nodes or rows, or an entry past the end, the source throws a TypeError (`MATRIX[i][j]` at index.js:73, `peaks[index].x` at index.js:89). The model does not describe that failure.
