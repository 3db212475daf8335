/** The constants the demo is configured with. */
module Config {

  const CENTER_X: real := 275.0
  const CENTER_Y: real := 275.0
  /** Radius of the circle the nodes are laid out on. */
  const RADIUS: real := 200.0
  /** Number of nodes. */
  const N: nat := 10
  /** Radius of a drawn node. */
  const R: real := 10.0
  /** `Math.PI`, taken as the decimal it prints as. */
  const PI: real := 3.141592653589793
  /** Whether lines carry arrowheads. */
  const FOCUS: bool := true
  const ARROW_SIZE: real := 12.0
  /** Angle between neighbouring nodes, in degrees. */
  const DEGREES: real := 360.0 / N as real

  /** Row i, column j is 1 when there is an edge from node i to node j. */
  const MATRIX: seq<seq<int>> := [
    [0, 0, 0, 0, 0, 0, 1, 0, 0, 0],
    [0, 0, 1, 0, 0, 0, 0, 0, 1, 0],
    [0, 0, 0, 0, 0, 0, 1, 1, 0, 0],
    [0, 0, 0, 0, 1, 1, 0, 1, 1, 0],
    [0, 1, 0, 0, 0, 0, 0, 0, 0, 1],
    [0, 0, 0, 0, 0, 0, 0, 0, 0, 0],
    [0, 0, 0, 0, 0, 0, 1, 0, 0, 0],
    [0, 0, 0, 0, 0, 0, 1, 0, 0, 0],
    [0, 0, 0, 0, 0, 1, 0, 0, 1, 0],
    [0, 1, 0, 1, 1, 0, 0, 0, 1, 1]
  ]
}
