/** The playfield: its fixed size, the cell size, positions and step vectors. */
module Grid {

  const WIDTH: int := 800
  const HEIGHT: int := 600
  const CELL_SIZE: int := 20

  /** A point on the playfield, in pixels (a segment `[x, y]` or a food position). */
  datatype Pos = Pos(x: int, y: int)

  /** A movement vector `(dx, dy)`, in pixels per tick. */
  datatype Vec = Vec(dx: int, dy: int)

  const Zero: Vec := Vec(0, 0)

  /** The centre of the playfield, where every new snake starts. */
  const Center: Pos := Pos(WIDTH / 2, HEIGHT / 2)

  function Opposite(v: Vec): Vec {
    Vec(-v.dx, -v.dy)
  }

  /** A coordinate on a cell boundary. */
  predicate Aligned(v: int) {
    v % CELL_SIZE == 0
  }

  predicate OnGrid(p: Pos) {
    Aligned(p.x) && Aligned(p.y)
  }

  /** Inside `[0, WIDTH) x [0, HEIGHT)`. */
  predicate InBounds(p: Pos) {
    0 <= p.x < WIDTH && 0 <= p.y < HEIGHT
  }

  /** The only directions a snake ever has: standing still or one cell along an axis. */
  predicate AllowedDir(v: Vec) {
    v == Zero || v == Vec(-CELL_SIZE, 0) || v == Vec(CELL_SIZE, 0) ||
    v == Vec(0, -CELL_SIZE) || v == Vec(0, CELL_SIZE)
  }

  /** No position occurs twice. */
  predicate Distinct(s: seq<Pos>) {
    forall i, j :: 0 <= i < j < |s| ==> s[i] != s[j]
  }
}
