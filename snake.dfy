/** The snake: a head `(x, y)`, the segments it covers (oldest first, head last),
    the direction it moves in and the number of segments it may have. */
module SnakeBody {
  import opened Grid

  /** The snake's fields, as a value. */
  datatype SnakeState = SnakeState(x: int, y: int, body: seq<Pos>, direction: Vec, length: int)

  /** A new snake: one segment in the centre, standing still. */
  function Start(): (s: SnakeState)
    ensures SnakeInv(s) && InBounds(Pos(s.x, s.y)) && !SnakeCollides(s)
  {
    SnakeState(Center.x, Center.y, [Center], Zero, 1)
  }

  /** What holds of the snake between moves: at least one and at most `length` segments,
      the head is the last segment, every segment lies on the grid, and the direction is
      standing still or one cell along an axis. */
  predicate SnakeInv(s: SnakeState) {
    && 1 <= |s.body| <= s.length
    && s.body[|s.body| - 1] == Pos(s.x, s.y)
    && (forall i :: 0 <= i < |s.body| ==> OnGrid(s.body[i]))
    && AllowedDir(s.direction)
  }

  /** The segments after `head` is appended to `body` and the oldest one dropped when
      there are then more than `length`. */
  function Advance(body: seq<Pos>, head: Pos, length: int): (r: seq<Pos>)
    ensures |r| > 0 ==> r[|r| - 1] == head
    ensures 1 <= length || |body| > 0 ==> |r| > 0
    ensures r == body + [head] || r == (body + [head])[1..]
    ensures |r| <= |body| + 1 && (|r| == |body| + 1 <==> |body| < length)
    ensures 1 <= length && |body| <= length ==>
              |r| == (if |body| + 1 < length then |body| + 1 else length)
  {
    var grown := body + [head];
    if |grown| > length then grown[1..] else grown
  }

  /** The snake after one move. */
  function Moved(s: SnakeState): (r: SnakeState)
    ensures r.x == s.x + s.direction.dx && r.y == s.y + s.direction.dy
    ensures r.direction == s.direction && r.length == s.length
    ensures r.body == Advance(s.body, Pos(r.x, r.y), s.length)
    ensures SnakeInv(s) ==> SnakeInv(r)
    ensures SnakeInv(s) ==> (Pos(r.x, r.y) == Pos(s.x, s.y) || Neighbours(Pos(s.x, s.y), Pos(r.x, r.y)))
  {
    var x, y := s.x + s.direction.dx, s.y + s.direction.dy;
    var r := SnakeState(x, y, Advance(s.body, Pos(x, y), s.length), s.direction, s.length);
    assert SnakeInv(s) ==> Aligned(x) && Aligned(y);
    r
  }

  /** `q` is one cell away from `p` along an axis. */
  predicate Neighbours(p: Pos, q: Pos) {
    (q.y == p.y && (q.x == p.x - CELL_SIZE || q.x == p.x + CELL_SIZE)) ||
    (q.x == p.x && (q.y == p.y - CELL_SIZE || q.y == p.y + CELL_SIZE))
  }

  /** The snake has run into a wall or into itself: the head `(x, y)` is off the playfield,
      or the last segment also occurs earlier in the body. */
  function Collides(x: int, y: int, body: seq<Pos>): (c: bool)
    requires |body| > 0
    ensures c <==> !InBounds(Pos(x, y)) || exists i :: 0 <= i < |body| - 1 && body[i] == body[|body| - 1]
    ensures |body| == 1 ==> (c <==> !InBounds(Pos(x, y)))
  {
    if x < 0 || x >= WIDTH || y < 0 || y >= HEIGHT then true
    else body[|body| - 1] in body[..|body| - 1]
  }

  predicate SnakeCollides(s: SnakeState)
    requires |s.body| > 0
  {
    Collides(s.x, s.y, s.body)
  }

  /** From the start, one step to the right: the head moves one cell and, as `length` is
      still 1, the body stays a single segment. */
  lemma FirstStepRight()
    ensures var s := Moved(Start().(direction := Vec(CELL_SIZE, 0)));
      s.body == [Pos(Center.x + CELL_SIZE, Center.y)] && !SnakeCollides(s)
  {
  }

  /** Moving into the cell the tail leaves in the same step is not a collision: the tail
      is dropped before the check. */
  lemma TailChaseIsSafe()
    ensures var s := Moved(SnakeState(0, 20, [Pos(0, 0), Pos(20, 0), Pos(20, 20), Pos(0, 20)],
                                      Vec(0, -CELL_SIZE), 4));
      s.body == [Pos(20, 0), Pos(20, 20), Pos(0, 20), Pos(0, 0)] && !SnakeCollides(s)
  {
  }

  /** A snake that is allowed a second segment while standing still covers its own cell
      twice after the next move, which counts as a collision. */
  lemma StandingStillAfterGrowthCollides()
    ensures SnakeCollides(Moved(Start().(length := 2)))
  {
    assert Start().(length := 2) == SnakeState(400, 300, [Pos(400, 300)], Zero, 2);
    assert [Pos(400, 300), Pos(400, 300)][..1] == [Pos(400, 300)];
  }

  class Snake {
    var x: int
    var y: int
    var body: seq<Pos>
    var direction: Vec
    var length: int

    function State(): SnakeState
      reads this
    {
      SnakeState(x, y, body, direction, length)
    }

    constructor ()
      ensures State() == Start()
      ensures SnakeInv(State())
    {
      x, y := Center.x, Center.y;
      body := [Pos(Center.x, Center.y)];
      direction := Zero;
      length := 1;
    }

    /** One step along `direction`: the head moves, is appended, and the oldest
        segment goes when the body is longer than `length`. */
    method Move()
      modifies this
      ensures State() == Moved(old(State()))
      ensures SnakeInv(old(State())) ==> SnakeInv(State())
    {
      x := x + direction.dx;
      y := y + direction.dy;
      body := body + [Pos(x, y)];
      if |body| > length {
        body := body[1..];
      }
    }
  }
}
