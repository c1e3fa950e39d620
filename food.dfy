/** Where food appears. The random numbers the program draws are inputs here:
    a `Draw` holds the two results of `randrange` that one spawn uses. */
module Food {
  import opened Grid

  /** The two `randrange` results behind one food position. */
  datatype Draw = Draw(rx: int, ry: int)

  /** What `randrange(0, WIDTH - CELL_SIZE)` and `randrange(0, HEIGHT - CELL_SIZE)` can return. */
  predicate ValidDraw(d: Draw) {
    0 <= d.rx < WIDTH - CELL_SIZE && 0 <= d.ry < HEIGHT - CELL_SIZE
  }

  /** Where food may lie: on the grid, with its whole cell inside the playfield. */
  predicate FoodRange(p: Pos) {
    OnGrid(p) && 0 <= p.x <= WIDTH - CELL_SIZE && 0 <= p.y <= HEIGHT - CELL_SIZE
  }

  /** `round(n / CELL_SIZE)`: the nearest whole number of cells, ties going to the even one. */
  function RoundCells(n: int): (r: int)
    ensures 2 * (n - r * CELL_SIZE) <= CELL_SIZE && 2 * (r * CELL_SIZE - n) <= CELL_SIZE
    ensures 2 * (n - r * CELL_SIZE) == CELL_SIZE || 2 * (r * CELL_SIZE - n) == CELL_SIZE ==> r % 2 == 0
  {
    var q, rem := n / CELL_SIZE, n % CELL_SIZE;
    if 2 * rem < CELL_SIZE then q
    else if 2 * rem > CELL_SIZE then q + 1
    else if q % 2 == 0 then q
    else q + 1
  }

  /** The position a new `Food` takes for the draws `d`. */
  function Spawn(d: Draw): (p: Pos)
    ensures OnGrid(p)
    ensures ValidDraw(d) ==> FoodRange(p)
  {
    Pos(RoundCells(d.rx) * CELL_SIZE, RoundCells(d.ry) * CELL_SIZE)
  }

  /** Every cell food may lie in is reached by some pair of draws. */
  function DrawFor(p: Pos): (d: Draw)
    requires FoodRange(p)
    ensures ValidDraw(d) && Spawn(d) == p
  {
    var d := Draw(if p.x < WIDTH - CELL_SIZE then p.x else p.x - 1,
                  if p.y < HEIGHT - CELL_SIZE then p.y else p.y - 1);
    assert RoundCells(d.rx) == p.x / CELL_SIZE;
    assert RoundCells(d.ry) == p.y / CELL_SIZE;
    d
  }
}
