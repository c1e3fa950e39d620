# Snake game: the grid simulation

A model, in Dafny, of the simulation inside `snake.py`, a small pygame snake game. A snake moves one
20-pixel cell per tick on an 800 x 600 playfield. Arrow keys steer it. The snake grows by one segment
and the score rises by one each time the head reaches the food. The game is lost when the head leaves
the playfield or lands on the snake's own body. The player then restarts or quits.

Modules, one per part of the program:

- `Grid` (`grid.dfy`): the constants `WIDTH = 800`, `HEIGHT = 600`, `CELL_SIZE = 20`, positions, step vectors.
- `Food` (`food.dfy`): where a new `Food` lands. It takes the two numbers `randrange` returned (a `Draw`)
  and applies Python's `round`, modelled exactly on integers with ties going to the even neighbour. For
  these quotients that is what the floating-point code computes: `r / 20` is a tie only when it ends in
  `.5`, which a float holds exactly, and any other quotient lies at least 0.05 from a tie.
- `Controls` (`controls.dfy`): key events and the steering rule, with a turn straight back refused.
- `SnakeBody` (`snake.dfy`): the class `Snake`, with fields `x`, `y`, `body`, `direction` and `length`.
  Its constructor and `Move` are stated against the value-level functions `Start`, `Moved` and `Advance`.
  The collision test is the pure function `Collides`.
- `Game` (`game.dfy`): the class `SnakeGame`, holding `snake`, `food`, `score` and `running`. Its methods
  `HandleEvents`, `RestartGame`, `Tick` (one pass of the main loop) and `Run` (the main loop) are stated
  against `Handled`, `Restarted`, `TickSpec` and `RunSpec`.

`GameInv` is the invariant kept between ticks:
- the body has between 1 and `length` segments;
- the head `(x, y)` is the last segment;
- every segment is on the grid and inside the playfield;
- no cell is covered twice;
- the direction is zero or one cell along an axis;
- the food lies in its spawn range;
- `score == length - 1`.

`TickPreservesInv` and `RunPreservesInv` prove this invariant is kept. `InvNoCollision` proves that a
state keeping it has no collision.

Some behaviour of `snake.py` worth noting, each shown by a lemma:

- **Order of checks.** Each tick checks for a collision before it checks for food. After a restart, the
  food check runs on the new snake and the new food in the same tick.
- **First step.** The first step from the start leaves a single segment, because `length` is still 1.
  The head has moved one cell (`FirstStepRight`).
- **Reversal.** The reversal guard compares against the direction current at each key press. Two key
  presses polled in one tick can therefore reverse the snake (`ReversalWithinOneTick`).
- **Standing still.** If the food starts under the head, it is eaten on the first tick even though the
  snake has not moved. The next tick without a key press then covers the same cell twice, which is a
  crash (`FoodUnderStartingHead`, `StandStillAndEat`, `StandStillAndCrash`).
- **Tail chasing.** The head may enter the cell the tail leaves in the same step (`TailChaseIsSafe`).

## Model

| member | source | states |
|---|---|---|
| `Food.RoundCells` | snake.py:35-36 | the result is the whole number of cells nearest to `n / CELL_SIZE`, and a tie goes to the even one (Python's `round`) |
| `Food.Spawn` | snake.py:33-37 | a food position is a multiple of `CELL_SIZE` on both axes; with draws in `randrange`'s range it lies in `0..WIDTH-CELL_SIZE` x `0..HEIGHT-CELL_SIZE` |
| `Food.DrawFor` | snake.py:35-36 | every grid cell in that range is reached by some pair of in-range draws |
| `Controls.Steer` | snake.py:88-95 | one key press keeps an allowed direction allowed and never sets the exact opposite of a non-zero direction; the result is the old direction or the key's heading, and the heading is refused only when it is the opposite of the current direction |
| `Controls.SteerAll` | snake.py:84-95 | after the events of one tick the direction is the old one or the heading of an arrow key pressed in that tick, so no other key changes it; `SteerAllAllowed` and `SteerAllWithoutKeys` state its other properties |
| `Controls.SteerAllAllowed` | snake.py:84-95 | any sequence of events leaves the direction in `{(0,0), (±20,0), (0,±20)}` |
| `Controls.SteerAllWithoutKeys` | snake.py:84-95 | events that are not arrow-key presses (other events, and presses of any other key) leave the direction unchanged |
| `Controls.ReversalWithinOneTick` | snake.py:84-95 | Up then Left, polled in the same tick, turn a snake moving right to moving left |
| `SnakeBody.Start` | snake.py:44-48 | a new snake keeps `SnakeInv`, has its head inside the playfield and does not collide |
| `SnakeBody.Advance` | snake.py:53-55 | the new head is the last segment; the new body is the old one plus the head, minus the oldest segment exactly when the old body already had at least `length` segments; its size is `min(old size + 1, length)` when the old size was at most `length` |
| `SnakeBody.Moved` | snake.py:50-55 | the new head `(x, y)` is the old head plus `direction`; `direction` and `length` are kept; the body is `Advance` of the old body with the new head; `SnakeInv` is preserved; the head moves to a neighbouring cell or not at all |
| `SnakeBody.Collides` | snake.py:61-66 | true exactly when the head is outside `[0, WIDTH) x [0, HEIGHT)` or the last segment occurs earlier in the body; a single in-bounds segment never collides |
| `SnakeBody.FirstStepRight` | snake.py:44-55 | from the start, one step right gives the single segment `(420, 300)` and no collision |
| `SnakeBody.TailChaseIsSafe` | snake.py:50-66 | moving into the cell the tail leaves in the same step is not a collision |
| `SnakeBody.StandingStillAfterGrowthCollides` | snake.py:44-66 | a standing snake allowed a second segment collides with itself on its next move |
| `SnakeBody.Snake.constructor` | snake.py:44-48 | a new snake is `body == [(400, 300)]`, `direction == (0, 0)`, `length == 1`, with the head at the centre |
| `SnakeBody.Snake.Move` | snake.py:50-55 | the new fields are `Moved` of the old ones, so the snake invariant is kept |
| `Game.Initial` | snake.py:70-77 | a new game has the start snake, spawned food, score 0 and `running` set, and keeps `GameInv` |
| `Game.Restarted` | snake.py:103-106 | restart gives the snake `Start()`, that is `body == [(400, 300)]` with the head at `(400, 300)`, direction `(0, 0)`, `length == 1`, `score == 0` and new food, keeps `running`, and re-establishes `GameInv` |
| `Game.Eat` | snake.py:164-167 | eating (which `TickSpec` applies when the head `(x, y)` is on the food, snake.py:164) raises `score` and `length` by exactly 1, replaces the food, changes nothing else, and keeps `GameInv` (so `score == length - 1`) |
| `Game.Handled` | snake.py:83-95 | the new direction is `SteerAll` of the old one over the events (the steering rule applied key press by key press); it stays allowed; clears `running` exactly when a quit event was among them, and changes nothing but the direction and `running` |
| `Game.TickSpec` | snake.py:156-168 | a tick that goes on leaves a non-empty body |
| `Game.RunSpec` | snake.py:154-168 | a game whose `running` is cleared does not tick, and a run that goes on leaves a non-empty body; `RunPreservesInv` states what a run keeps |
| `Game.InvNoCollision` | snake.py:61-66 | a state keeping `GameInv` has no wall or self collision |
| `Game.TickPreservesInv` | snake.py:156-168 | a tick that does not end the process keeps `GameInv`, including `score == length - 1` |
| `Game.RunPreservesInv` | snake.py:154-168 | any run of ticks that does not end the process keeps `GameInv` |
| `Game.FoodUnderStartingHead` | snake.py:33-48 | the draws `(400, 300)` put the first food under the starting head |
| `Game.StandStillAndEat` | snake.py:156-167 | from there, a tick without key presses eats without moving: `length == 2`, `score == 1` |
| `Game.StandStillAndCrash` | snake.py:156-162 | the next tick without key presses is a crash |
| `Game.SnakeGame.constructor` | snake.py:70-77 | a new game object is in the state `Initial` and keeps `GameInv` |
| `Game.SnakeGame.HandleEvents` | snake.py:83-95 | the event loop leaves the state `Handled` describes |
| `Game.SnakeGame.RestartGame` | snake.py:103-107 | the object is in the state `Restarted` with a fresh `Snake` |
| `Game.SnakeGame.Tick` | snake.py:156-168 | one pass of the main loop ends as `TickSpec` says, and keeps `GameInv` unless the process exits |
| `Game.SnakeGame.Run` | snake.py:154-168 | the main loop ends as `RunSpec` says, and keeps `GameInv` unless the process exits |

## Left out

- Game.TickSpec: its own contract says only that the body stays non-empty. What a tick keeps is stated by `TickPreservesInv` and `InvNoCollision`.
- Game.RunSpec: its own contract states only the stopped case and a non-empty body. What a run keeps is stated by `RunPreservesInv`.
- Controls.SteerAll: its own contract states only where the final direction can come from. That it stays allowed, and that events without an arrow-key press leave it alone, are stated by `SteerAllAllowed` and `SteerAllWithoutKeys`.
- Drawing is not modelled (`Food.draw`, `Snake.draw`, `display_score`, the screen fill and `pygame.display.update`). It is output through pygame.
- The frame clock (`clock.tick(15)`) is not modelled. Ticks are steps of the model, not moments in time.
- Logging is not modelled (the configuration and every `logging` call). It is output only.
- The game-over screen is not modelled: its text, button geometry and mouse hit-testing. Its blocking polling loop is reduced to its outcome, a `Choice` of `Restart` or `Exit`, given with each tick's input.
- `Exit` stands for both ways of leaving from the game-over screen (the quit button and closing the window). In the model the process then ends; `pygame.quit` and `sys.exit` are not modelled.
- `random.randrange` is replaced by its results, which arrive as a `Draw` parameter. Their probability distribution is not modelled. Because of the rounding, the cells at the edges and the odd cells are less likely than the even ones.
- Raw pygame events become the `Event` datatype. A key press of any other key is `KeyDown(OtherKey)`; any other event type is `OtherEvent`.
- The main loop has no bound on the number of ticks. It ends only when a window-close event during play clears `running`, or when the player exits from the game-over screen. `Run` takes a finite list of tick inputs and stops when the list ends, when `running` is cleared, or when the process exits.
- The first definition of `restart_game` (snake.py:97-101) is shadowed by the second and is not modelled separately.
- The `GameObject` base class is folded into its subclasses. `Food` is a plain position, since no code changes a food object after it is built; the game replaces it instead.
- Python integers are unbounded and so are Dafny's, so no overflow is modelled or possible.
