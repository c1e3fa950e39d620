/** The game loop: a snake, one piece of food and a score, advanced one tick at a time.
    Drawing, the clock, logging and the layout of the game-over screen are not modelled;
    what the player picks on that screen is an input of the tick. */
module Game {
  import opened Grid
  import opened Food
  import opened Controls
  import opened SnakeBody

  /** The player's answer on the game-over screen. `Exit` stands for the quit button and for
      closing the window; both end the process. */
  datatype Choice = Restart | Exit

  /** Everything one tick consumes from outside: the events polled, the answer given if the
      snake crashes, the draws for the food of a restarted game and for the food that
      replaces an eaten one. */
  datatype TickInput = TickInput(events: seq<Event>, afterCrash: Choice, restartDraw: Draw, foodDraw: Draw)

  predicate ValidInput(t: TickInput) {
    ValidDraw(t.restartDraw) && ValidDraw(t.foodDraw)
  }

  datatype GameState = GameState(snake: SnakeState, food: Pos, score: int, running: bool)

  /** How a tick ends: the process exits from the game-over screen, or play goes on. */
  datatype Outcome = Exited | Next(state: GameState)

  /** What holds between ticks: the snake keeps its own invariant, lies wholly inside the
      playfield without covering any cell twice, the food lies in its range, and the score
      is the number of meals since the last restart, which is `length - 1`. */
  predicate GameInv(g: GameState) {
    && SnakeInv(g.snake)
    && (forall i :: 0 <= i < |g.snake.body| ==> InBounds(g.snake.body[i]))
    && Distinct(g.snake.body)
    && FoodRange(g.food)
    && g.score == g.snake.length - 1
  }

  /** The state a new game starts in. */
  function Initial(d: Draw): (g: GameState)
    ensures g.snake == Start() && g.food == Spawn(d) && g.score == 0 && g.running
    ensures ValidDraw(d) ==> GameInv(g)
  {
    GameState(Start(), Spawn(d), 0, true)
  }

  /** The state after the player picks restart: a new snake, new food and a zero score. */
  function Restarted(g: GameState, d: Draw): (r: GameState)
    ensures r.snake == Start()
    ensures r.snake.body == [Center] && r.snake.direction == Zero && r.snake.length == 1
    ensures r.score == 0 && r.food == Spawn(d) && r.running == g.running
    ensures ValidDraw(d) ==> GameInv(r)
  {
    g.(snake := Start(), food := Spawn(d), score := 0)
  }

  /** The head is on the food. */
  predicate AtFood(g: GameState) {
    g.snake.x == g.food.x && g.snake.y == g.food.y
  }

  /** The state after the snake eats: new food, one more segment allowed, one more point. */
  function Eat(g: GameState, d: Draw): (r: GameState)
    ensures r.score == g.score + 1 && r.snake.length == g.snake.length + 1
    ensures r.food == Spawn(d)
    ensures r.snake.(length := g.snake.length) == g.snake && r.running == g.running
    ensures GameInv(g) && ValidDraw(d) ==> GameInv(r)
  {
    g.(snake := g.snake.(length := g.snake.length + 1), food := Spawn(d), score := g.score + 1)
  }

  /** The state after the events of one tick are handled: key presses steer the snake and a
      request to close the window clears `running`. */
  function Handled(g: GameState, events: seq<Event>): (r: GameState)
    ensures r.snake.direction == SteerAll(g.snake.direction, events)
    ensures AllowedDir(g.snake.direction) ==> AllowedDir(r.snake.direction)
    ensures r.running <==> g.running && Quit !in events
    ensures r.snake.(direction := g.snake.direction) == g.snake
    ensures r.food == g.food && r.score == g.score
  {
    assert AllowedDir(g.snake.direction) ==> AllowedDir(SteerAll(g.snake.direction, events)) by {
      if AllowedDir(g.snake.direction) {
        SteerAllAllowed(g.snake.direction, events);
      }
    }
    g.(snake := g.snake.(direction := SteerAll(g.snake.direction, events)),
       running := g.running && Quit !in events)
  }

  /** One pass of the main loop: handle events, move, on a crash exit or restart, then eat
      if the head is on the food. */
  function TickSpec(g: GameState, t: TickInput): (o: Outcome)
    requires |g.snake.body| > 0
    ensures o.Next? ==> |o.state.snake.body| > 0
  {
    var h := Handled(g, t.events);
    var moved := h.(snake := Moved(h.snake));
    if SnakeCollides(moved.snake) && t.afterCrash == Exit then Exited
    else
      var g2 := if SnakeCollides(moved.snake) then Restarted(moved, t.restartDraw) else moved;
      Next(if AtFood(g2) then Eat(g2, t.foodDraw) else g2)
  }

  /** The main loop run over `inputs`, one tick each, for as long as `running` holds. */
  function RunSpec(g: GameState, inputs: seq<TickInput>): (o: Outcome)
    requires |g.snake.body| > 0
    ensures !g.running ==> o == Next(g)
    ensures o.Next? ==> |o.state.snake.body| > 0
    decreases |inputs|
  {
    if inputs == [] || !g.running then Next(g)
    else
      match TickSpec(g, inputs[0])
      case Exited => Exited
      case Next(g') => RunSpec(g', inputs[1..])
  }

  /** A state that keeps the invariant has no collision: the head is inside the playfield
      and no earlier segment shares its cell. */
  lemma InvNoCollision(g: GameState)
    requires GameInv(g)
    ensures !SnakeCollides(g.snake)
  {
  }

  /** A tick that does not end the process leaves a state that keeps the invariant. */
  lemma TickPreservesInv(g: GameState, t: TickInput)
    requires GameInv(g) && ValidInput(t)
    ensures TickSpec(g, t).Next? ==> GameInv(TickSpec(g, t).state)
  {
    var h := Handled(g, t.events);
    var s := Moved(h.snake);
    var moved := h.(snake := s);
    if !SnakeCollides(s) {
      var b, b' := h.snake.body, s.body;
      assert SnakeInv(h.snake);
      assert InBounds(b'[|b'| - 1]);
      if b' == b + [Pos(s.x, s.y)] {
        assert forall i :: 0 <= i < |b'| - 1 ==> b'[i] == b[i];
      } else {
        assert b' == (b + [Pos(s.x, s.y)])[1..];
        assert forall i :: 0 <= i < |b'| - 1 ==> b'[i] == b[i + 1];
      }
      assert GameInv(moved);
    }
  }

  /** Every run that does not end the process leaves a state that keeps the invariant. */
  lemma {:induction false} RunPreservesInv(g: GameState, inputs: seq<TickInput>)
    requires GameInv(g)
    requires forall i :: 0 <= i < |inputs| ==> ValidInput(inputs[i])
    ensures RunSpec(g, inputs).Next? ==> GameInv(RunSpec(g, inputs).state)
    decreases |inputs|
  {
    if inputs != [] && g.running {
      TickPreservesInv(g, inputs[0]);
      match TickSpec(g, inputs[0])
      case Exited =>
      case Next(g') =>
        RunPreservesInv(g', inputs[1..]);
    }
  }

  /** The draws `(400, 300)` start a game with the food under the snake's head. */
  lemma FoodUnderStartingHead()
    ensures Initial(Draw(400, 300)) == GameState(SnakeState(400, 300, [Pos(400, 300)], Zero, 1), Pos(400, 300), 0, true)
    ensures AtFood(Initial(Draw(400, 300)))
  {
    assert RoundCells(400) == 20 && RoundCells(300) == 15;
  }

  /** From there, a tick without key presses leaves the snake where it is, and it eats. */
  lemma StandStillAndEat(t: TickInput)
    requires t.events == []
    ensures TickSpec(Initial(Draw(400, 300)), t)
         == Next(GameState(SnakeState(400, 300, [Pos(400, 300)], Zero, 2), Spawn(t.foodDraw), 1, true))
  {
    FoodUnderStartingHead();
    var g := GameState(SnakeState(400, 300, [Pos(400, 300)], Zero, 1), Pos(400, 300), 0, true);
    assert Handled(g, []) == g;
    assert Moved(g.snake) == g.snake;
  }

  /** After that meal, a tick without key presses makes the snake cover its own cell twice,
      which is a crash although the snake never moved. */
  lemma StandStillAndCrash(t: TickInput, food: Pos)
    requires t.events == [] && t.afterCrash == Exit
    ensures TickSpec(GameState(SnakeState(400, 300, [Pos(400, 300)], Zero, 2), food, 1, true), t) == Exited
  {
    var g1 := GameState(SnakeState(400, 300, [Pos(400, 300)], Zero, 2), food, 1, true);
    assert Handled(g1, []) == g1;
    assert g1.snake == Start().(length := 2);
    StandingStillAfterGrowthCollides();
  }

  class SnakeGame {
    var snake: Snake
    var food: Pos
    var score: int
    var running: bool

    function Abs(): GameState
      reads this, snake
    {
      GameState(snake.State(), food, score, running)
    }

    predicate Valid()
      reads this, snake
    {
      GameInv(Abs())
    }

    constructor (d: Draw)
      requires ValidDraw(d)
      ensures fresh(snake)
      ensures Abs() == Initial(d) && Valid()
    {
      snake := new Snake();
      food := Spawn(d);
      score := 0;
      running := true;
    }

    /** Processes the events polled in one tick, in order. */
    method HandleEvents(events: seq<Event>)
      modifies this, snake
      ensures snake == old(snake)
      ensures Abs() == Handled(old(Abs()), events)
    {
      var i := 0;
      while i < |events|
        invariant 0 <= i <= |events|
        invariant snake == old(snake)
        invariant snake.direction == SteerAll(old(snake.direction), events[..i])
        invariant running == (old(running) && Quit !in events[..i])
        invariant snake.x == old(snake.x) && snake.y == old(snake.y)
        invariant snake.body == old(snake.body) && snake.length == old(snake.length)
        invariant food == old(food) && score == old(score)
      {
        var e := events[i];
        ghost var before := snake.direction;
        if e == Quit {
          running := false;
        }
        if e.KeyDown? {
          if e.key == Left && snake.direction != Vec(CELL_SIZE, 0) {
            snake.direction := Vec(-CELL_SIZE, 0);
          } else if e.key == Right && snake.direction != Vec(-CELL_SIZE, 0) {
            snake.direction := Vec(CELL_SIZE, 0);
          } else if e.key == Up && snake.direction != Vec(0, CELL_SIZE) {
            snake.direction := Vec(0, -CELL_SIZE);
          } else if e.key == Down && snake.direction != Vec(0, -CELL_SIZE) {
            snake.direction := Vec(0, CELL_SIZE);
          }
          assert snake.direction == Steer(before, e.key);
        }
        assert events[..i + 1][..i] == events[..i];
        i := i + 1;
      }
      assert events[..i] == events;
    }

    /** A new snake, new food and a zero score; `running` is left as it is. */
    method RestartGame(d: Draw)
      modifies this
      ensures fresh(snake)
      ensures Abs() == Restarted(old(Abs()), d)
    {
      snake := new Snake();
      food := Spawn(d);
      score := 0;
    }

    /** One pass of the main loop. Returns true when the player left from the game-over
        screen, which ends the process. */
    method Tick(t: TickInput) returns (exited: bool)
      requires Valid() && ValidInput(t)
      modifies this, snake
      ensures snake == old(snake) || fresh(snake)
      ensures TickSpec(old(Abs()), t) == if exited then Exited else Next(Abs())
      ensures !exited ==> Valid()
    {
      ghost var g := Abs();
      HandleEvents(t.events);
      snake.Move();
      if Collides(snake.x, snake.y, snake.body) {
        if t.afterCrash == Exit {
          return true;
        }
        RestartGame(t.restartDraw);
      }
      if snake.x == food.x && snake.y == food.y {
        food := Spawn(t.foodDraw);
        snake.length := snake.length + 1;
        score := score + 1;
      }
      exited := false;
      TickPreservesInv(g, t);
    }

    /** The main loop over a finite script of ticks: it stops when the inputs run out, when
        `running` is cleared, or when the process exits. */
    method Run(inputs: seq<TickInput>) returns (exited: bool)
      requires Valid()
      requires forall i :: 0 <= i < |inputs| ==> ValidInput(inputs[i])
      modifies this, snake
      ensures RunSpec(old(Abs()), inputs) == if exited then Exited else Next(Abs())
      ensures !exited ==> Valid()
    {
      var i := 0;
      while i < |inputs| && running
        invariant 0 <= i <= |inputs|
        invariant snake == old(snake) || fresh(snake)
        invariant Valid()
        invariant RunSpec(old(Abs()), inputs) == RunSpec(Abs(), inputs[i..])
      {
        ghost var g := Abs();
        assert inputs[i..][0] == inputs[i] && inputs[i..][1..] == inputs[i + 1..];
        exited := Tick(inputs[i]);
        if exited {
          return;
        }
        i := i + 1;
      }
      exited := false;
    }
  }
}
