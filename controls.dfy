/** Input events and the rule that turns an arrow key into a new direction. */
module Controls {
  import opened Grid

  datatype Key = Left | Right | Up | Down | OtherKey

  /** The events the game reacts to: closing the window, a key press, anything else. */
  datatype Event = Quit | KeyDown(key: Key) | OtherEvent

  /** The direction an arrow key asks for (`OtherKey` asks for nothing). */
  function Heading(k: Key): Vec {
    match k
    case Left => Vec(-CELL_SIZE, 0)
    case Right => Vec(CELL_SIZE, 0)
    case Up => Vec(0, -CELL_SIZE)
    case Down => Vec(0, CELL_SIZE)
    case OtherKey => Zero
  }

  /** The direction after one key press: the key's heading, unless that would turn the
      snake straight back on itself, in which case the direction is kept. */
  function Steer(dir: Vec, k: Key): (d: Vec)
    ensures AllowedDir(dir) ==> AllowedDir(d)
    ensures dir != Zero ==> d != Opposite(dir)
    ensures d == dir || (k != OtherKey && d == Heading(k))
    ensures k != OtherKey && d != Heading(k) ==> dir == Opposite(Heading(k))
  {
    match k
    case OtherKey => dir
    case _ => if dir != Opposite(Heading(k)) then Heading(k) else dir
  }

  /** `d` is the heading of one of the arrow keys pressed among `events`. */
  predicate PressedHeading(d: Vec, events: seq<Event>) {
    exists i :: 0 <= i < |events| && events[i].KeyDown? && events[i].key != OtherKey && d == Heading(events[i].key)
  }

  /** The direction after all key presses among `events`, in order. It is the direction
      before them or the heading of one of the keys pressed. */
  function SteerAll(dir: Vec, events: seq<Event>): (d: Vec)
    ensures d == dir || PressedHeading(d, events)
  {
    if events == [] then dir
    else
      var n := |events| - 1;
      var before := SteerAll(dir, events[..n]);
      var e := events[n];
      assert PressedHeading(before, events[..n]) ==> PressedHeading(before, events) by {
        if PressedHeading(before, events[..n]) {
          var i :| 0 <= i < n && events[..n][i].KeyDown? && events[..n][i].key != OtherKey
                   && before == Heading(events[..n][i].key);
          assert events[i] == events[..n][i];
        }
      }
      if e.KeyDown? then
        var d := Steer(before, e.key);
        assert d != before ==> PressedHeading(d, events) by {
          if d != before {
            assert events[n].KeyDown? && events[n].key != OtherKey && d == Heading(events[n].key);
          }
        }
        d
      else before
  }

  /** Any number of events keeps the direction among the allowed ones. */
  lemma {:induction false} SteerAllAllowed(dir: Vec, events: seq<Event>)
    requires AllowedDir(dir)
    ensures AllowedDir(SteerAll(dir, events))
  {
    if events != [] {
      SteerAllAllowed(dir, events[..|events| - 1]);
    }
  }

  /** Events without an arrow-key press leave the direction alone. */
  lemma {:induction false} SteerAllWithoutKeys(dir: Vec, events: seq<Event>)
    requires forall i :: 0 <= i < |events| ==> !events[i].KeyDown? || events[i].key == OtherKey
    ensures SteerAll(dir, events) == dir
  {
    if events != [] {
      SteerAllWithoutKeys(dir, events[..|events| - 1]);
    }
  }

  /** The reversal guard compares with the direction as it stands at each key press, so two
      presses within one tick can still turn a snake moving right to moving left. */
  lemma ReversalWithinOneTick()
    ensures SteerAll(Heading(Right), [KeyDown(Up), KeyDown(Left)]) == Opposite(Heading(Right))
  {
    var events := [KeyDown(Up), KeyDown(Left)];
    assert events[..1] == [KeyDown(Up)] && [KeyDown(Up)][..0] == [];
    assert SteerAll(Heading(Right), [KeyDown(Up)]) == Heading(Up);
    assert SteerAll(Heading(Right), events) == Steer(SteerAll(Heading(Right), events[..1]), Left);
    assert Steer(Heading(Up), Left) == Heading(Left);
  }
}
