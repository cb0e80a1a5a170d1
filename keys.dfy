/** Key handling (handle_keys): the arrow filter that refuses the reverse
    of the current direction, followed by update_direction after EVERY key
    event. The guard therefore holds per event, not per tick: two presses in
    one tick can turn the snake around. */
module Keys {
  import opened Wrappers
  import opened Grid
  import opened SnakeRules

  datatype Key = ArrowUp | ArrowDown | ArrowLeft | ArrowRight | Escape | OtherKey {
    predicate IsArrow() {
      !Escape? && !OtherKey?
    }

    function Heading(): Direction
      requires IsArrow()
    {
      match this
      case ArrowUp => Up
      case ArrowDown => Down
      case ArrowLeft => Left
      case ArrowRight => Right
    }
  }

  /** The events the game reacts to: the window's close button, a key press,
      and everything else (ignored). */
  datatype Event = QuitEvent | KeyDown(key: Key) | OtherEvent

  /** The `if/elif` chain: an arrow sets `next_direction` unless it points
      opposite to the current direction; anything else keeps it. */
  function FilteredNextDirection(s: SnakeState, key: Key): Option<Direction> {
    if key == ArrowUp && s.direction != Down then Some(Up)
    else if key == ArrowDown && s.direction != Up then Some(Down)
    else if key == ArrowLeft && s.direction != Right then Some(Left)
    else if key == ArrowRight && s.direction != Left then Some(Right)
    else s.nextDirection
  }

  /** One non-Escape key event: filter, then update_direction. */
  function KeyPressed(s: SnakeState, key: Key): SnakeState {
    DirectionUpdated(s.(nextDirection := FilteredNextDirection(s, key)))
  }

  /** The snake after the queued events, and whether the game quits (the
      close button or Escape end the process; later events are not seen). */
  datatype Handled = Handled(snake: SnakeState, quit: bool)

  function EventsHandled(s: SnakeState, events: seq<Event>): Handled
    decreases |events|
  {
    if events == [] then Handled(s, false)
    else match events[0]
      case QuitEvent => Handled(s, true)
      case KeyDown(key) =>
        if key == Escape then Handled(s, true)
        else EventsHandled(KeyPressed(s, key), events[1..])
      case OtherEvent => EventsHandled(s, events[1..])
  }

  /** An accepted arrow turns the snake at once and leaves nothing pending. */
  lemma AcceptedArrowTurns(s: SnakeState, key: Key)
    requires key.IsArrow() && key.Heading() != s.direction.Opposite()
    ensures KeyPressed(s, key).direction == key.Heading()
    ensures KeyPressed(s, key).nextDirection == None
  {
  }

  /** A refused arrow (the reverse of the current direction) changes nothing
      when no direction was pending. */
  lemma RefusedArrowKeepsDirection(s: SnakeState, key: Key)
    requires s.nextDirection == None
    requires key.IsArrow() && key.Heading() == s.direction.Opposite()
    ensures KeyPressed(s, key) == s
  {
  }

  /** A single key event never makes the direction the reverse of what it was
      just before that event (unless a reverse turn was already pending). */
  lemma KeyPressNeverReverses(s: SnakeState, key: Key)
    requires s.nextDirection == None || s.nextDirection.value != s.direction.Opposite()
    ensures KeyPressed(s, key).direction != s.direction.Opposite()
    ensures KeyPressed(s, key).nextDirection == None
  {
  }

  /** Events only ever turn the snake: body, length and `last` stay, and no
      direction is left pending. */
  lemma {:induction false} EventsOnlyTurn(s: SnakeState, events: seq<Event>)
    requires s.nextDirection == None
    ensures var r := EventsHandled(s, events).snake;
      r.positions == s.positions && r.length == s.length && r.last == s.last &&
      r.nextDirection == None
    decreases |events|
  {
    if events != [] {
      match events[0]
      case QuitEvent =>
      case KeyDown(key) =>
        if key != Escape {
          KeyPressNeverReverses(s, key);
          EventsOnlyTurn(KeyPressed(s, key), events[1..]);
        }
      case OtherEvent =>
        EventsOnlyTurn(s, events[1..]);
    }
  }

  /** The guard is per event: RIGHT, then UP, then LEFT within one tick
      reverses the snake. */
  lemma TwoPressesCanReverse(s: SnakeState)
    requires s.direction == Right && s.nextDirection == None
    ensures EventsHandled(s, [KeyDown(ArrowUp), KeyDown(ArrowLeft)]).snake.direction
            == s.direction.Opposite()
  {
    var events := [KeyDown(ArrowUp), KeyDown(ArrowLeft)];
    var s1 := KeyPressed(s, ArrowUp);
    var s2 := KeyPressed(s1, ArrowLeft);
    assert s1.direction == Up && s2.direction == Left;
    assert EventsHandled(s, events) == EventsHandled(s1, events[1..]);
    assert EventsHandled(s1, events[1..]) == EventsHandled(s2, []);
  }
}
