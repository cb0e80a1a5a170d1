/** The game loop: handle_keys over a tick's queued events and the body of
    `main`'s `while True` loop. Window, clock and drawing are not modelled;
    the input is a finite list of ticks, each with its events and draws. */
module Game {
  import opened Wrappers
  import opened Grid
  import opened Food
  import opened Keys
  import opened TickRules
  import opened Objects

  /** The live objects as a value. */
  function State(snake: Snake, apple: Apple, start: StartPositionList): GameState
    reads snake, apple, start
  {
    GameState(snake.Model(), apple.position, start.cells)
  }

  /** handle_keys: for each event, the close button or Escape quits; a key
      press runs the arrow filter and then update_direction. */
  method HandleKeys(snake: Snake, events: seq<Event>) returns (quit: bool)
    modifies snake
    ensures Handled(snake.Model(), quit) == EventsHandled(old(snake.Model()), events)
  {
    var i := 0;
    while i < |events|
      invariant 0 <= i <= |events|
      invariant EventsHandled(old(snake.Model()), events) == EventsHandled(snake.Model(), events[i..])
    {
      match events[i] {
        case QuitEvent =>
          return true;
        case KeyDown(key) =>
          if key == ArrowUp && snake.direction != Down {
            snake.nextDirection := Some(Up);
          } else if key == ArrowDown && snake.direction != Up {
            snake.nextDirection := Some(Down);
          } else if key == ArrowLeft && snake.direction != Right {
            snake.nextDirection := Some(Left);
          } else if key == ArrowRight && snake.direction != Left {
            snake.nextDirection := Some(Right);
          } else if key == Escape {
            return true;
          }
          snake.UpdateDirection(snake.nextDirection);
        case OtherEvent =>
      }
      i := i + 1;
    }
    return false;
  }

  /** One pass of the loop after the events: move, then the apple check,
      then the bite check. */
  method Tick(snake: Snake, apple: Apple, start: StartPositionList, rolls: Rolls)
    requires |snake.positions| > 0 && 0 < |start.cells| < |AllCells()|
    modifies snake, apple, start
    ensures State(snake, apple, start) == Advanced(old(State(snake, apple, start)), rolls)
  {
    snake.Move(start, rolls.moveReset);
    if snake.positions[0] == apple.position {
      snake.length := snake.length + 1;
      CandidatesNonEmpty(start.cells);
      apple.RandomizePosition(start, rolls.appleRoll);
    } else if snake.positions[0] in snake.positions[1..] {
      snake.Reset(start, rolls.biteReset);
    }
  }

  /** The input of one tick: the queued events and the random draws. */
  datatype TickInput = TickInput(events: seq<Event>, rolls: Rolls)

  /** The game state after a run of ticks; the run stops at a quit. */
  ghost function Run(g: GameState, ticks: seq<TickInput>): (r: GameState)
    requires Valid(g)
    ensures Valid(r)
    decreases |ticks|
  {
    if ticks == [] then g
    else
      var handled := EventsHandled(g.snake, ticks[0].events);
      var turned := g.(snake := handled.snake);
      EventsKeepValid(g, ticks[0].events);
      if handled.quit then turned
      else
        AdvanceKeepsValid(turned, ticks[0].rolls);
        Run(Advanced(turned, ticks[0].rolls), ticks[1..])
  }

  /** `main`: create the snake, then the apple, then run the ticks. */
  method Play(initialDirection: Direction, appleRoll: nat, ticks: seq<TickInput>)
    returns (final: GameState)
    ensures final == Run(InitialGame(initialDirection, appleRoll), ticks)
    ensures Valid(final)
  {
    var start := new StartPositionList();
    var snake := new Snake(initialDirection);
    CandidatesNonEmpty(start.cells);
    var apple := new Apple(start, appleRoll);
    assert State(snake, apple, start) == InitialGame(initialDirection, appleRoll);
    var i := 0;
    while i < |ticks|
      invariant 0 <= i <= |ticks|
      invariant Valid(State(snake, apple, start))
      invariant Run(InitialGame(initialDirection, appleRoll), ticks) ==
                Run(State(snake, apple, start), ticks[i..])
    {
      ghost var before := State(snake, apple, start);
      var quit := HandleKeys(snake, ticks[i].events);
      ghost var turned := State(snake, apple, start);
      assert turned == before.(snake := EventsHandled(before.snake, ticks[i].events).snake);
      EventsKeepValid(before, ticks[i].events);
      if quit {
        break;
      }
      Tick(snake, apple, start, ticks[i].rolls);
      AdvanceKeepsValid(turned, ticks[i].rolls);
      assert ticks[i..][1..] == ticks[i + 1..];
      i := i + 1;
    }
    final := State(snake, apple, start);
  }
}
