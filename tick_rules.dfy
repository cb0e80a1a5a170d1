/** The per-tick transition of `main` as a function on the whole game state
    (snake, apple, shared start list), the invariant it keeps, and what a
    tick does to the body, the length and the apple. */
module TickRules {
  import opened Wrappers
  import opened Grid
  import opened Food
  import opened SnakeRules
  import opened Keys

  datatype GameState = GameState(snake: SnakeState, apple: Cell, start: seq<Cell>)

  /** The random draws of one tick: the direction a reset inside `move` would
      take, the index `choice` uses for the new apple, and the direction of a
      reset after a bite. */
  datatype Rolls = Rolls(moveReset: Direction, appleRoll: nat, biteReset: Direction)

  /** Snake() followed by Apple(): the snake's own list [StartCell], the
      shared start list [StartCell], and an apple drawn against it, so the
      apple never starts under the snake's head. */
  function InitialGame(d: Direction, appleRoll: nat): (g: GameState)
    ensures Valid(g) && g.snake.positions == [StartCell] && g.snake.length == 1
    ensures g.apple != StartCell
  {
    CandidatesNonEmpty([StartCell]);
    PickedCellIsFree([StartCell], appleRoll);
    assert InGrid(StartCell);
    GameState(SnakeState([StartCell], 1, d, None, None),
              Pick(Candidates(AllCells(), [StartCell]), appleRoll),
              [StartCell])
  }

  /** Lines `snake.move()` to the collision check: move, then the apple test
      first (grow and re-place the apple), and only otherwise the bite test
      against the body behind the head (reset). */
  function Advanced(g: GameState, r: Rolls): GameState
    requires |g.snake.positions| > 0 && 0 < |g.start| < |AllCells()|
  {
    var moved := Moved(g.snake, g.start, r.moveReset);
    var start := StartMoved(g.snake, g.start);
    assert |moved.positions| > 0;
    if moved.positions[0] == g.apple then
      CandidatesNonEmpty(start);
      GameState(moved.(length := moved.length + 1),
                Pick(Candidates(AllCells(), start), r.appleRoll), start)
    else if moved.positions[0] in moved.positions[1..] then
      GameState(ResetState(start, r.biteReset), g.apple, start)
    else
      GameState(moved, g.apple, start)
  }

  /** What holds between ticks: the body is non-empty, on the grid, and at
      most one cell short of `length`; the apple is on the grid; the shared
      start list holds one cell of the body; no direction is pending. */
  ghost predicate Valid(g: GameState) {
    var p := g.snake.positions;
    |p| >= 1 && g.snake.length - 1 <= |p| <= g.snake.length &&
    (forall c | c in p :: InGrid(c)) &&
    InGrid(g.apple) &&
    |g.start| == 1 && g.start[0] in p &&
    g.snake.nextDirection == None
  }

  /** The key events of a tick keep the invariant. */
  lemma EventsKeepValid(g: GameState, events: seq<Event>)
    requires Valid(g)
    ensures Valid(g.(snake := EventsHandled(g.snake, events).snake))
  {
    EventsOnlyTurn(g.snake, events);
  }

  /** A tick keeps the invariant, so `length >= 1` and the body never
      outgrows `length`. */
  lemma {:induction false} AdvanceKeepsValid(g: GameState, r: Rolls)
    requires Valid(g)
    ensures Valid(Advanced(g, r))
  {
    var s := g.snake;
    var moved := Moved(s, g.start, r.moveReset);
    var start := StartMoved(s, g.start);
    NextHeadInGrid(s.positions[0], s.direction);
    MoveReachesLength(s, g.start, r.moveReset);
    assert forall c | c in moved.positions :: InGrid(c) by {
      forall c | c in moved.positions ensures InGrid(c) {
        if c != moved.positions[0] {
          assert c in moved.positions[1..];
        }
      }
    }
    if |s.positions| < s.length {
      assert start == g.start && start[0] in moved.positions[1..];
    } else {
      MoveShifts(s, g.start, r.moveReset);
    }
    assert start[0] in moved.positions;
    if moved.positions[0] == g.apple {
      CandidatesNonEmpty(start);
      PickedCellIsFree(start, r.appleRoll);
    }
  }

  /** The body size after a tick: the move brings it to the old `length`;
      eating then raises `length` by one (the body catches up on the next
      move); a bite shrinks the body to its one start cell. */
  lemma TickBodySize(g: GameState, r: Rolls)
    requires Valid(g)
    ensures var n := Advanced(g, r).snake;
      var moved := Moved(g.snake, g.start, r.moveReset);
      var head := NextHead(g.snake.positions[0], g.snake.direction);
      if head == g.apple then
        |n.positions| == g.snake.length && n.length == g.snake.length + 1
      else if head in moved.positions[1..] then
        |n.positions| == n.length == 1
      else
        |n.positions| == n.length == g.snake.length
  {
    MoveReachesLength(g.snake, g.start, r.moveReset);
  }

  /** Growth is deferred by one move: right after eating the body is one
      cell short of `length`, and the next move adds exactly that cell. */
  lemma GrowthCatchesUp(g: GameState, r: Rolls, d: Direction)
    requires Valid(g)
    requires NextHead(g.snake.positions[0], g.snake.direction) == g.apple
    ensures var n := Advanced(g, r);
      Valid(n) &&
      |n.snake.positions| + 1 == n.snake.length &&
      |Moved(n.snake, n.start, d).positions| == |n.snake.positions| + 1 == n.snake.length
  {
    TickBodySize(g, r);
    AdvanceKeepsValid(g, r);
    var n := Advanced(g, r);
    MoveGrows(n.snake, n.start, d);
  }

  /** The apple is checked before the body: a head on the apple grows the
      snake and moves the apple off the shared start list, with no reset that
      tick even if the head also lies on the body. */
  lemma AppleCheckedFirst(g: GameState, r: Rolls)
    requires Valid(g)
    requires NextHead(g.snake.positions[0], g.snake.direction) == g.apple
    ensures var n := Advanced(g, r);
      var moved := Moved(g.snake, g.start, r.moveReset);
      n.snake.positions == moved.positions &&
      n.snake.length == g.snake.length + 1 &&
      n.apple in AllCells() && n.apple !in n.start
  {
    MoveReachesLength(g.snake, g.start, r.moveReset);
    var start := StartMoved(g.snake, g.start);
    CandidatesNonEmpty(start);
    PickedCellIsFree(start, r.appleRoll);
    AllCellsAreTheGrid(Advanced(g, r).apple);
  }

  /** A head landing on the body behind it (and not on the apple) resets the
      snake: length 1, body = the shared start list, nothing pending, no
      tail to erase, a drawn direction. */
  lemma BiteResets(g: GameState, r: Rolls)
    requires Valid(g)
    requires var moved := Moved(g.snake, g.start, r.moveReset);
      moved.positions[0] != g.apple && moved.positions[0] in moved.positions[1..]
    ensures var n := Advanced(g, r);
      n.snake.length == 1 && n.snake.positions == n.start && |n.snake.positions| == 1 &&
      n.snake.nextDirection == None && n.snake.last == None &&
      n.snake.direction == r.biteReset && n.snake.direction in Directions &&
      n.apple == g.apple
  {
    MoveReachesLength(g.snake, g.start, r.moveReset);
    EveryDirectionIsListed(r.biteReset);
  }

  /** The head moving into the cell the tail leaves in the same move is not a
      bite: the tail is dropped before the check, so the tick only moves. */
  lemma TailChaseIsNoBite(g: GameState, r: Rolls)
    requires Valid(g)
    requires var p := g.snake.positions;
      |p| == g.snake.length &&
      NextHead(p[0], g.snake.direction) == p[|p| - 1] &&
      p[|p| - 1] != g.apple && p[|p| - 1] !in p[..|p| - 1]
    ensures Advanced(g, r).snake == Moved(g.snake, g.start, r.moveReset)
  {
    var p := g.snake.positions;
    var moved := Moved(g.snake, g.start, r.moveReset);
    assert moved.positions[1..] == p[..|p| - 1];
  }

  /** A five-cell snake turning down into its own body is reset in that tick. */
  lemma BiteScenario()
    ensures var g := GameState(
        SnakeState([Cell(0, 0), Cell(20, 0), Cell(20, 20), Cell(0, 20), Cell(0, 40)],
                   5, Down, None, None),
        Cell(300, 300), [Cell(0, 0)]);
      Valid(g) && Advanced(g, Rolls(Up, 0, Left)).snake == SnakeState([Cell(0, 20)], 1, Left, None, None)
  {
    var body := [Cell(0, 0), Cell(20, 0), Cell(20, 20), Cell(0, 20), Cell(0, 40)];
    var g := GameState(SnakeState(body, 5, Down, None, None), Cell(300, 300), [Cell(0, 0)]);
    assert forall c | c in body :: InGrid(c);
    assert NextHead(Cell(0, 0), Down) == Cell(0, 20);
    var moved := Moved(g.snake, g.start, Up);
    assert moved.positions == [Cell(0, 20)] + body[..4];
    assert moved.positions[4] == Cell(0, 20);
    assert moved.positions[0] in moved.positions[1..];
    assert StartMoved(g.snake, g.start) == [Cell(0, 20)];
  }

  /** The apple only avoids the shared start list, which holds one cell of
      the body: a new apple may be drawn onto another body cell. */
  lemma AppleMayLandOnBody()
    ensures var g := GameState(
        SnakeState([Cell(320, 240), Cell(300, 240)], 2, Right, None, Some(Cell(280, 240))),
        Cell(0, 0), [Cell(320, 240)]);
      Valid(g) && g.snake.positions[1] in Candidates(AllCells(), g.start)
  {
    AllCellsAreTheGrid(Cell(300, 240));
  }
}
