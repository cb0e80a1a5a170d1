/** The game's mutable objects: the module-level START_SNAKE_POSITION list,
    the Snake and the Apple. Each method updates fields in place as the game
    does and is proved to follow the functions of SnakeRules and Food. */
module Objects {
  import opened Wrappers
  import opened Grid
  import opened Food
  import opened SnakeRules

  /** The global list START_SNAKE_POSITION, mutated by Snake.move and read by
      Apple.randomize_position and Snake.reset. */
  class StartPositionList {
    var cells: seq<Cell>

    constructor ()
      ensures cells == [StartCell]
    {
      cells := [StartCell];
    }
  }

  class Snake {
    var positions: seq<Cell>
    var length: int
    var direction: Direction
    var nextDirection: Option<Direction>
    var last: Option<Cell>

    /** The fields as a value. */
    function Model(): SnakeState
      reads this
    {
      SnakeState(positions, length, direction, nextDirection, last)
    }

    /** Snake.__init__ binds a fresh local list, not the global one; the
        direction drawn by `choice(DIRECT)` is the parameter. */
    constructor (d: Direction)
      ensures Model() == SnakeState([StartCell], 1, d, None, None)
    {
      length := 1;
      positions := [StartCell];
      direction := d;
      nextDirection := None;
      last := None;
    }

    function HeadPosition(): Cell
      reads this
      requires |positions| > 0
    {
      positions[0]
    }

    /** Snake.move: `positions.insert` / `pop` and, in the shifting branch,
        the same on the global list. */
    method Move(start: StartPositionList, resetDirection: Direction)
      requires |positions| > 0
      modifies this, start
      ensures Model() == Moved(old(Model()), old(start.cells), resetDirection)
      ensures start.cells == StartMoved(old(Model()), old(start.cells))
    {
      var head := HeadPosition();
      var nextHead := NextHead(head, direction);
      if |positions| < length {
        positions := [nextHead] + positions;
      } else if |positions| == length {
        positions := [nextHead] + positions;
        start.cells := [nextHead] + start.cells;
        last := Some(positions[|positions| - 1]);
        positions := positions[..|positions| - 1];
        start.cells := start.cells[..|start.cells| - 1];
      } else {
        Reset(start, resetDirection);
      }
    }

    /** Snake.update_direction; like `update_direction` in the game, it ignores
        its argument. */
    method UpdateDirection(requested: Option<Direction>)
      modifies this
      ensures Model() == DirectionUpdated(old(Model()))
    {
      if nextDirection.Some? {
        direction := nextDirection.value;
        nextDirection := None;
      }
    }

    /** Snake.reset. The body becomes a copy of the global list; `Snake.reset`
        in the game binds the very same list object. */
    method Reset(start: StartPositionList, d: Direction)
      modifies this
      ensures Model() == ResetState(start.cells, d)
      ensures length == 1 && positions == start.cells && direction == d &&
              nextDirection == None && last == None
    {
      length := 1;
      positions := start.cells;
      direction := d;
      nextDirection := None;
      last := None;
    }
  }

  class Apple {
    var position: Cell

    /** Apple(): the position is drawn at once. */
    constructor (start: StartPositionList, roll: nat)
      requires Candidates(AllCells(), start.cells) != []
      ensures position == Pick(Candidates(AllCells(), start.cells), roll)
      ensures InGrid(position) && position !in start.cells
    {
      var candidates := Candidates(AllCells(), start.cells);
      position := Pick(candidates, roll);
      PickedCellIsFree(start.cells, roll);
    }

    /** Apple.randomize_position: a cell of ALL_CELLS outside the global list;
        `choice` fails on an empty candidate list, hence the precondition. */
    method RandomizePosition(start: StartPositionList, roll: nat)
      requires Candidates(AllCells(), start.cells) != []
      modifies this
      ensures position == Pick(Candidates(AllCells(), start.cells), roll)
      ensures InGrid(position) && position !in start.cells
    {
      var candidates := Candidates(AllCells(), start.cells);
      position := Pick(candidates, roll);
      PickedCellIsFree(start.cells, roll);
    }
  }
}
