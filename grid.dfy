/** The playing field: screen and grid constants, the four directions, the
    toroidal next-head arithmetic and the list ALL_CELLS of every cell.
    Cells are in PIXEL coordinates (the top-left corner of a 20x20 square),
    as in the game; a cell of the grid has both coordinates divisible by 20. */
module Grid {

  const ScreenWidth: int := 640
  const ScreenHeight: int := 480
  const GridSize: int := 20
  const GridWidth: int := 32   // SCREEN_WIDTH // GRID_SIZE columns
  const GridHeight: int := 24  // SCREEN_HEIGHT // GRID_SIZE rows

  datatype Cell = Cell(x: int, y: int)

  /** The cell the snake starts on (and that START_SNAKE_POSITION first holds). */
  const StartCell: Cell := Cell(320, 240)  // (SCREEN_WIDTH // 2, SCREEN_HEIGHT // 2)

  lemma GridDimensions()
    ensures GridWidth == ScreenWidth / GridSize && GridHeight == ScreenHeight / GridSize
    ensures StartCell == Cell(ScreenWidth / 2, ScreenHeight / 2) && InGrid(StartCell)
  {
  }

  /** UP = (0, -1), DOWN = (0, 1), LEFT = (-1, 0), RIGHT = (1, 0). */
  datatype Direction = Up | Down | Left | Right {
    function Dx(): int {
      match this
      case Left => -1
      case Right => 1
      case _ => 0
    }

    function Dy(): int {
      match this
      case Up => -1
      case Down => 1
      case _ => 0
    }

    function Opposite(): (o: Direction)
      ensures o.Dx() == -Dx() && o.Dy() == -Dy()
      ensures o != this
    {
      match this
      case Up => Down
      case Down => Up
      case Left => Right
      case Right => Left
    }
  }

  /** DIRECT, the list `choice` draws the initial and reset direction from. */
  const Directions: seq<Direction> := [Up, Down, Left, Right]

  lemma EveryDirectionIsListed(d: Direction)
    ensures d in Directions
  {
  }

  /** A cell of the grid: on screen and aligned to the 20-pixel grid. */
  predicate InGrid(c: Cell) {
    0 <= c.x < ScreenWidth && 0 <= c.y < ScreenHeight &&
    c.x % GridSize == 0 && c.y % GridSize == 0
  }

  /** The head after one step in direction `d`. Python's `%` floors, which
      for the positive screen sizes is Dafny's Euclidean `%`: the result is
      never negative, so the field is a torus. */
  function NextHead(head: Cell, d: Direction): (r: Cell)
    ensures 0 <= r.x < ScreenWidth && 0 <= r.y < ScreenHeight
    ensures (head.x + d.Dx() * GridSize - r.x) % ScreenWidth == 0
    ensures (head.y + d.Dy() * GridSize - r.y) % ScreenHeight == 0
  {
    Cell((head.x + d.Dx() * GridSize) % ScreenWidth,
         (head.y + d.Dy() * GridSize) % ScreenHeight)
  }

  /** Reference definition without `%`: a coordinate one step beyond an edge
      re-enters at the opposite edge. */
  function Wrapped(v: int, size: int): int {
    if v < 0 then v + size else if v >= size then v - size else v
  }

  /** For every on-screen head the modular step is the edge-wrapping step. */
  lemma NextHeadWraps(head: Cell, d: Direction)
    requires 0 <= head.x < ScreenWidth && 0 <= head.y < ScreenHeight
    ensures NextHead(head, d) ==
            Cell(Wrapped(head.x + d.Dx() * GridSize, ScreenWidth),
                 Wrapped(head.y + d.Dy() * GridSize, ScreenHeight))
  {
  }

  /** Leaving the right edge re-enters at x = 0; leaving the left edge
      re-enters at x = 620 (and likewise at the bottom and top). */
  lemma EdgesWrapAround(y: int, x: int)
    requires 0 <= y < ScreenHeight && 0 <= x < ScreenWidth
    ensures NextHead(Cell(ScreenWidth - GridSize, y), Right) == Cell(0, y)
    ensures NextHead(Cell(0, y), Left) == Cell(ScreenWidth - GridSize, y)
    ensures NextHead(Cell(x, ScreenHeight - GridSize), Down) == Cell(x, 0)
    ensures NextHead(Cell(x, 0), Up) == Cell(x, ScreenHeight - GridSize)
  {
  }

  /** ALL_CELLS: column by column (outer loop over x), top to bottom. */
  function AllCells(): (cells: seq<Cell>)
    ensures |cells| == GridWidth * GridHeight
  {
    seq(GridWidth * GridHeight,
        k requires 0 <= k < GridWidth * GridHeight =>
          Cell(GridSize * (k / GridHeight), GridSize * (k % GridHeight)))
  }

  /** The cell of column `i`, row `j` sits at index i * GridHeight + j. */
  lemma AllCellsAt(i: int, j: int)
    requires 0 <= i < GridWidth && 0 <= j < GridHeight
    ensures 0 <= i * GridHeight + j < |AllCells()|
    ensures AllCells()[i * GridHeight + j] == Cell(GridSize * i, GridSize * j)
  {
    var k := i * GridHeight + j;
    assert k / GridHeight == i && k % GridHeight == j;
  }

  /** ALL_CELLS holds exactly the cells of the grid. */
  lemma AllCellsAreTheGrid(c: Cell)
    ensures c in AllCells() <==> InGrid(c)
  {
    if c in AllCells() {
      var k :| 0 <= k < |AllCells()| && AllCells()[k] == c;
      assert 0 <= k / GridHeight < GridWidth && 0 <= k % GridHeight < GridHeight;
    }
    if InGrid(c) {
      AllCellsAt(c.x / GridSize, c.y / GridSize);
    }
  }

  /** No cell is listed twice in ALL_CELLS. */
  lemma AllCellsDistinct(k: int, m: int)
    requires 0 <= k < m < |AllCells()|
    ensures AllCells()[k] != AllCells()[m]
  {
  }

  /** A head on the grid stays on the grid: a head in ALL_CELLS moves to a
      cell of ALL_CELLS. */
  lemma NextHeadInGrid(head: Cell, d: Direction)
    requires InGrid(head)
    ensures InGrid(NextHead(head, d))
    ensures head in AllCells() && NextHead(head, d) in AllCells()
  {
    NextHeadWraps(head, d);
    AllCellsAreTheGrid(head);
    AllCellsAreTheGrid(NextHead(head, d));
  }

  /** The module-level nested loop that builds ALL_CELLS with `append`. */
  method BuildAllCells() returns (cells: seq<Cell>)
    ensures cells == AllCells()
  {
    cells := [];
    var i := 0;
    while i < ScreenWidth
      invariant 0 <= i <= ScreenWidth && i % GridSize == 0
      invariant cells == AllCells()[..(i / GridSize) * GridHeight]
    {
      var j := 0;
      while j < ScreenHeight
        invariant 0 <= j <= ScreenHeight && j % GridSize == 0
        invariant cells == AllCells()[..(i / GridSize) * GridHeight + j / GridSize]
      {
        AllCellsAt(i / GridSize, j / GridSize);
        cells := cells + [Cell(i, j)];
        j := j + GridSize;
      }
      i := i + GridSize;
    }
  }
}
