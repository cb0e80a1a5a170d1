/** The snake's state as a value and the specification of Snake.move,
    Snake.reset and Snake.update_direction. The class Objects.Snake updates
    its fields in place and is proved to follow these functions. */
module SnakeRules {
  import opened Wrappers
  import opened Grid

  /** The fields of a Snake: the body head first, the target `length`, the
      current `direction`, the `next_direction` requested by a key and the
      tail cell `last` dropped by the latest shifting move. */
  datatype SnakeState = SnakeState(
    positions: seq<Cell>,
    length: int,
    direction: Direction,
    nextDirection: Option<Direction>,
    last: Option<Cell>)

  /** Snake.reset: length 1, the body taken from the shared start list, a
      drawn direction, no pending direction and no erased tail. */
  function ResetState(start: seq<Cell>, d: Direction): SnakeState {
    SnakeState(start, 1, d, None, None)
  }

  /** Snake.move. Three branches on the body size against `length`: grow
      (prepend the new head), shift (prepend the new head, drop the tail into
      `last`), or reset when the body is longer than `length`. */
  function Moved(s: SnakeState, start: seq<Cell>, resetDirection: Direction): SnakeState
    requires |s.positions| > 0
  {
    var p := s.positions;
    var nextHead := NextHead(p[0], s.direction);
    if |p| < s.length then
      s.(positions := [nextHead] + p)
    else if |p| == s.length then
      s.(positions := [nextHead] + p[..|p| - 1], last := Some(p[|p| - 1]))
    else
      ResetState(start, resetDirection)
  }

  /** The shared START_SNAKE_POSITION list after a move: the shifting branch
      inserts the new head at the front and pops the last element; the other
      branches leave it alone. */
  function StartMoved(s: SnakeState, start: seq<Cell>): seq<Cell>
    requires |s.positions| > 0
  {
    if |s.positions| == s.length then
      ([NextHead(s.positions[0], s.direction)] + start)[..|start|]
    else
      start
  }

  /** Snake.update_direction (its argument is ignored): a pending direction
      becomes the current one and is cleared. */
  function DirectionUpdated(s: SnakeState): SnakeState {
    if s.nextDirection.Some? then
      s.(direction := s.nextDirection.value, nextDirection := None)
    else
      s
  }

  /** Growing: the new head is prepended, nothing is removed, the body is one
      cell longer and `last` keeps its value. */
  lemma MoveGrows(s: SnakeState, start: seq<Cell>, d: Direction)
    requires 0 < |s.positions| < s.length
    ensures var r := Moved(s, start, d);
      r.positions == [NextHead(s.positions[0], s.direction)] + s.positions &&
      |r.positions| == |s.positions| + 1 &&
      r.last == s.last && r.length == s.length && r.direction == s.direction &&
      r.nextDirection == s.nextDirection
    ensures StartMoved(s, start) == start
  {
  }

  /** Shifting: the body keeps its size, every cell moves one place back, the
      old tail lands in `last`, and the shared list's front becomes the new
      head. */
  lemma MoveShifts(s: SnakeState, start: seq<Cell>, d: Direction)
    requires 0 < |s.positions| == s.length
    ensures var r := Moved(s, start, d);
      |r.positions| == |s.positions| &&
      r.positions[0] == NextHead(s.positions[0], s.direction) &&
      (forall k :: 1 <= k < |r.positions| ==> r.positions[k] == s.positions[k - 1]) &&
      r.last == Some(s.positions[|s.positions| - 1]) &&
      r.length == s.length && r.direction == s.direction &&
      r.nextDirection == s.nextDirection
    ensures |StartMoved(s, start)| == |start|
    ensures start != [] ==> StartMoved(s, start)[0] == NextHead(s.positions[0], s.direction)
  {
  }

  /** A body at most one cell short of its target length reaches it in one
      move and then holds it; the resetting branch is not taken. */
  lemma MoveReachesLength(s: SnakeState, start: seq<Cell>, d: Direction)
    requires 1 <= |s.positions| && s.length - 1 <= |s.positions| <= s.length
    ensures var r := Moved(s, start, d);
      |r.positions| == r.length == s.length &&
      r.positions[0] == NextHead(s.positions[0], s.direction) &&
      r.positions[1..] <= s.positions
  {
  }

  /** Calling update_direction twice is calling it once; afterwards nothing
      is pending, and the direction is the pending one if there was one. */
  lemma UpdateDirectionIdempotent(s: SnakeState)
    ensures DirectionUpdated(DirectionUpdated(s)) == DirectionUpdated(s)
    ensures DirectionUpdated(s).nextDirection == None
    ensures DirectionUpdated(s).direction ==
            if s.nextDirection.Some? then s.nextDirection.value else s.direction
    ensures DirectionUpdated(s).positions == s.positions &&
            DirectionUpdated(s).length == s.length && DirectionUpdated(s).last == s.last
  {
  }
}
