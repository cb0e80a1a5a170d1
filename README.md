# Snake game core in Dafny

A model of the simulation core of a pygame snake game (`the_snake.py`). The
field is 640x480 pixels, divided into 20-pixel cells (32 columns, 24 rows).
On every tick the game does four things in order:

1. It handles the queued key events.
2. It moves the snake one cell, wrapping around the edges.
3. If the new head is on the apple, the snake's target `length` grows and
   the apple is drawn again.
4. Otherwise, if the head lies on the body behind it, the snake is reset.

The model has two layers.

- **Value specification** (modules `Grid`, `Food`, `SnakeRules`, `Keys`,
  `TickRules`). This layer has the cell and direction datatypes, the
  toroidal next-head arithmetic and the list `ALL_CELLS`. It also has the
  apple's candidate list and the snake's fields as a datatype (`SnakeState`).
  The functions `Moved`, `StartMoved`, `DirectionUpdated`, `KeyPressed`,
  `EventsHandled` and `Advanced` give what each operation does to a state,
  and the lemmas prove what the game promises about them.
- **Imperative layer** (modules `Objects`, `Game`). The classes
  `StartPositionList` (the global `START_SNAKE_POSITION` list), `Snake` and
  `Apple` update their fields in place, as the game does. The methods
  `HandleKeys`, `Tick` and `Play` are `handle_keys` and the `main` loop.
  Every method is proved to follow the value specification.

The module-level `START_SNAKE_POSITION` list is shared state, and the model
treats it as its own object:

- `Snake.move` prepends to it and pops from it in its shifting branch.
- `Apple.randomize_position` excludes its cells.
- `Snake.reset` takes the body from it.
- `Snake.__init__` binds a new local list instead.

In the model, where `reset` copies the global list into the body, the list
holds exactly one cell between ticks, and that cell is in the body
(`TickRules.Valid`). This is a property of the copying model only. The code
makes the body the global list itself after a reset, and then this no longer
holds (see "## Left out").

Random draws are parameters:

- The direction of `choice(DIRECT)` is a `Direction` (every direction is in
  `DIRECT`).
- The apple's `choice` is an index `roll`. The apple is
  `candidates[roll % |candidates|]`, and every candidate can be drawn.

`get_head_position` is `Objects.Snake.HeadPosition`, the first body cell. It
has no contract of its own; `Snake.Move` uses it.

Several behaviours of the code are kept as written:

- The apple avoids only the cells of `START_SNAKE_POSITION`, which holds one
  cell of the body. It does not avoid the rest of the body, so an apple can
  be drawn onto the snake (`TickRules.AppleMayLandOnBody`).
- There is no retry loop and no "grid full" error. The apple is drawn from
  the filtered list, and an empty list is a precondition (`choice` fails on
  it). That list is never empty while the global list is shorter than the
  grid (`Food.CandidatesNonEmpty`).
- A direction key does not wait for the next tick. `update_direction` runs
  right after every key event, so the no-reversal guard holds for one event
  at a time. Two presses within one tick can turn the snake around
  (`Keys.TwoPressesCanReverse`). No direction is ever pending between ticks.
- The apple check comes before the bite check. When the head reaches the
  apple, no reset happens in that tick, even if the head is also on the body.
  The body is therefore not guaranteed to be free of duplicate cells, and
  the model does not claim it is.
- The tail leaves before the bite check. Moving into the cell the tail has
  just left is not a bite (`TickRules.TailChaseIsNoBite`).

## Model

| member | source | states |
|---|---|---|
| `Grid.GridDimensions` | the_snake.py:8-11 | the grid has 640 / 20 = 32 columns and 480 / 20 = 24 rows, and the start cell (320, 240) of `START_SNAKE_POSITION` (line 32) is the screen centre and a grid cell |
| `Grid.AllCells` | the_snake.py:34-37 | `ALL_CELLS` has 32 * 24 cells (the list itself is a definition; `AllCellsAt`, `AllCellsAreTheGrid` and `AllCellsDistinct` state what it holds) |
| `Grid.NextHead` | the_snake.py:106-107 | the next head is on screen and is congruent to head + 20 * delta modulo 640 and 480 (Python's `%` never returns a negative value) |
| `Grid.NextHeadWraps` | the_snake.py:106-107 | for any on-screen head, the modular step equals the step that re-enters at the opposite edge |
| `Grid.EdgesWrapAround` | the_snake.py:106-107 | x = 620 moving RIGHT lands on x = 0, and x = 0 moving LEFT lands on x = 620; the same holds for rows at the bottom and top |
| `Grid.NextHeadInGrid` | the_snake.py:106-107 | a head on the grid (a cell of `ALL_CELLS`) moves to a cell of `ALL_CELLS` |
| `Grid.EveryDirectionIsListed` | the_snake.py:14-18 | each of the four directions is in `DIRECT`, so a direction parameter stands for any `choice(DIRECT)` |
| `Grid.AllCellsAt` | the_snake.py:34-37 | column i, row j is at index i * 24 + j of `ALL_CELLS` and is the cell (20i, 20j) |
| `Grid.AllCellsAreTheGrid` | the_snake.py:34-37 | `ALL_CELLS` holds exactly the on-screen cells whose coordinates are multiples of 20 |
| `Grid.AllCellsDistinct` | the_snake.py:34-37 | no cell is listed twice in `ALL_CELLS` |
| `Grid.BuildAllCells` | the_snake.py:34-37 | the nested `for` loop with `append` builds exactly `ALL_CELLS`, column by column |
| `Food.Candidates` | the_snake.py:77-78 | a cell is a candidate if and only if it is in `ALL_CELLS` and not in the excluded list |
| `Food.Pick` | the_snake.py:77 | the drawn cell is one of the candidates |
| `Food.EveryCandidateCanBePicked` | the_snake.py:77 | every candidate is the result of some draw |
| `Food.CandidatesNonEmpty` | the_snake.py:77-78 | the candidate list is non-empty while the excluded list is shorter than the grid, so `choice` does not fail |
| `Food.PickedCellIsFree` | the_snake.py:77-78 | the new apple is on the grid and not in the global start list |
| `SnakeRules.Moved` | the_snake.py:100-116 | definition, no contract: the snake's fields after `move` (grow, shift or reset); its properties are `MoveGrows`, `MoveShifts` and `MoveReachesLength` |
| `SnakeRules.StartMoved` | the_snake.py:112-114 | definition, no contract: the global list after `move`, which changes only in the shifting branch; `MoveShifts` states what it becomes |
| `SnakeRules.DirectionUpdated` | the_snake.py:127-131 | definition, no contract: the fields after `update_direction`; `UpdateDirectionIdempotent` states its properties |
| `SnakeRules.ResetState` | the_snake.py:137-143 | definition, no contract: the fields after `reset`; `BiteResets` states what a bite leaves |
| `SnakeRules.MoveGrows` | the_snake.py:108-109 | when the body is shorter than `length`, the new head is prepended and nothing is removed; the body grows by exactly one cell, and `last`, `length` and `direction` are unchanged |
| `SnakeRules.MoveShifts` | the_snake.py:110-114 | when the body size equals `length`, it is unchanged; the head is the next head, every cell moves one place back and `last` is the old tail; the global list keeps its size and now starts with the new head |
| `SnakeRules.MoveReachesLength` | the_snake.py:108-116 | a body at most one cell short of `length` has exactly `length` cells after a move, and the reset branch is not taken |
| `SnakeRules.UpdateDirectionIdempotent` | the_snake.py:127-131 | a pending direction becomes the direction and is cleared; otherwise nothing changes; applying it twice is the same as once; the body is untouched |
| `Keys.FilteredNextDirection` | the_snake.py:154-161 | definition, no contract: the arrow filter that sets `next_direction` unless the key is the reverse of the direction |
| `Keys.KeyPressed` | the_snake.py:154-161 | definition, no contract: one non-Escape key event: the arrow filter, then `update_direction` (line 164); the Escape quit is in `EventsHandled`. `AcceptedArrowTurns`, `RefusedArrowKeepsDirection` and `KeyPressNeverReverses` state its properties |
| `Keys.EventsHandled` | the_snake.py:147-164 | definition, no contract: the events of one tick in order, stopping at a quit; `EventsOnlyTurn` states its properties |
| `Keys.AcceptedArrowTurns` | the_snake.py:154-164 | an arrow that is not the reverse of the direction turns the snake at once and leaves nothing pending |
| `Keys.RefusedArrowKeepsDirection` | the_snake.py:154-164 | an arrow that is the reverse of the direction changes nothing when nothing was pending |
| `Keys.KeyPressNeverReverses` | the_snake.py:154-164 | no single key event makes the direction the reverse of its value just before the event |
| `Keys.EventsOnlyTurn` | the_snake.py:147-164 | the events of a tick change only the direction; body, `length` and `last` are kept, and no direction is left pending |
| `Keys.TwoPressesCanReverse` | the_snake.py:154-164 | moving RIGHT, the keys UP then LEFT within one tick leave the snake moving LEFT |
| `TickRules.InitialGame` | the_snake.py:93-98 | the game starts valid: a one-cell body at (320, 240) with `length` 1, and an apple that is not under the head |
| `TickRules.Advanced` | the_snake.py:179-184 | definition, no contract: move, then the apple check, then the bite check; `AdvanceKeepsValid`, `TickBodySize`, `AppleCheckedFirst` and `BiteResets` state its properties |
| `TickRules.Valid` | the_snake.py:93-98 | definition, no contract: the invariant between ticks, which holds at the start (`InitialGame`) and is kept by every tick (`AdvanceKeepsValid`) |
| `TickRules.EventsKeepValid` | the_snake.py:147-164 | handling a tick's events keeps the game invariant |
| `TickRules.AdvanceKeepsValid` | the_snake.py:179-184 | a tick keeps the invariant: `length >= 1`, `length - 1 <= len(positions) <= length`, all cells on the grid, the global list holds one body cell, nothing pending |
| `TickRules.TickBodySize` | the_snake.py:179-184 | after a tick, eating leaves the body at the old `length` with `length` one larger (the body catches up on the next move); a bite leaves one cell and `length` 1; otherwise the body size equals the unchanged `length` |
| `TickRules.GrowthCatchesUp` | the_snake.py:179-181 | right after eating, the body is one cell short of `length`, and the next move adds exactly that one cell |
| `TickRules.AppleCheckedFirst` | the_snake.py:180-182 | a head on the apple keeps the moved body with no reset, raises `length` by 1, and puts the apple on a grid cell outside the global list |
| `TickRules.BiteResets` | the_snake.py:183-184 | a head on the body behind it, and not on the apple, resets the snake: `length` 1, the body is the one-cell start list, nothing pending, `last` cleared, a direction from `DIRECT`, the apple unchanged |
| `TickRules.TailChaseIsNoBite` | the_snake.py:110-114 | in any valid game with a full-length body, a head that moves onto the old tail cell (which is not the apple and appears nowhere else in the body) is not a bite: the tick leaves the snake exactly as `move` left it |
| `TickRules.BiteScenario` | the_snake.py:179-184 | a five-cell snake turning down into its own body is reset to one cell in that tick |
| `TickRules.AppleMayLandOnBody` | the_snake.py:77-78 | in a valid game, a body cell other than the one in the global list can be a candidate for the apple |
| `Objects.StartPositionList.constructor` | the_snake.py:32 | the global list starts as [(320, 240)] |
| `Objects.Snake.constructor` | the_snake.py:93-98 | `length` 1, the body [(320, 240)], the drawn direction, nothing pending, no `last` |
| `Objects.Snake.HeadPosition` | the_snake.py:133-135 | definition, no contract: the first cell of the body |
| `Objects.Snake.Move` | the_snake.py:100-116 | the new fields and the new global list are `Moved` and `StartMoved` of the old ones |
| `Objects.Snake.UpdateDirection` | the_snake.py:127-131 | the new fields are `DirectionUpdated` of the old ones; the argument is ignored |
| `Objects.Snake.Reset` | the_snake.py:137-143 | `length` 1, the body is the global list's contents, the drawn direction, nothing pending, `last` cleared |
| `Objects.Apple.constructor` | the_snake.py:67-73 | the apple is drawn at once onto a grid cell outside the global list |
| `Objects.Apple.RandomizePosition` | the_snake.py:75-78 | the apple is the drawn candidate: a grid cell outside the global list |
| `Game.HandleKeys` | the_snake.py:147-164 | the snake after the loop over events, and whether it quit, are `EventsHandled` of the old snake |
| `Game.Tick` | the_snake.py:179-184 | move, then the apple check, then the bite check, together give `Advanced` of the old game state |
| `Game.Run` | the_snake.py:173-184 | any run of ticks from a valid state ends in a valid state |
| `Game.Play` | the_snake.py:167-184 | the objects created and updated by `main` end in the state `Run` gives from the initial game, and that state is valid |

## Left out

- Window, clock and drawing: `set_mode`, `Clock.tick`, `draw_object`, `Apple.draw`, `Snake.draw`, `screen.fill` and `display.update` (the_snake.py:41-43, 57-61, 80-82, 118-125, 144, 174, 176-178). They render the game and pace it; they do not change the game state.
- Event polling, `pygame.quit` and `sys.exit` (the_snake.py:149-152, 162-163). Events are a list given to each tick. Quitting is a `quit` result that stops the run.
- `random.choice` (the_snake.py:77, 96, 141). Each draw is a parameter: a `Direction`, or an index reduced modulo the candidate count.
- Objects.Snake.Reset: copies the contents of `START_SNAKE_POSITION`, but the code makes `positions` the same list object (the_snake.py:140). Modelling the object identity of Python lists is out of scope, so the model does not show what follows from that aliasing after a bite:
  - A growing move (the_snake.py:109) also inserts into the global list, so the global list becomes the whole body, and `randomize_position` then avoids the whole body.
  - The next shifting move (the_snake.py:111-114) inserts the new head twice and pops twice from the one list, so the body becomes [h, h].
  - The bite check (the_snake.py:183) then resets the snake to that two-cell list with `length` 1.
  - From then on `len(positions) > length`, so every move takes the reset branch (the_snake.py:116) and the snake no longer moves. A bite followed by one apple is enough to reach this state.
  - `TickRules.Valid` (one cell in the global list, at most `length` cells in the body) holds only in the copying model.
- The `while True` loop of `main` (the_snake.py:173) runs a finite list of ticks; an infinite run is the limit of these.
- Colours and the constructor branching on `body_color` in `GameObject`, `Apple` and `Snake` (the_snake.py:49-52, 67-72, 88-92). They are cosmetic. The `position` attribute that `GameObject.__init__` gives the snake is never read.
