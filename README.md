# Snake: per-tick game state

A model of the game logic of `the_snake.py`, a small pygame Snake game. The
snake moves on a 640×480-pixel screen divided into 20-pixel cells (32×24
cells). Cells are addressed by the pixel coordinates of their top-left corner.
Each tick the game handles the pending key events, applies the queued
direction, moves the snake one cell, and lets it eat the apple when the head
lands on it.

Modules:

- `Wrappers` (wrappers.dfy): the `Option` type, standing for Python's `None`.
- `Grid` (grid.dfy): the screen and cell constants and the four directions.
  It also holds the new-head arithmetic with its toroidal wrap-around, and the
  cell that a pair of random grid indices denotes.
- `Rules` (rules.dfy): the rules as functions on values, with the lemmas
  about them:
  - one move of the body;
  - the reversal guard of the arrow keys;
  - the processing of the events of one tick.
- `Game` (game.dfy): the objects the game updates in place.
  - `Snake` has the fields `positions`, `direction`, `growing`,
    `nextDirection` and `length`.
  - `Apple` has the field `position`.
  - `HandleKeys` is the key loop, and `Tick` is one pass of the main loop.
  - Each method states the whole new state. The state ties to the functions
    of `Rules`, which carry the proofs.

Design decisions:

- The source ends the game with `SystemExit`, both on a collision and on a
  quit event. The model returns an `Outcome` instead: `Continue`, `GameOver`
  or `QuitRequested`.
- The random picks are parameters:
  - the snake's starting direction, taken from `choice`;
  - the apple's column and row, taken from `randint`, in `0..31` and `0..23`.
- The pygame event queue is a parameter too: the sequence of events of one
  tick.
- Python's `%` takes the sign of the divisor. Dafny's `%` is Euclidean. Both
  give the same result for the positive moduli 640 and 480, so `NewHead`
  uses Dafny's `%` directly.

The code differs from a textbook description of Snake in several ways. The
model follows the code:

- A self-collision ends the game. Nothing in the code calls `reset`.
- `reset` does not restore `length`.
- The apple is placed on any grid cell. The placement can land on the snake:
  `SnakeCellsArePickable` shows that every cell of the body is a possible
  pick; `AppleMayCoverStart` is the example of the start cell.
- Right after eating, `length` is one more than the number of body cells. The
  extra segment appears on the next move. So the invariant the code keeps is
  `|positions| + (growing ? 1 : 0) == length` (`Snake.LengthConsistent`), not
  `|positions| == length`. Every operation keeps it except two:
  - `Reset` keeps it only when `length == 1`;
  - `Grow` breaks it on a snake that is already growing. `Tick` never does
    this, because `Move` clears the flag first.

## Model

| member | source | states |
|---|---|---|
| Grid.Direction.Opposite | the_snake.py:12-15 | the opposite of a direction is a different direction whose vector is the negated one |
| Grid.NewHead | the_snake.py:73-75 | the new head lies on the screen and is congruent to head + direction·GRID_SIZE modulo 640 (x) and 480 (y) |
| Grid.NewHeadStepsOrWraps | the_snake.py:75 | from a cell on the screen, the new head is the neighbouring cell; past an edge, it is the cell at the opposite edge |
| Grid.WrapAtEdges | the_snake.py:75 | right from x=620 gives x=0; up from y=0 gives y=460; left from x=0 gives 620; down from y=460 gives 0 |
| Grid.NewHeadOnGrid | the_snake.py:6-9 | a grid-aligned head on the screen stays grid-aligned and on the screen after a move, because 640 and 480 are multiples of 20 |
| Grid.CellAt | the_snake.py:119 | the cell of random picks (col, row) in range is on the grid, and dividing it by GRID_SIZE gives back (col, row) |
| Grid.CellAtCoversGrid | the_snake.py:119 | every grid-aligned cell on the screen is a possible apple placement |
| Rules.AllButTail | the_snake.py:77 | `positions[:-1]` is the body without its last cell, element by element |
| Rules.MoveStep | the_snake.py:72-85 | a move collides iff the new head is in `positions[:-1]`. Otherwise the new head comes first, the old cells follow in order, and the length grows by exactly 1 when growing and stays the same when not |
| Rules.MoveStepKeepsOnGrid | the_snake.py:75-83 | if every body cell is grid-aligned and on the screen before a move, the same holds after it |
| Rules.EnteringTailIsNoCollision | the_snake.py:77-79 | in a body without repeated cells, a head landing on the current tail is not a collision |
| Rules.MoveStepKeepsDistinct | the_snake.py:77-83 | a move without growth keeps the body free of repeated cells |
| Rules.GrowingIntoTailOverlaps | the_snake.py:77-85 | counterexample: a growing snake whose head enters its tail cell is not stopped, and its body then holds that cell twice |
| Rules.MoveStepIntended | the_snake.py:77-85 | corrected collision test: the tail counts as occupied while growing. Without growth it agrees with the move as written; whenever it moves, the moved body is exactly the as-written one, so it differs only by colliding in more cases |
| Rules.MoveStepIntendedKeepsDistinct | the_snake.py:77-85 | the corrected move never puts two segments on one cell |
| Rules.OnKey | the_snake.py:128-135 | an arrow key queues its direction unless it is the opposite of the current direction. A refused arrow or any other key leaves the queue unchanged |
| Rules.AfterEvents | the_snake.py:122-135 | over a tick's events, the loop quits iff a quit event is among them. A queue that was not a reversal never becomes one, however often the opposite key is pressed. A changed queue holds the direction of one of the arrow keys pressed |
| Rules.BeforeQuit | the_snake.py:123-126 | the events handled in a tick are the prefix before the first quit event, which holds no quit |
| Rules.QuitCutsEvents | the_snake.py:123-126 | events after the first quit never affect the queued direction |
| Rules.NoAcceptedKeeps | the_snake.py:127-135 | without an arrow key that the guard lets through, the queued direction stays as it was |
| Rules.LastAcceptedWins | the_snake.py:123-135 | before any quit, the last arrow key the guard lets through decides the queued direction |
| Rules.SnakeCellsArePickable | the_snake.py:119 | every cell of a body on the grid is some pair of in-range picks, so the apple can be placed on the snake |
| Rules.Applied | the_snake.py:91-94 | the queued direction, if any, becomes the direction; with nothing queued the direction stays |
| Rules.TickNeverReverses | the_snake.py:146-147 | key handling followed by update_direction never turns the snake straight back |
| Game.Snake.constructor | the_snake.py:58-64 | the snake starts on (100,100) with the picked direction, not growing, nothing queued, length 1 |
| Game.Snake.Move | the_snake.py:72-85 | GameOver iff the new head is in `positions[:-1]`, and then nothing changes. Otherwise `positions` becomes `[head] + old[..n-1]` (same length) or `[head] + old` (one longer) when growing, and `growing` ends false. Direction, queue and length are untouched |
| Game.Snake.Grow | the_snake.py:87-89 | sets `growing`, raises `length` by exactly 1, and leaves positions, direction and queue unchanged |
| Game.Snake.UpdateDirection | the_snake.py:91-94 | a queued direction becomes `direction` and the queue is cleared. With nothing queued, both stay. The snake never reverses |
| Game.Snake.Reset | the_snake.py:96-101 | positions `[(100,100)]`, direction RIGHT, not growing, nothing queued, `length` untouched |
| Game.Snake.HeadPosition | the_snake.py:103-104 | `positions[0]` when the body is non-empty, else None |
| Game.Apple.constructor | the_snake.py:108-110 | the apple starts on the grid cell of the random picks |
| Game.Apple.RandomizePosition | the_snake.py:118-119 | the apple moves to the grid cell of the random picks, with no condition about the snake |
| Game.AppleMayCoverStart | the_snake.py:119 | example: the snake's start cell is the apple cell of the picks (5, 5) |
| Game.HandleKeys | the_snake.py:122-135 | the events are processed in order up to a quit event. Only the queued direction changes, as `AfterEvents` says |
| Game.Tick | the_snake.py:145-152 | one loop pass: a quit stops before moving; otherwise the direction is applied and the snake moves. On a collision the body and apple stay. When the new head is on the apple, the snake grows by 1 and the apple moves to the picked cell. The direction never reverses, and the length invariant is kept |

## Findings

| source | as written | input that shows it | evidently intended | confidence | as-written member | corrected member |
|---|---|---|---|---|---|---|
| the_snake.py:77-85 | the collision test always leaves out the tail (`positions[:-1]`), even when `growing` keeps the tail | positions `[(100,100),(120,100),(120,120),(100,120)]`, direction DOWN, growing: no game over, and the body becomes `[(100,120),(100,100),(120,100),(120,120),(100,120)]` with the head on the tail | leave out the tail only when it is vacated, i.e. test against all of `positions` while growing | medium; not executed | Rules.GrowingIntoTailOverlaps | Rules.MoveStepIntendedKeepsDistinct |

This state arises in play. A snake of four cells that eats on one tick and
turns into its own tail on the next reaches it. The class `Game.Snake` keeps
the rule as written, because it models the source. The corrected rule is
`Rules.MoveStepIntended`. It agrees with the written rule whenever the snake
is not growing, and it keeps the body free of repeated cells.

## Left out

- Window setup, captions, colours, every `draw` method, `screen.fill`, `display.update`, `clock.tick` and `SPEED`: rendering and timing through pygame.
- Event polling (`pygame.event.get`) and `pygame.quit()`: the events of a tick are a parameter, and quitting or game over is a returned `Outcome` rather than a process exit.
- The distribution of `choice` and `randint`: their results are parameters constrained to the four directions and to the index ranges `0..GRID_WIDTH-1`, `0..GRID_HEIGHT-1`.
- The endless `while True` loop of `main` and the creation of the objects in it: `Tick` models one pass of its body.
- `GameObject`, its `position` list, `body_color` and its empty `grow`: they carry no game behaviour.
- Game.Snake.Move: a body emptied from outside would make the source raise `IndexError` at `positions[0]`; the model keeps a non-empty body as part of `Snake.Valid` instead, which every operation preserves.
