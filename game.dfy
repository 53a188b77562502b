/**
 * The game objects and one tick of the main loop. The snake and the apple
 * are objects whose fields are updated in place; the rules they follow are
 * the functions of module Rules.
 */
module Game {
  import opened Wrappers
  import opened Grid
  import opened Rules

  /** What a step of the game leads to; GameOver and QuitRequested replace process exit. */
  datatype Outcome = Continue | GameOver | QuitRequested

  /** The start cell (GRID_SIZE * 5, GRID_SIZE * 5). */
  const START: Cell := (GRID_SIZE * 5, GRID_SIZE * 5)

  class Snake {
    var positions: seq<Cell>          // head first
    var direction: Direction
    var growing: bool                 // the next move keeps the tail
    var nextDirection: Option<Direction>
    var length: int                   // incremented on every growth, never read by the game

    /**
     * What every operation keeps: a head exists, the body is on the grid,
     * and the queued direction is never the reversal of the current one.
     */
    ghost predicate Valid()
      reads this
    {
      |positions| > 0 && AllOnGrid(positions) && NotReversing(direction, nextDirection)
    }

    /** The body plus the one pending growth add up to the counted length. */
    ghost predicate LengthConsistent()
      reads this
    {
      |positions| + (if growing then 1 else 0) == length
    }

    /** A new snake on the start cell; the starting direction is the random pick. */
    constructor (initial: Direction)
      ensures Valid() && LengthConsistent()
      ensures positions == [START] && direction == initial
      ensures !growing && nextDirection == None && length == 1
    {
      positions := [START];
      direction := initial;
      growing := false;
      nextDirection := None;
      length := 1;
    }

    /**
     * Advance one cell. A new head on any cell but the tail ends the game
     * and changes nothing; otherwise the head is prepended and the tail is
     * dropped, or kept once if the snake is growing.
     */
    method Move() returns (outcome: Outcome)
      requires Valid()
      modifies this
      ensures Valid()
      ensures outcome != QuitRequested
      ensures var r := MoveStep(old(positions), old(direction), old(growing));
        (outcome == GameOver <==> r.Collided?) && (r.Moved? ==> positions == r.positions)
      ensures var head := NewHead(old(positions)[0], old(direction));
        outcome == GameOver <==> head in old(positions)[..|old(positions)| - 1]
      ensures outcome == GameOver ==> positions == old(positions) && growing == old(growing)
      ensures var head := NewHead(old(positions)[0], old(direction));
        outcome == Continue && !old(growing) ==>
          positions == [head] + old(positions)[..|old(positions)| - 1] && |positions| == |old(positions)|
      ensures var head := NewHead(old(positions)[0], old(direction));
        outcome == Continue && old(growing) ==>
          positions == [head] + old(positions) && |positions| == |old(positions)| + 1
      ensures outcome == Continue ==> !growing
      ensures direction == old(direction) && nextDirection == old(nextDirection) && length == old(length)
      ensures old(LengthConsistent()) ==> LengthConsistent()
    {
      MoveStepKeepsOnGrid(positions, direction, growing);
      var (x, y) := positions[0];
      var (dx, dy) := direction.Delta();
      var newHead := ((x + dx * GRID_SIZE) % SCREEN_WIDTH, (y + dy * GRID_SIZE) % SCREEN_HEIGHT);

      if newHead in positions[..|positions| - 1] {
        return GameOver;
      }

      positions := [newHead] + positions;
      if !growing {
        positions := positions[..|positions| - 1];
      } else {
        growing := false;
      }
      outcome := Continue;
    }

    /** Arrange for the next move to keep the tail, and count one more segment. */
    method Grow()
      requires Valid()
      modifies this
      ensures Valid()
      ensures growing && length == old(length) + 1
      ensures positions == old(positions) && direction == old(direction)
      ensures nextDirection == old(nextDirection)
      ensures old(LengthConsistent()) && !old(growing) ==> LengthConsistent()
    {
      growing := true;
      length := length + 1;
    }

    /** Apply the queued direction, if any, and empty the queue. */
    method UpdateDirection()
      requires Valid()
      modifies this
      ensures Valid()
      ensures direction == Applied(old(direction), old(nextDirection)) && nextDirection == None
      ensures old(nextDirection).None? ==> direction == old(direction)
      ensures direction != old(direction).Opposite()
      ensures positions == old(positions) && growing == old(growing) && length == old(length)
    {
      if nextDirection.Some? {
        direction := nextDirection.value;
        nextDirection := None;
      }
    }

    /** Back to the start cell facing right; length keeps its value. */
    method Reset()
      modifies this
      ensures Valid()
      ensures positions == [START] && direction == Right
      ensures !growing && nextDirection == None
      ensures length == old(length)
      ensures LengthConsistent() <==> length == 1
    {
      positions := [START];
      direction := Right;
      growing := false;
      nextDirection := None;
    }

    /** The head cell, or None for an empty body. */
    function HeadPosition(): (r: Option<Cell>)
      reads this
      ensures r.Some? <==> |positions| > 0
      ensures r.Some? ==> r.value == positions[0]
      ensures Valid() ==> r.Some? && OnGrid(r.value)
    {
      if |positions| > 0 then Some(positions[0]) else None
    }
  }

  class Apple {
    var position: Cell

    /** An apple on the grid cell of the random column and row picks. */
    constructor (col: int, row: int)
      requires 0 <= col < GRID_WIDTH && 0 <= row < GRID_HEIGHT
      ensures position == CellAt(col, row) && OnGrid(position)
    {
      position := (col * GRID_SIZE, row * GRID_SIZE);
    }

    /**
     * Move to the grid cell of the random picks. Nothing keeps the new cell
     * off the snake.
     */
    method RandomizePosition(col: int, row: int)
      requires 0 <= col < GRID_WIDTH && 0 <= row < GRID_HEIGHT
      modifies this
      ensures position == CellAt(col, row) && OnGrid(position)
    {
      position := (col * GRID_SIZE, row * GRID_SIZE);
    }
  }

  /**
   * Process the events of one tick: a quit event stops at once, each arrow
   * key queues its direction unless it reverses the current one. Only the
   * queue changes.
   */
  method HandleKeys(snake: Snake, events: seq<Event>) returns (quit: bool)
    requires snake.Valid()
    modifies snake
    ensures snake.Valid()
    ensures var r := AfterEvents(events, old(snake.direction), old(snake.nextDirection));
      quit == r.quit && snake.nextDirection == r.next
    ensures quit <==> QuitEvent in events
    ensures snake.positions == old(snake.positions) && snake.direction == old(snake.direction)
    ensures snake.growing == old(snake.growing) && snake.length == old(snake.length)
  {
    var i := 0;
    while i < |events|
      invariant 0 <= i <= |events|
      invariant snake.Valid()
      invariant AfterEvents(events[i..], snake.direction, snake.nextDirection)
        == AfterEvents(events, old(snake.direction), old(snake.nextDirection))
      invariant snake.positions == old(snake.positions) && snake.direction == old(snake.direction)
      invariant snake.growing == old(snake.growing) && snake.length == old(snake.length)
    {
      assert events[i..][1..] == events[i + 1..];
      match events[i] {
        case QuitEvent =>
          return true;
        case KeyDown(key) =>
          ghost var expected := OnKey(key, snake.direction, snake.nextDirection);
          if key == ArrowUp && snake.direction != Down {
            snake.nextDirection := Some(Up);
          } else if key == ArrowDown && snake.direction != Up {
            snake.nextDirection := Some(Down);
          } else if key == ArrowLeft && snake.direction != Right {
            snake.nextDirection := Some(Left);
          } else if key == ArrowRight && snake.direction != Left {
            snake.nextDirection := Some(Right);
          }
          assert snake.nextDirection == expected;
      case OtherEvent =>
      }
      i := i + 1;
    }
    quit := false;
  }

  /**
   * One pass of the main loop without drawing and waiting: handle the keys,
   * apply the queued direction, move, and eat the apple if the head is on
   * it. col and row are the random picks for a relocated apple.
   */
  method Tick(snake: Snake, apple: Apple, events: seq<Event>, col: int, row: int) returns (outcome: Outcome)
    requires snake.Valid()
    requires 0 <= col < GRID_WIDTH && 0 <= row < GRID_HEIGHT
    modifies snake, apple
    ensures snake.Valid()
    ensures outcome == QuitRequested <==> QuitEvent in events
    ensures snake.direction != old(snake.direction).Opposite()
    ensures outcome == QuitRequested ==>
      (snake.direction == old(snake.direction) &&
       snake.nextDirection == AfterEvents(events, old(snake.direction), old(snake.nextDirection)).next)
    ensures outcome != Continue ==> snake.positions == old(snake.positions) && snake.growing == old(snake.growing)
    ensures outcome != Continue ==> apple.position == old(apple.position) && snake.length == old(snake.length)
    ensures var d := Applied(old(snake.direction), AfterEvents(events, old(snake.direction), old(snake.nextDirection)).next);
      outcome != QuitRequested ==>
        (snake.direction == d && snake.nextDirection == None &&
         (outcome == GameOver <==> MoveStep(old(snake.positions), d, old(snake.growing)).Collided?))
    ensures var d := Applied(old(snake.direction), AfterEvents(events, old(snake.direction), old(snake.nextDirection)).next);
      outcome == Continue ==> snake.positions == MoveStep(old(snake.positions), d, old(snake.growing)).positions
    ensures outcome == Continue ==>
      var ate := snake.positions[0] == old(apple.position);
      snake.growing == ate &&
      snake.length == old(snake.length) + (if ate then 1 else 0) &&
      apple.position == (if ate then CellAt(col, row) else old(apple.position))
    ensures old(snake.LengthConsistent()) ==> snake.LengthConsistent()
  {
    var quit := HandleKeys(snake, events);
    if quit {
      return QuitRequested;
    }
    snake.UpdateDirection();
    outcome := snake.Move();
    if outcome == GameOver {
      return;
    }
    if snake.positions[0] == apple.position {
      snake.Grow();
      apple.RandomizePosition(col, row);
    }
  }

  /**
   * Example: the start cell is itself a possible apple cell, so placement
   * can land on the snake.
   */
  lemma AppleMayCoverStart()
    ensures CellAt(5, 5) == START
  {
  }

  /**
   * From the start, facing right, with the apple one cell ahead: the first
   * tick eats it, the second lays down the extra segment. A left arrow
   * while facing right is ignored.
   */
  method EatOnFirstTick() {
    var snake := new Snake(Right);
    var apple := new Apple(6, 5);
    var outcome := Tick(snake, apple, [KeyDown(ArrowLeft)], 0, 0);
    assert outcome == Continue && snake.direction == Right;
    assert snake.positions == [(120, 100)];
    assert snake.growing && snake.length == 2 && apple.position == (0, 0);
    outcome := Tick(snake, apple, [OtherEvent], 0, 0);
    assert outcome == Continue;
    assert snake.positions == [(140, 100), (120, 100)] && !snake.growing;
    outcome := Tick(snake, apple, [KeyDown(ArrowUp), QuitEvent], 0, 0);
    assert outcome == QuitRequested && snake.direction == Right && snake.nextDirection == Some(Up);
  }
}
