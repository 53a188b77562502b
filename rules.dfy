/**
 * The snake's per-tick rules as functions on values: one move of the body,
 * the reversal guard of the arrow keys, and the facts proved about them.
 * The class in module Game updates its fields exactly as these say.
 */
module Rules {
  import opened Wrappers
  import opened Grid

  /** Every cell of the body is on the grid. */
  predicate AllOnGrid(s: seq<Cell>) {
    forall i :: 0 <= i < |s| ==> OnGrid(s[i])
  }

  /** No cell occurs twice in the body. */
  predicate Distinct(s: seq<Cell>) {
    forall i, j :: 0 <= i < j < |s| ==> s[i] != s[j]
  }

  /** Python's positions[:-1]: every cell except the last (the tail). */
  function AllButTail(s: seq<Cell>): (r: seq<Cell>)
    requires |s| > 0
    ensures |r| == |s| - 1
    ensures forall i :: 0 <= i < |r| ==> r[i] == s[i]
  {
    s[..|s| - 1]
  }

  datatype MoveResult = Collided | Moved(positions: seq<Cell>)

  /**
   * One move of the body as the game writes it: the new head must not be
   * on any cell but the tail; it is put in front, and the tail is dropped
   * unless the snake is growing.
   */
  function MoveStep(positions: seq<Cell>, direction: Direction, growing: bool): (r: MoveResult)
    requires |positions| > 0
    ensures r.Collided? <==> NewHead(positions[0], direction) in AllButTail(positions)
    ensures r.Moved? ==> |r.positions| == |positions| + (if growing then 1 else 0)
    ensures r.Moved? ==> r.positions[0] == NewHead(positions[0], direction)
    ensures r.Moved? ==> forall i :: 1 <= i < |r.positions| ==> r.positions[i] == positions[i - 1]
  {
    var head := NewHead(positions[0], direction);
    if head in AllButTail(positions) then Collided
    else if growing then Moved([head] + positions)
    else Moved([head] + AllButTail(positions))
  }

  /** A move keeps every cell of the body on the grid. */
  lemma MoveStepKeepsOnGrid(positions: seq<Cell>, direction: Direction, growing: bool)
    requires |positions| > 0 && AllOnGrid(positions)
    ensures var r := MoveStep(positions, direction, growing);
      r.Moved? ==> AllOnGrid(r.positions)
  {
    var r := MoveStep(positions, direction, growing);
    if r.Moved? {
      NewHeadOnGrid(positions[0], direction);
      forall i | 0 <= i < |r.positions| ensures OnGrid(r.positions[i]) {
        if i > 0 {
          assert r.positions[i] == positions[i - 1];
        }
      }
    }
  }

  /**
   * A head that lands on the current tail is not a collision, provided the
   * tail occurs only once in the body.
   */
  lemma EnteringTailIsNoCollision(positions: seq<Cell>, direction: Direction, growing: bool)
    requires |positions| > 0 && Distinct(positions)
    requires NewHead(positions[0], direction) == positions[|positions| - 1]
    ensures MoveStep(positions, direction, growing).Moved?
  {
    forall i | 0 <= i < |positions| - 1
      ensures AllButTail(positions)[i] != positions[|positions| - 1]
    {
      assert AllButTail(positions)[i] == positions[i];
    }
  }

  /**
   * A move that does not grow keeps the body free of repeated cells: the
   * head is new and the tail it might have landed on is dropped.
   */
  lemma MoveStepKeepsDistinct(positions: seq<Cell>, direction: Direction)
    requires |positions| > 0 && Distinct(positions)
    ensures var r := MoveStep(positions, direction, false);
      r.Moved? ==> Distinct(r.positions)
  {
    var r := MoveStep(positions, direction, false);
    if r.Moved? {
      var head := NewHead(positions[0], direction);
      forall i, j | 0 <= i < j < |r.positions| ensures r.positions[i] != r.positions[j] {
        if i == 0 {
          assert r.positions[j] == AllButTail(positions)[j - 1];
        } else {
          assert r.positions[i] == positions[i - 1] && r.positions[j] == positions[j - 1];
        }
      }
    }
  }

  /**
   * The collision test leaves the tail out even when a growing snake keeps
   * its tail: a growing snake whose head enters its own tail cell is not
   * stopped, and its body then holds that cell twice.
   */
  lemma GrowingIntoTailOverlaps()
    ensures var before := [(100, 100), (120, 100), (120, 120), (100, 120)];
      var r := MoveStep(before, Down, true);
      Distinct(before) && r.Moved? && !Distinct(r.positions)
  {
    var before := [(100, 100), (120, 100), (120, 120), (100, 120)];
    var r := MoveStep(before, Down, true);
    assert NewHead(before[0], Down) == (100, 120);
    assert (100, 120) !in AllButTail(before);
    assert r.positions[0] == r.positions[4];
  }

  /**
   * The move as evidently intended: the tail counts as occupied when the
   * snake is growing, because it is then not vacated.
   */
  function MoveStepIntended(positions: seq<Cell>, direction: Direction, growing: bool): (r: MoveResult)
    requires |positions| > 0
    ensures r.Collided? <==>
      NewHead(positions[0], direction) in (if growing then positions else AllButTail(positions))
    ensures !growing ==> r == MoveStep(positions, direction, growing)
    ensures r.Moved? ==> r == MoveStep(positions, direction, growing)
    ensures r.Moved? ==> |r.positions| == |positions| + (if growing then 1 else 0)
  {
    var head := NewHead(positions[0], direction);
    if growing then
      if head in positions then Collided else Moved([head] + positions)
    else MoveStep(positions, direction, growing)
  }

  /** The intended move never puts two body segments on one cell. */
  lemma MoveStepIntendedKeepsDistinct(positions: seq<Cell>, direction: Direction, growing: bool)
    requires |positions| > 0 && Distinct(positions)
    ensures var r := MoveStepIntended(positions, direction, growing);
      r.Moved? ==> Distinct(r.positions)
  {
    if !growing {
      MoveStepKeepsDistinct(positions, direction);
    } else {
      var r := MoveStepIntended(positions, direction, growing);
      if r.Moved? {
        forall i, j | 0 <= i < j < |r.positions| ensures r.positions[i] != r.positions[j] {
          assert r.positions[j] == positions[j - 1];
          if i > 0 {
            assert r.positions[i] == positions[i - 1];
          }
        }
      }
    }
  }

  // ---------------------------------------------------------------------
  // Arrow keys

  datatype Key = ArrowUp | ArrowDown | ArrowLeft | ArrowRight | OtherKey
  datatype Event = QuitEvent | KeyDown(key: Key) | OtherEvent

  /** The direction an arrow key asks for; None for any other key. */
  function Requested(key: Key): Option<Direction> {
    match key
    case ArrowUp => Some(Up)
    case ArrowDown => Some(Down)
    case ArrowLeft => Some(Left)
    case ArrowRight => Some(Right)
    case OtherKey => None
  }

  /** A queued direction never undoes the current one. */
  predicate NotReversing(direction: Direction, next: Option<Direction>) {
    next.Some? ==> next.value != direction.Opposite()
  }

  /**
   * The queued direction after one key press: an arrow key queues its
   * direction unless that is the opposite of the current direction; every
   * other key, and a refused arrow, leaves the queue as it was.
   */
  function OnKey(key: Key, direction: Direction, next: Option<Direction>): (r: Option<Direction>)
    ensures Requested(key).Some? && Requested(key).value != direction.Opposite() ==> r == Requested(key)
    ensures Requested(key).None? || Requested(key).value == direction.Opposite() ==> r == next
  {
    match key
    case ArrowUp => if direction != Down then Some(Up) else next
    case ArrowDown => if direction != Up then Some(Down) else next
    case ArrowLeft => if direction != Right then Some(Left) else next
    case ArrowRight => if direction != Left then Some(Right) else next
    case OtherKey => next
  }

  datatype KeysResult = KeysResult(quit: bool, next: Option<Direction>)

  /**
   * The events of one tick processed in order: a quit event stops the
   * processing, key presses update the queued direction, the current
   * direction stays as it is throughout.
   */
  function AfterEvents(events: seq<Event>, direction: Direction, next: Option<Direction>): (r: KeysResult)
    ensures r.quit <==> QuitEvent in events
    ensures NotReversing(direction, next) ==> NotReversing(direction, r.next)
    ensures r.next != next ==>
      (exists i :: 0 <= i < |events| && events[i].KeyDown? && Requested(events[i].key) == r.next)
    decreases |events|
  {
    if events == [] then KeysResult(false, next)
    else match events[0]
      case QuitEvent => KeysResult(true, next)
      case KeyDown(key) =>
        var r := AfterEvents(events[1..], direction, OnKey(key, direction, next));
        assert r.next != OnKey(key, direction, next) ==>
          (exists i :: 0 <= i < |events[1..]| && events[1..][i].KeyDown? && Requested(events[1..][i].key) == r.next);
        r
      case OtherEvent =>
        var r := AfterEvents(events[1..], direction, next);
        assert r.next != next ==>
          (exists i :: 0 <= i < |events[1..]| && events[1..][i].KeyDown? && Requested(events[1..][i].key) == r.next);
        r
  }

  /** An arrow key that the guard lets through for the current direction. */
  predicate Accepted(e: Event, direction: Direction) {
    e.KeyDown? && Requested(e.key).Some? && Requested(e.key).value != direction.Opposite()
  }

  /** The events of a tick up to, not including, the first quit event. */
  function BeforeQuit(events: seq<Event>): (r: seq<Event>)
    ensures QuitEvent !in r
    ensures |r| <= |events| && r == events[..|r|]
    ensures |r| < |events| ==> events[|r|] == QuitEvent
  {
    if events == [] || events[0] == QuitEvent then []
    else [events[0]] + BeforeQuit(events[1..])
  }

  /** Events after the first quit are never looked at. */
  lemma {:induction false} QuitCutsEvents(events: seq<Event>, direction: Direction, next: Option<Direction>)
    ensures AfterEvents(events, direction, next).next == AfterEvents(BeforeQuit(events), direction, next).next
    decreases |events|
  {
    if events != [] && events[0] != QuitEvent {
      var rest := BeforeQuit(events[1..]);
      assert ([events[0]] + rest)[1..] == rest;
      var n := if events[0].KeyDown? then OnKey(events[0].key, direction, next) else next;
      QuitCutsEvents(events[1..], direction, n);
    }
  }

  /** Without an accepted arrow key the queued direction stays as it was. */
  lemma {:induction false} NoAcceptedKeeps(events: seq<Event>, direction: Direction, next: Option<Direction>)
    requires forall j :: 0 <= j < |events| ==> !Accepted(events[j], direction)
    ensures AfterEvents(events, direction, next).next == next
    decreases |events|
  {
    if events != [] && events[0] != QuitEvent {
      if events[0].KeyDown? {
        assert !Accepted(events[0], direction);
      }
      NoAcceptedKeeps(events[1..], direction, next);
    }
  }

  /**
   * Before any quit, the last accepted arrow key decides the queue: each
   * accepted key overwrites what the earlier ones queued.
   */
  lemma {:induction false} LastAcceptedWins(events: seq<Event>, direction: Direction, next: Option<Direction>, i: nat)
    requires QuitEvent !in events
    requires i < |events| && Accepted(events[i], direction)
    requires forall j :: i < j < |events| ==> !Accepted(events[j], direction)
    ensures AfterEvents(events, direction, next).next == Requested(events[i].key)
    decreases |events|
  {
    var n := if events[0].KeyDown? then OnKey(events[0].key, direction, next) else next;
    assert QuitEvent !in events[1..];
    if i == 0 {
      assert n == Requested(events[0].key);
      NoAcceptedKeeps(events[1..], direction, n);
    } else {
      LastAcceptedWins(events[1..], direction, n, i - 1);
    }
  }

  /** The direction after update_direction: the queued one if any. */
  function Applied(direction: Direction, next: Option<Direction>): (r: Direction)
    ensures next.Some? ==> r == next.value
    ensures next.None? ==> r == direction
  {
    if next.Some? then next.value else direction
  }

  /** Some pair of random picks in range places the apple on c. */
  predicate Pickable(c: Cell) {
    exists col, row :: 0 <= col < GRID_WIDTH && 0 <= row < GRID_HEIGHT && CellAt(col, row) == c
  }

  /** Every cell of a body on the grid is a possible apple placement. */
  lemma SnakeCellsArePickable(positions: seq<Cell>)
    requires AllOnGrid(positions)
    ensures forall i :: 0 <= i < |positions| ==> Pickable(positions[i])
  {
    forall i | 0 <= i < |positions| ensures Pickable(positions[i]) {
      CellAtCoversGrid(positions[i]);
    }
  }

  /** Over a whole tick the snake never turns straight back. */
  lemma TickNeverReverses(events: seq<Event>, direction: Direction, next: Option<Direction>)
    requires NotReversing(direction, next)
    ensures Applied(direction, AfterEvents(events, direction, next).next) != direction.Opposite()
  {
  }
}
