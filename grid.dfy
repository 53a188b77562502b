/**
 * The playing field: screen and cell sizes, the four directions, and the
 * arithmetic that advances a head one cell and wraps it around the edges.
 */
module Grid {
  const SCREEN_WIDTH: int := 640
  const SCREEN_HEIGHT: int := 480
  const GRID_SIZE: int := 20
  const GRID_WIDTH: int := SCREEN_WIDTH / GRID_SIZE
  const GRID_HEIGHT: int := SCREEN_HEIGHT / GRID_SIZE

  /** A cell is addressed by the pixel coordinates of its top-left corner. */
  type Cell = (int, int)

  datatype Direction = Up | Down | Left | Right {
    /** The unit vector of the direction: UP is (0, -1), RIGHT is (1, 0). */
    function Delta(): (int, int) {
      match this
      case Up => (0, -1)
      case Down => (0, 1)
      case Left => (-1, 0)
      case Right => (1, 0)
    }

    function Opposite(): (r: Direction)
      ensures r != this
      ensures r.Delta() == (-Delta().0, -Delta().1)
    {
      match this
      case Up => Down
      case Down => Up
      case Left => Right
      case Right => Left
    }
  }

  /** The cell is inside the screen. */
  predicate InBounds(c: Cell) {
    0 <= c.0 < SCREEN_WIDTH && 0 <= c.1 < SCREEN_HEIGHT
  }

  /** The cell is inside the screen and aligned to the grid. */
  predicate OnGrid(c: Cell) {
    InBounds(c) && c.0 % GRID_SIZE == 0 && c.1 % GRID_SIZE == 0
  }

  /**
   * The head one cell further in direction d, wrapped modulo the screen size.
   * Python's % takes the sign of the divisor; with the positive moduli used
   * here it agrees with Dafny's Euclidean %. The result lies on the screen
   * and differs from the unwrapped position by a whole number of screen
   * widths (heights).
   */
  function NewHead(head: Cell, d: Direction): (r: Cell)
    ensures InBounds(r)
    ensures (head.0 + d.Delta().0 * GRID_SIZE - r.0) % SCREEN_WIDTH == 0
    ensures (head.1 + d.Delta().1 * GRID_SIZE - r.1) % SCREEN_HEIGHT == 0
  {
    var (dx, dy) := d.Delta();
    ((head.0 + dx * GRID_SIZE) % SCREEN_WIDTH, (head.1 + dy * GRID_SIZE) % SCREEN_HEIGHT)
  }

  /**
   * Without the modulus: from a cell on the screen the new head is the
   * neighbouring cell, or, past an edge, the cell at the opposite edge.
   */
  lemma NewHeadStepsOrWraps(head: Cell, d: Direction)
    requires InBounds(head)
    ensures var x := head.0 + d.Delta().0 * GRID_SIZE;
      NewHead(head, d).0 ==
        if x < 0 then x + SCREEN_WIDTH else if x >= SCREEN_WIDTH then x - SCREEN_WIDTH else x
    ensures var y := head.1 + d.Delta().1 * GRID_SIZE;
      NewHead(head, d).1 ==
        if y < 0 then y + SCREEN_HEIGHT else if y >= SCREEN_HEIGHT then y - SCREEN_HEIGHT else y
  {
  }

  /** Moving right from the last column gives column 0; moving up from row 0 gives the last row. */
  lemma WrapAtEdges(x: int, y: int)
    requires InBounds((x, y))
    ensures NewHead((SCREEN_WIDTH - GRID_SIZE, y), Right) == (0, y)
    ensures NewHead((x, 0), Up) == (x, SCREEN_HEIGHT - GRID_SIZE)
    ensures NewHead((0, y), Left) == (SCREEN_WIDTH - GRID_SIZE, y)
    ensures NewHead((x, SCREEN_HEIGHT - GRID_SIZE), Down) == (x, 0)
  {
  }

  /**
   * A head on the grid stays on the grid: 640 and 480 are multiples of 20,
   * so wrapping never breaks the alignment.
   */
  lemma NewHeadOnGrid(head: Cell, d: Direction)
    requires OnGrid(head)
    ensures OnGrid(NewHead(head, d))
  {
    NewHeadStepsOrWraps(head, d);
    assert SCREEN_WIDTH == 32 * GRID_SIZE && SCREEN_HEIGHT == 24 * GRID_SIZE;
  }

  /** The pixel cell that the grid indices (col, row) denote. */
  function CellAt(col: int, row: int): (r: Cell)
    requires 0 <= col < GRID_WIDTH && 0 <= row < GRID_HEIGHT
    ensures OnGrid(r)
    ensures r.0 / GRID_SIZE == col && r.1 / GRID_SIZE == row
  {
    (col * GRID_SIZE, row * GRID_SIZE)
  }

  /** Every cell on the grid is CellAt of some pair of indices in range. */
  lemma CellAtCoversGrid(c: Cell)
    requires OnGrid(c)
    ensures exists col, row :: 0 <= col < GRID_WIDTH && 0 <= row < GRID_HEIGHT && CellAt(col, row) == c
  {
    var col, row := c.0 / GRID_SIZE, c.1 / GRID_SIZE;
    assert CellAt(col, row) == c;
  }
}
