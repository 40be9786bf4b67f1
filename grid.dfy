/**
 * The play field of the snake engine: a square grid of integer cells and the
 * four headings the snake can take. Screen coordinates are used, so "up"
 * decreases y.
 */
module Grid {

  /** Cells per side of the board. */
  const GRID: int := 20

  /** Number of cells on the board. */
  const Cells: int := GRID * GRID

  /** A board position; only positions inside the board are ever occupied. */
  datatype Cell = Cell(x: int, y: int)

  datatype Direction = Up | Down | Left | Right

  predicate InBounds(c: Cell) {
    0 <= c.x < GRID && 0 <= c.y < GRID
  }

  /** Two cells that share an edge. */
  predicate Adjacent(a: Cell, b: Cell) {
    || (a.x == b.x && (a.y - b.y == 1 || b.y - a.y == 1))
    || (a.y == b.y && (a.x - b.x == 1 || b.x - a.x == 1))
  }

  predicate Vertical(d: Direction) {
    d == Up || d == Down
  }

  /**
   * The reversal table used when filtering input. The opposite heading is
   * the one other heading on the same axis.
   */
  function Opposite(d: Direction): (r: Direction)
    ensures r != d
    ensures Vertical(r) == Vertical(d)
  {
    match d
    case Up => Down
    case Down => Up
    case Left => Right
    case Right => Left
  }

  /** The cell one step from c in heading d. */
  function Move(c: Cell, d: Direction): (r: Cell)
    ensures Adjacent(c, r)
    ensures Vertical(d) <==> r.x == c.x
    ensures d == Up || d == Left <==> r.x + r.y < c.x + c.y
  {
    match d
    case Up => Cell(c.x, c.y - 1)
    case Down => Cell(c.x, c.y + 1)
    case Left => Cell(c.x - 1, c.y)
    case Right => Cell(c.x + 1, c.y)
  }

  lemma OppositeInvolutive(d: Direction)
    ensures Opposite(Opposite(d)) == d
  {
  }

  /** Stepping back in the opposite heading undoes a step. */
  lemma MoveUndone(c: Cell, d: Direction)
    ensures Move(Move(c, d), Opposite(d)) == c
  {
  }

  /** Different headings lead to different cells. */
  lemma MoveInjective(c: Cell, d1: Direction, d2: Direction)
    requires Move(c, d1) == Move(c, d2)
    ensures d1 == d2
  {
  }

  /** The cell k steps from c in heading d. */
  function Ahead(c: Cell, d: Direction, k: nat): Cell {
    match d
    case Up => Cell(c.x, c.y - k)
    case Down => Cell(c.x, c.y + k)
    case Left => Cell(c.x - k, c.y)
    case Right => Cell(c.x + k, c.y)
  }

  lemma AheadStep(c: Cell, d: Direction, k: nat)
    ensures Ahead(c, d, k + 1) == Move(Ahead(c, d, k), d)
  {
  }

  /** A straight run that starts and ends on the board is shorter than a side of it. */
  lemma AheadOnBoard(c: Cell, d: Direction, k: nat)
    requires InBounds(c) && InBounds(Ahead(c, d, k))
    ensures k < GRID
  {
  }
}
