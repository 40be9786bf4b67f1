/**
 * The snake's body as a value: the shape invariants it keeps, the spawn
 * position, the outcome of one tick, and the counting argument that a free
 * cell exists while the snake is shorter than the board.
 */
module Board {
  import opened Grid

  /** No cell appears twice in the body. */
  predicate Distinct(s: seq<Cell>) {
    forall i, j :: 0 <= i < j < |s| ==> s[i] != s[j]
  }

  predicate AllInBounds(s: seq<Cell>) {
    forall i :: 0 <= i < |s| ==> InBounds(s[i])
  }

  /** Consecutive segments share an edge. */
  predicate Contiguous(s: seq<Cell>) {
    forall i :: 0 <= i < |s| - 1 ==> Adjacent(s[i], s[i + 1])
  }

  /** The shape every live snake has, head first. */
  predicate WellFormed(s: seq<Cell>) {
    |s| >= 3 && Distinct(s) && AllInBounds(s) && Contiguous(s)
  }

  const Mid: int := GRID / 2

  /** The body a new session starts with: three cells at the centre, head rightmost. */
  function SpawnBody(): (s: seq<Cell>)
    ensures WellFormed(s) && |s| == 3
    ensures s[0] == Cell(Mid, Mid)
    ensures forall i :: 0 < i < |s| ==> s[i] == Move(s[i - 1], Left)
  {
    [Cell(Mid, Mid), Cell(Mid - 1, Mid), Cell(Mid - 2, Mid)]
  }

  /** A head arriving at h ends the game: off the board, or on any current segment, tail included. */
  predicate Collides(body: seq<Cell>, h: Cell) {
    !InBounds(h) || h in body
  }

  datatype TickResult = Collision | Moved(body: seq<Cell>) | Grew(body: seq<Cell>)

  /**
   * One tick of the snake moving in heading dir with food at food: the
   * new head is prepended, and the tail is dropped unless the food was eaten.
   */
  function Tick(body: seq<Cell>, dir: Direction, food: Cell): TickResult
    requires |body| >= 1
  {
    var head := Move(body[0], dir);
    if !InBounds(head) || head in body then Collision
    else if head == food then Grew([head] + body)
    else Moved([head] + body[..|body| - 1])
  }

  /**
   * What a tick does: it ends the game exactly when the new head collides,
   * grows exactly when the new head is on the food, and otherwise moves;
   * a surviving snake has the moved head in front of the old body, whole
   * when it grew and without its last cell when it moved.
   */
  lemma TickOutcome(body: seq<Cell>, dir: Direction, food: Cell)
    requires |body| >= 1
    ensures var r := Tick(body, dir, food);
      && (r.Collision? <==> Collides(body, Move(body[0], dir)))
      && (r.Grew? <==> !Collides(body, Move(body[0], dir)) && Move(body[0], dir) == food)
      && (!r.Collision? ==> |r.body| >= 1 && r.body[0] == Move(body[0], dir))
      && (r.Grew? ==> |r.body| == |body| + 1 && r.body[1..] == body)
      && (r.Moved? ==> |r.body| == |body| && r.body[1..] == body[..|body| - 1])
  {
  }

  /** A tick that does not end the game keeps the body well formed, and a plain move keeps it off the food. */
  lemma TickPreservesWellFormed(body: seq<Cell>, dir: Direction, food: Cell)
    requires WellFormed(body) && food !in body
    ensures var r := Tick(body, dir, food);
      !r.Collision? ==> WellFormed(r.body) && |body| <= |r.body| <= |body| + 1
    ensures var r := Tick(body, dir, food);
      r.Moved? ==> food !in r.body
  {
  }

  /** Moving onto the cell the tail occupies is a collision, even though the tail would move away. */
  lemma TailCellCollides(body: seq<Cell>, dir: Direction, food: Cell)
    requires |body| >= 1 && Move(body[0], dir) == body[|body| - 1]
    ensures Tick(body, dir, food) == Collision
  {
  }

  /**
   * A four-cell snake coiled in a square, heading onto its own tail.
   * The move is refused although the tail would vacate that cell.
   */
  lemma ChasingTheTail()
    ensures WellFormed([Cell(0, 0), Cell(1, 0), Cell(1, 1), Cell(0, 1)])
    ensures Tick([Cell(0, 0), Cell(1, 0), Cell(1, 1), Cell(0, 1)], Down, Cell(5, 5)) == Collision
  {
  }

  /** First tick of a new session with no input: one step right, tail dropped. */
  lemma FirstTickFromSpawn(food: Cell)
    requires food != Cell(Mid + 1, Mid)
    ensures Tick(SpawnBody(), Right, food) == Moved([Cell(Mid + 1, Mid), Cell(Mid, Mid), Cell(Mid - 1, Mid)])
  {
  }

  /** A snake whose head is on the right edge, heading right, hits the wall. */
  lemma RightWallCollides(body: seq<Cell>, food: Cell)
    requires |body| >= 1 && body[0].x == GRID - 1
    ensures Tick(body, Right, food) == Collision
  {
  }

  // ----- Counting: a short snake leaves a free cell -----

  /** The set of cells a body covers. */
  ghost function Occupied(s: seq<Cell>): set<Cell> {
    if s == [] then {} else {s[0]} + Occupied(s[1..])
  }

  lemma {:induction false} OccupiedSize(s: seq<Cell>)
    ensures |Occupied(s)| <= |s|
    ensures forall c :: c in Occupied(s) <==> c in s
  {
    if s != [] {
      OccupiedSize(s[1..]);
      assert forall c :: c in s <==> c == s[0] || c in s[1..];
    }
  }

  /** Row-major numbering of the board's cells. */
  function CellAt(k: int): (c: Cell)
    requires 0 <= k < Cells
    ensures InBounds(c) && c.x + GRID * c.y == k
  {
    Cell(k % GRID, k / GRID)
  }

  /** The first n cells in row-major order. */
  ghost function Enumerated(n: nat): set<Cell>
    requires n <= Cells
  {
    if n == 0 then {} else Enumerated(n - 1) + {CellAt(n - 1)}
  }

  lemma {:induction false} EnumeratedSize(n: nat)
    requires n <= Cells
    ensures |Enumerated(n)| == n
    ensures forall c :: c in Enumerated(n) ==> InBounds(c) && c.x + GRID * c.y < n
  {
    if n > 0 {
      EnumeratedSize(n - 1);
      assert CellAt(n - 1) !in Enumerated(n - 1);
    }
  }

  /** While the body is shorter than the board, some board cell is not on it. */
  lemma FreeCellExists(s: seq<Cell>)
    requires |s| < Cells
    ensures exists x, y :: 0 <= x < GRID && 0 <= y < GRID && Cell(x, y) !in s
  {
    EnumeratedSize(Cells);
    OccupiedSize(s);
    var all := Enumerated(Cells);
    assert |all - Occupied(s)| > 0 by {
      assert all == (all - Occupied(s)) + (all * Occupied(s));
      assert all * Occupied(s) <= Occupied(s);
    }
    var c :| c in all - Occupied(s);
    assert Cell(c.x, c.y) !in s;
  }
}
