/** Shared vocabulary of the path finder: cells, integer grids and the
    marker values a board stores in its cells. */
module Grids {

  /** A (row, column) coordinate; it doubles as a graph node identity. */
  datatype Cell = Cell(row: int, col: int)

  /** A board's cell values, row by row. */
  type Grid = seq<seq<int>>

  datatype Option<+T> = None | Some(value: T)

  /** Marker values stored in a board's cells. */
  const Obstacle: int := -1
  const Empty: int := 0
  const StartMark: int := 1
  const GoalMark: int := 2
  const PathMark: int := 3

  /** Every row has the length of the first one (a two-dimensional array). */
  predicate Rectangular(g: Grid) {
    forall i :: 0 <= i < |g| ==> |g[i]| == |g[0]|
  }

  /** Number of columns of a grid; zero for a grid without rows. */
  function Cols(g: Grid): nat {
    if |g| == 0 then 0 else |g[0]|
  }

  predicate InBounds(g: Grid, c: Cell) {
    0 <= c.row < |g| && 0 <= c.col < |g[c.row]|
  }

  function At(g: Grid, c: Cell): int
    requires InBounds(g, c)
  {
    g[c.row][c.col]
  }

  /** An in-bounds cell that is not an obstacle: a node of the board's graph. */
  predicate Free(g: Grid, c: Cell) {
    InBounds(g, c) && At(g, c) != Obstacle
  }

  /** Strict row-major order: the order of a scan row by row, left to right. */
  predicate RowMajorBefore(a: Cell, b: Cell) {
    a.row < b.row || (a.row == b.row && a.col < b.col)
  }

  function Abs(x: int): nat {
    if x < 0 then -x else x
  }

  /** Orthogonal neighbours: Manhattan distance exactly one. */
  predicate Adjacent(a: Cell, b: Cell) {
    Abs(a.row - b.row) + Abs(a.col - b.col) == 1
  }

  /** Two grids of the same shape agree on which cells hold the value `v`. */
  predicate SameCellsValued(g: Grid, h: Grid, v: int) {
    && |g| == |h|
    && (forall i :: 0 <= i < |g| ==> |g[i]| == |h[i]|)
    && (forall i, j :: 0 <= i < |g| && 0 <= j < |g[i]| && j < |h[i]| ==> (g[i][j] == v <==> h[i][j] == v))
  }

  /** The cells of `g` holding the value `v`. */
  function CellsValued(g: Grid, v: int): set<Cell> {
    set i, j | 0 <= i < |g| && 0 <= j < |g[i]| && g[i][j] == v :: Cell(i, j)
  }

  /** Grids that agree on the `v` cells have the same set of `v` cells. */
  lemma SameCellsValuedSet(g: Grid, h: Grid, v: int)
    requires SameCellsValued(g, h, v)
    ensures CellsValued(g, v) == CellsValued(h, v)
  {
    forall c | c in CellsValued(g, v) ensures c in CellsValued(h, v) {
      assert g[c.row][c.col] == v;
    }
    forall c | c in CellsValued(h, v) ensures c in CellsValued(g, v) {
      assert h[c.row][c.col] == v;
    }
  }
}
