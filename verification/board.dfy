/** The board: its construction from configuration, its derivation from a
    marker layout, and the path overlay. */
module Boards {
  import opened Grids
  import opened Graphs

  /** A board's layout with the values derived from it: dimensions, start
      (ix, iy), goal (fx, fy), obstacle count `n` and the graph. */
  datatype Board = Board(grid: Grid, rows: int, cols: int, ix: int, iy: int, fx: int, fy: int, n: int, graph: Graph)

  /** `NoStartMarker`/`NoGoalMarker`: the index lookup of a missing marker
      fails; `IndexOutOfRange`: a path cell outside the board. */
  datatype Error = NoStartMarker | NoGoalMarker | IndexOutOfRange

  datatype Result<+T> = Success(value: T) | Failure(error: Error)

  // ---------------------------------------------------------------------
  // Marker scan

  ghost predicate HasValue(g: Grid, v: int) {
    exists c :: InBounds(g, c) && At(g, c) == v
  }

  /** `c` is the first cell valued `v` in row-major order. */
  ghost predicate IsFirst(g: Grid, v: int, c: Cell) {
    && InBounds(g, c) && At(g, c) == v
    && forall d :: InBounds(g, d) && RowMajorBefore(d, c) ==> At(g, d) != v
  }

  /** At most one cell is the first `v` cell. */
  lemma IsFirstUnique(g: Grid, v: int, c: Cell, d: Cell)
    requires IsFirst(g, v, c) && IsFirst(g, v, d)
    ensures c == d
  {
  }

  /** The first column from `j` on where `row` holds `v`. */
  function FirstInRow(row: seq<int>, v: int, j: nat): (r: Option<nat>)
    requires j <= |row|
    ensures r.Some? ==> j <= r.value < |row| && row[r.value] == v
    ensures r.Some? ==> forall k :: j <= k < r.value ==> row[k] != v
    ensures r.None? ==> forall k :: j <= k < |row| ==> row[k] != v
    decreases |row| - j
  {
    if j == |row| then None
    else if row[j] == v then Some(j)
    else FirstInRow(row, v, j + 1)
  }

  /** The first cell valued `v` in row-major order among rows `i` and on. */
  function FirstFrom(g: Grid, v: int, i: nat): (r: Option<Cell>)
    requires i <= |g|
    ensures r.Some? ==> InBounds(g, r.value) && At(g, r.value) == v && i <= r.value.row
    ensures r.Some? ==> forall d :: InBounds(g, d) && i <= d.row && RowMajorBefore(d, r.value) ==> At(g, d) != v
    ensures r.None? ==> forall d :: InBounds(g, d) && i <= d.row ==> At(g, d) != v
    decreases |g| - i
  {
    if i == |g| then None
    else match FirstInRow(g[i], v, 0)
      case Some(j) => Some(Cell(i, j))
      case None => FirstFrom(g, v, i + 1)
  }

  /** `np.argwhere(values == v)[0]`: the first `v` cell in row-major order,
      or nothing when no cell holds `v`. */
  function FirstMarker(g: Grid, v: int): (r: Option<Cell>)
    ensures r.Some? <==> HasValue(g, v)
    ensures r.Some? ==> IsFirst(g, v, r.value)
  {
    FirstFrom(g, v, 0)
  }

  /** `board_from_df`: dimensions, first start marker, first goal marker,
      obstacle count and graph of a layout. */
  function BoardFromGrid(g: Grid): (r: Result<Board>)
    requires Rectangular(g)
    ensures r.Success? <==> HasValue(g, StartMark) && HasValue(g, GoalMark)
    ensures !HasValue(g, StartMark) ==> r == Failure(NoStartMarker)
    ensures HasValue(g, StartMark) && !HasValue(g, GoalMark) ==> r == Failure(NoGoalMarker)
    ensures r.Success? ==> r.value.grid == g && r.value.rows == |g| && r.value.cols == Cols(g)
    ensures r.Success? ==> IsFirst(g, StartMark, Cell(r.value.ix, r.value.iy))
    ensures r.Success? ==> IsFirst(g, GoalMark, Cell(r.value.fx, r.value.fy))
    ensures r.Success? ==> r.value.n == |CellsValued(g, Obstacle)|
    ensures r.Success? ==> r.value.graph == BuildFromBoard(g)
  {
    match FirstMarker(g, StartMark)
    case None => Failure(NoStartMarker)
    case Some(s) =>
      match FirstMarker(g, GoalMark)
      case None => Failure(NoGoalMarker)
      case Some(t) =>
        Success(Board(g, |g|, Cols(g), s.row, s.col, t.row, t.col, |CellsValued(g, Obstacle)|, BuildFromBoard(g)))
  }

  /** Layouts that agree on where `v` is have the same first `v` cell. */
  lemma FirstMarkerAgrees(g: Grid, h: Grid, v: int)
    requires SameCellsValued(g, h, v)
    ensures FirstMarker(g, v) == FirstMarker(h, v)
  {
    var a, b := FirstMarker(g, v), FirstMarker(h, v);
    if a.Some? {
      assert InBounds(h, a.value) && At(h, a.value) == v;
      assert IsFirst(h, v, a.value);
      IsFirstUnique(h, v, a.value, b.value);
    }
  }

  // ---------------------------------------------------------------------
  // Path overlay

  /** Positional index `x` into an axis of length `n`: a negative index
      counts from the end; anything else outside the axis is an error. */
  function Resolve(x: int, n: nat): (r: Option<nat>)
    ensures r.Some? <==> -(n as int) <= x < n
    ensures r.Some? ==> r.value < n && (r.value == x || r.value == x + n)
  {
    if 0 <= x < n then Some(x)
    else if -(n as int) <= x < 0 then Some(x + n)
    else None
  }

  /** The board cell a path entry designates, if any. */
  function Locate(g: Grid, p: Cell): Option<Cell> {
    var i := Resolve(p.row, |g|);
    var j := Resolve(p.col, Cols(g));
    if i.Some? && j.Some? then Some(Cell(i.value, j.value)) else None
  }

  predicate Resolvable(g: Grid, path: seq<Cell>) {
    forall k :: 0 <= k < |path| ==> Locate(g, path[k]).Some?
  }

  /** Some entry of `path` designates the cell `c`. */
  predicate OnPath(g: Grid, path: seq<Cell>, c: Cell) {
    exists k :: 0 <= k < |path| && Locate(g, path[k]) == Some(c)
  }

  /** `g` with the value of cell `c` replaced by `v`. */
  function SetCell(g: Grid, c: Cell, v: int): (r: Grid)
    requires InBounds(g, c)
    ensures |r| == |g| && forall i :: 0 <= i < |g| ==> |r[i]| == |g[i]|
    ensures forall d :: InBounds(g, d) ==> At(r, d) == if d == c then v else At(g, d)
  {
    g[c.row := g[c.row][c.col := v]]
  }

  /** The loop of `draw_path`, over the path from its first entry: an
      empty cell on the path becomes a path cell; an entry outside the
      board stops the overlay with an error. */
  function Overlay(g: Grid, path: seq<Cell>): (r: Result<Grid>)
    requires Rectangular(g)
    ensures r.Success? <==> Resolvable(g, path)
    ensures r.Failure? ==> r.error == IndexOutOfRange
    ensures r.Success? ==> Rectangular(r.value) && |r.value| == |g| && Cols(r.value) == Cols(g)
    ensures r.Success? ==> forall i :: 0 <= i < |g| ==> |r.value[i]| == |g[i]|
    ensures r.Success? ==> forall c :: InBounds(g, c) ==>
              At(r.value, c) == if At(g, c) == Empty && OnPath(g, path, c) then PathMark else At(g, c)
    decreases |path|
  {
    if |path| == 0 then Success(g)
    else match Locate(g, path[0])
      case None => Failure(IndexOutOfRange)
      case Some(c) =>
        var g' := if At(g, c) == Empty then SetCell(g, c, PathMark) else g;
        OverlayShift(g, g', path, c);
        Overlay(g', path[1..])
  }

  /** Dropping the first path entry: the rest of the path designates the
      same cells on any layout of the same shape. */
  lemma OverlayShift(g: Grid, g': Grid, path: seq<Cell>, c: Cell)
    requires |g'| == |g| && Cols(g') == Cols(g)
    requires |path| > 0 && Locate(g, path[0]) == Some(c)
    ensures Resolvable(g, path) <==> Resolvable(g', path[1..])
    ensures forall d :: OnPath(g, path, d) <==> d == c || OnPath(g', path[1..], d)
  {
    forall k | 0 <= k < |path| - 1 ensures Locate(g', path[1..][k]) == Locate(g, path[k + 1]) {
      assert path[1..][k] == path[k + 1];
    }
    forall d ensures OnPath(g, path, d) <==> d == c || OnPath(g', path[1..], d) {
      if OnPath(g, path, d) && d != c {
        var k :| 0 <= k < |path| && Locate(g, path[k]) == Some(d);
        assert Locate(g', path[1..][k - 1]) == Some(d);
      }
      if OnPath(g', path[1..], d) {
        var k :| 0 <= k < |path| - 1 && Locate(g', path[1..][k]) == Some(d);
        assert Locate(g, path[k + 1]) == Some(d);
      }
    }
  }

  /** `draw_path`: overlay the path on a copy of the layout and derive a
      new board from the copy; the source board is left as it is. */
  function DrawPath(b: Board, path: seq<Cell>): (r: Result<Board>)
    requires Rectangular(b.grid)
    ensures r.Success? <==> Resolvable(b.grid, path) && HasValue(b.grid, StartMark) && HasValue(b.grid, GoalMark)
    ensures r.Success? ==> r.value.rows == |b.grid| && r.value.cols == Cols(b.grid)
    ensures r.Success? ==> |r.value.grid| == |b.grid| && forall i :: 0 <= i < |b.grid| ==> |r.value.grid[i]| == |b.grid[i]|
    ensures r.Success? ==> r.value.graph == BuildFromBoard(r.value.grid)
    ensures r.Success? ==> forall c :: InBounds(b.grid, c) ==>
              InBounds(r.value.grid, c) &&
              At(r.value.grid, c) == if At(b.grid, c) == Empty && OnPath(b.grid, path, c) then PathMark else At(b.grid, c)
    ensures r.Success? ==> var src := BoardFromGrid(b.grid);
              && src.Success?
              && r.value.ix == src.value.ix && r.value.iy == src.value.iy
              && r.value.fx == src.value.fx && r.value.fy == src.value.fy
              && r.value.n == src.value.n
  {
    match Overlay(b.grid, path)
    case Failure(e) => Failure(e)
    case Success(g) =>
      OverlayKeepsMarkers(b.grid, g, path, StartMark);
      OverlayKeepsMarkers(b.grid, g, path, GoalMark);
      OverlayKeepsMarkers(b.grid, g, path, Obstacle);
      FirstMarkerAgrees(b.grid, g, StartMark);
      FirstMarkerAgrees(b.grid, g, GoalMark);
      SameCellsValuedSet(b.grid, g, Obstacle);
      assert HasValue(b.grid, StartMark) <==> HasValue(g, StartMark);
      assert HasValue(b.grid, GoalMark) <==> HasValue(g, GoalMark);
      BoardFromGrid(g)
  }

  /** The overlay leaves start, goal and obstacle cells as they were. */
  lemma OverlayKeepsMarkers(g: Grid, h: Grid, path: seq<Cell>, v: int)
    requires Rectangular(g) && Overlay(g, path) == Success(h)
    requires v == StartMark || v == GoalMark || v == Obstacle
    ensures SameCellsValued(g, h, v)
  {
    forall i, j | 0 <= i < |g| && 0 <= j < |g[i]| && j < |h[i]|
      ensures g[i][j] == v <==> h[i][j] == v
    {
      assert At(h, Cell(i, j)) == if At(g, Cell(i, j)) == Empty && OnPath(g, path, Cell(i, j)) then PathMark else At(g, Cell(i, j));
    }
  }

  // ---------------------------------------------------------------------
  // Board construction

  /** A `rows` by `cols` layout of empty cells. */
  function Zeros(rows: nat, cols: nat): (g: Grid)
    ensures |g| == rows && Rectangular(g) && Cols(g) == (if rows == 0 then 0 else cols)
    ensures forall i :: 0 <= i < rows ==> |g[i]| == cols
    ensures forall c :: InBounds(g, c) ==> At(g, c) == Empty
  {
    seq(rows, _ => seq(cols, _ => Empty))
  }

  /** The obstacle loop of `_build_board` once its positions are drawn:
      each accepted position is written as an obstacle. */
  function PlaceObstacles(g: Grid, picks: seq<Cell>): (r: Grid)
    requires forall k :: 0 <= k < |picks| ==> InBounds(g, picks[k])
    ensures |r| == |g| && forall i :: 0 <= i < |g| ==> |r[i]| == |g[i]|
    ensures forall c :: InBounds(g, c) ==> At(r, c) == if c in picks then Obstacle else At(g, c)
    decreases |picks|
  {
    if |picks| == 0 then g
    else PlaceObstacles(SetCell(g, picks[0], Obstacle), picks[1..])
  }

  /** The values the re-draw test compares: an integer or a pair of
      integers. An integer never equals a pair. */
  datatype PyValue = PyInt(i: int) | PyPair(x: int, y: int)

  /** The recorded list as `_build_board` fills it: the bare row number of
      each obstacle placed so far. */
  function RecordedRows(earlier: seq<Cell>): (r: seq<PyValue>)
    ensures |r| == |earlier|
    ensures forall k :: 0 <= k < |r| ==> r[k] == PyInt(earlier[k].row)
  {
    seq(|earlier|, k requires 0 <= k < |earlier| => PyInt(earlier[k].row))
  }

  /** The recorded list as the re-draw test reads it: the position of each
      obstacle placed so far. */
  function RecordedPairs(earlier: seq<Cell>): (r: seq<PyValue>)
    ensures |r| == |earlier|
    ensures forall k :: 0 <= k < |r| ==> r[k] == PyPair(earlier[k].row, earlier[k].col)
  {
    seq(|earlier|, k requires 0 <= k < |earlier| => PyPair(earlier[k].row, earlier[k].col))
  }

  /** The condition of the re-draw loop: the drawn position is in the
      recorded list, or is the start, or is the goal. */
  predicate Redraw(p: Cell, start: Cell, goal: Cell, recorded: seq<PyValue>) {
    || PyPair(p.row, p.col) in recorded
    || (p.row == start.row && p.col == start.col)
    || (p.row == goal.row && p.col == goal.col)
  }

  /** The re-draw loop as written accepts a draw: the recorded list holds
      bare row numbers, and a pair is never among them, so only the start
      and goal cells are refused, whatever was placed before. */
  function AcceptedAsWritten(p: Cell, start: Cell, goal: Cell, earlier: seq<Cell>): (r: bool)
    ensures r <==> p != start && p != goal
  {
    var recorded := RecordedRows(earlier);
    assert PyPair(p.row, p.col) !in recorded by {
      forall k | 0 <= k < |recorded| ensures recorded[k] != PyPair(p.row, p.col) {
        assert recorded[k].PyInt?;
      }
    }
    !Redraw(p, start, goal, recorded)
  }

  /** The re-draw loop with positions recorded as pairs accepts a draw:
      earlier obstacle positions are refused as well as start and goal. */
  function AcceptedDistinct(p: Cell, start: Cell, goal: Cell, earlier: seq<Cell>): (r: bool)
    ensures r <==> p !in earlier && p != start && p != goal
  {
    var recorded := RecordedPairs(earlier);
    assert PyPair(p.row, p.col) in recorded <==> p in earlier by {
      if p in earlier {
        var k :| 0 <= k < |earlier| && earlier[k] == p;
        assert recorded[k] == PyPair(p.row, p.col);
      }
      if PyPair(p.row, p.col) in recorded {
        var k :| 0 <= k < |recorded| && recorded[k] == PyPair(p.row, p.col);
        assert earlier[k] == p;
      }
    }
    !Redraw(p, start, goal, recorded)
  }

  predicate InGrid(rows: int, cols: int, c: Cell) {
    0 <= c.row < rows && 0 <= c.col < cols
  }

  /** The distinct positions of a sequence. */
  function Positions(s: seq<Cell>): set<Cell> {
    set k | 0 <= k < |s| :: s[k]
  }

  lemma {:induction false} PositionsCard(s: seq<Cell>)
    ensures |Positions(s)| <= |s|
    ensures (forall a, b :: 0 <= a < b < |s| ==> s[a] != s[b]) ==> |Positions(s)| == |s|
  {
    if |s| > 0 {
      PositionsCard(s[1..]);
      assert Positions(s) == {s[0]} + Positions(s[1..]) by {
        forall x ensures x in Positions(s) <==> x == s[0] || x in Positions(s[1..]) {
          if x in Positions(s) && x != s[0] {
            var k :| 0 <= k < |s| && s[k] == x;
            assert s[1..][k - 1] == x;
          }
          if x in Positions(s[1..]) {
            var k :| 0 <= k < |s| - 1 && s[1..][k] == x;
            assert s[k + 1] == x;
          }
        }
      }
      if forall a, b :: 0 <= a < b < |s| ==> s[a] != s[b] {
        assert forall a, b :: 0 <= a < b < |s[1..]| ==> s[1..][a] != s[1..][b] by {
          forall a, b | 0 <= a < b < |s[1..]| ensures s[1..][a] != s[1..][b] {
            assert s[1..][a] == s[a + 1] && s[1..][b] == s[b + 1];
          }
        }
        forall k | 0 <= k < |s| - 1 ensures s[1..][k] != s[0] {
          assert s[1..][k] == s[k + 1];
        }
      }
    }
  }

  /** The layout before any obstacle: empty cells, then the start marker,
      then the goal marker, which wins when the two coincide. */
  function MarkedLayout(rows: nat, cols: nat, start: Cell, goal: Cell): (g: Grid)
    requires InGrid(rows, cols, start) && InGrid(rows, cols, goal)
    ensures |g| == rows && forall i :: 0 <= i < rows ==> |g[i]| == cols
    ensures forall c :: InBounds(g, c) ==> At(g, c) != Obstacle
    ensures At(g, goal) == GoalMark
    ensures start != goal ==> At(g, start) == StartMark
    ensures forall c :: InBounds(g, c) && c != start && c != goal ==> At(g, c) == Empty
  {
    SetCell(SetCell(Zeros(rows, cols), start, StartMark), goal, GoalMark)
  }

  /** When exactly the cells of `picks` hold obstacles, the obstacle cells
      are the positions of `picks`. */
  lemma ObstacleCells(g: Grid, picks: seq<Cell>)
    requires forall k :: 0 <= k < |picks| ==> InBounds(g, picks[k])
    requires forall c :: InBounds(g, c) ==> (At(g, c) == Obstacle <==> c in picks)
    ensures CellsValued(g, Obstacle) == Positions(picks)
  {
    forall c | c in Positions(picks) ensures c in CellsValued(g, Obstacle) {
      assert InBounds(g, c) && At(g, c) == Obstacle;
    }
    forall c | c in CellsValued(g, Obstacle) ensures c in Positions(picks) {
      assert InBounds(g, c) && At(g, c) == Obstacle;
      var k :| 0 <= k < |picks| && picks[k] == c;
    }
  }

  /** The marked layout with an obstacle written at every position of `picks`. */
  function ObstacleLayout(rows: nat, cols: nat, start: Cell, goal: Cell, picks: seq<Cell>): (g: Grid)
    requires InGrid(rows, cols, start) && InGrid(rows, cols, goal)
    requires forall k :: 0 <= k < |picks| ==> InGrid(rows, cols, picks[k]) && AcceptedAsWritten(picks[k], start, goal, picks[..k])
    ensures |g| == rows && forall i :: 0 <= i < rows ==> |g[i]| == cols
    ensures forall k :: 0 <= k < |picks| ==> InBounds(g, picks[k])
    ensures At(g, goal) == GoalMark
    ensures start != goal ==> At(g, start) == StartMark
    ensures forall c :: InBounds(g, c) && c != start && c != goal ==>
              At(g, c) == if c in picks then Obstacle else Empty
    ensures forall c :: InBounds(g, c) ==> (At(g, c) == Obstacle <==> c in picks)
  {
    var layout := MarkedLayout(rows, cols, start, goal);
    forall k | 0 <= k < |picks| ensures InBounds(layout, picks[k]) {
      assert InGrid(rows, cols, picks[k]);
      assert |layout[picks[k].row]| == cols;
    }
    forall k | 0 <= k < |picks| ensures picks[k] != start && picks[k] != goal {
      assert AcceptedAsWritten(picks[k], start, goal, picks[..k]);
    }
    assert InBounds(layout, start) && InBounds(layout, goal);
    PlaceObstacles(layout, picks)
  }

  /** `_build_board` with its random draws given as `picks`, the positions
      its re-draw loop accepted, in order: an empty layout, the start
      marker, the goal marker (over the start when they coincide), then
      one obstacle per accepted position. `n` is kept as configured. */
  function BuildBoard(rows: int, cols: int, start: Cell, goal: Cell, n: int, picks: seq<Cell>): (b: Board)
    requires InGrid(rows, cols, start) && InGrid(rows, cols, goal)
    requires |picks| == n
    requires forall k :: 0 <= k < |picks| ==> InGrid(rows, cols, picks[k]) && AcceptedAsWritten(picks[k], start, goal, picks[..k])
    ensures Rectangular(b.grid) && |b.grid| == rows && Cols(b.grid) == cols
    ensures b.rows == rows && b.cols == cols && b.n == n
    ensures b.ix == start.row && b.iy == start.col && b.fx == goal.row && b.fy == goal.col
    ensures At(b.grid, goal) == GoalMark
    ensures start != goal ==> At(b.grid, start) == StartMark
    ensures forall c :: InBounds(b.grid, c) && c != start && c != goal ==>
              At(b.grid, c) == if c in picks then Obstacle else Empty
    ensures CellsValued(b.grid, Obstacle) == Positions(picks)
    ensures |CellsValued(b.grid, Obstacle)| <= n
    ensures b.graph == BuildFromBoard(b.grid)
  {
    var g := ObstacleLayout(rows, cols, start, goal, picks);
    ObstacleCells(g, picks);
    PositionsCard(picks);
    Board(g, rows, cols, start.row, start.col, goal.row, goal.col, n, BuildFromBoard(g))
  }

  /** `_build_board` with the recorded positions compared as positions:
      every accepted position is new, so exactly `n` obstacles are placed. */
  function BuildBoardDistinct(rows: int, cols: int, start: Cell, goal: Cell, n: int, picks: seq<Cell>): (b: Board)
    requires InGrid(rows, cols, start) && InGrid(rows, cols, goal)
    requires |picks| == n
    requires forall k :: 0 <= k < |picks| ==> InGrid(rows, cols, picks[k]) && AcceptedDistinct(picks[k], start, goal, picks[..k])
    ensures Rectangular(b.grid) && |b.grid| == rows && Cols(b.grid) == cols
    ensures At(b.grid, goal) == GoalMark
    ensures start != goal ==> At(b.grid, start) == StartMark
    ensures |CellsValued(b.grid, Obstacle)| == n
  {
    assert forall a, b :: 0 <= a < b < |picks| ==> picks[a] != picks[b] by {
      forall a, b | 0 <= a < b < |picks| ensures picks[a] != picks[b] {
        assert AcceptedDistinct(picks[b], start, goal, picks[..b]);
        assert picks[..b][a] == picks[a];
      }
    }
    forall k | 0 <= k < |picks| ensures AcceptedAsWritten(picks[k], start, goal, picks[..k]) {
      assert AcceptedDistinct(picks[k], start, goal, picks[..k]);
      assert AcceptedAsWritten(picks[k], start, goal, picks[..k]);
    }
    PositionsCard(picks);
    BuildBoard(rows, cols, start, goal, n, picks)
  }

  /** A position drawn a second time passes the exit test as written,
      while the test with positions recorded as pairs refuses it. */
  lemma RepeatedPickAccepted(start: Cell, goal: Cell, p: Cell)
    requires p != start && p != goal
    ensures AcceptedAsWritten(p, start, goal, []) && AcceptedAsWritten(p, start, goal, [p])
    ensures AcceptedDistinct(p, start, goal, []) && !AcceptedDistinct(p, start, goal, [p])
  {
  }

  /** A free position drawn twice both times passes the exit test as
      written, and the board ends up with one obstacle where two were asked. */
  lemma RepeatedPickLosesObstacle(rows: int, cols: int, start: Cell, goal: Cell, p: Cell)
    requires InGrid(rows, cols, start) && InGrid(rows, cols, goal) && InGrid(rows, cols, p)
    requires p != start && p != goal
    ensures |CellsValued(BuildBoard(rows, cols, start, goal, 2, [p, p]).grid, Obstacle)| == 1
  {
    var picks := [p, p];
    assert picks[..0] == [] && picks[..1] == [p];
    RepeatedPickAccepted(start, goal, p);
    assert Positions(picks) == {p} by {
      assert picks[0] == p && picks[1] == p;
      assert p in Positions(picks);
    }
  }

  /** Drawing an on-board path onto a constructed board with distinct start
      and goal keeps the configured start and goal, and recounts the
      obstacles from the layout: the number of distinct accepted positions,
      which is below the recorded `n` when a position was drawn twice. */
  lemma DrawOnBuiltBoard(rows: int, cols: int, start: Cell, goal: Cell, n: int, picks: seq<Cell>, path: seq<Cell>)
    requires InGrid(rows, cols, start) && InGrid(rows, cols, goal) && start != goal
    requires |picks| == n
    requires forall k :: 0 <= k < |picks| ==> InGrid(rows, cols, picks[k]) && AcceptedAsWritten(picks[k], start, goal, picks[..k])
    requires forall k :: 0 <= k < |path| ==> -rows <= path[k].row < rows && -cols <= path[k].col < cols
    ensures DrawPath(BuildBoard(rows, cols, start, goal, n, picks), path).Success?
    ensures var d := DrawPath(BuildBoard(rows, cols, start, goal, n, picks), path).value;
      && d.ix == start.row && d.iy == start.col && d.fx == goal.row && d.fy == goal.col
      && d.n == |Positions(picks)|
  {
    var b := BuildBoard(rows, cols, start, goal, n, picks);
    assert Resolvable(b.grid, path);
    assert InBounds(b.grid, start) && At(b.grid, start) == StartMark;
    assert InBounds(b.grid, goal) && At(b.grid, goal) == GoalMark;
    var src := BoardFromGrid(b.grid);
    assert src.Success?;
    var s, t := Cell(src.value.ix, src.value.iy), Cell(src.value.fx, src.value.fy);
    assert IsFirst(b.grid, StartMark, s) && IsFirst(b.grid, GoalMark, t);
    assert s == start;
    assert t == goal;
  }
}
