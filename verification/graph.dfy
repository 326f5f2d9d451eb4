/** The adjacency builder: the graph of a board is its non-obstacle cells,
    each with the list of its non-obstacle orthogonal neighbours. */
module Graphs {
  import opened Grids

  /** `nodes` in insertion order; `edges` maps each node to its neighbour list. */
  datatype Graph = Graph(nodes: seq<Cell>, edges: map<Cell, seq<Cell>>)

  /** The freshly constructed graph, before any board is scanned. */
  const EmptyGraph: Graph := Graph([], map[])

  /** The neighbour offsets in the order they are tried: up, down, left, right. */
  const Directions: seq<(int, int)> := [(-1, 0), (1, 0), (0, -1), (0, 1)]

  /** Position of `b` among `a`'s four neighbours in the order up, down,
      left, right; 4 when `b` is not a neighbour of `a`. */
  function DirectionIndex(a: Cell, b: Cell): nat {
    if b == Cell(a.row - 1, a.col) then 0
    else if b == Cell(a.row + 1, a.col) then 1
    else if b == Cell(a.row, a.col - 1) then 2
    else if b == Cell(a.row, a.col + 1) then 3
    else 4
  }

  lemma DirectionIndexAdjacent(a: Cell, b: Cell)
    ensures DirectionIndex(a, b) < 4 <==> Adjacent(a, b)
  {
  }

  /** The cell one step from `c` in the direction of index `k`. */
  function Toward(c: Cell, k: nat): Cell
    requires k < |Directions|
  {
    Cell(c.row + Directions[k].0, c.col + Directions[k].1)
  }

  lemma TowardIndex(c: Cell, k: nat)
    requires k < |Directions|
    ensures forall m :: DirectionIndex(c, m) == k <==> m == Toward(c, k)
  {
  }

  /** The free neighbours of `c` among the directions from index `k` on. */
  function NeighboursFrom(g: Grid, c: Cell, k: nat): (r: seq<Cell>)
    requires k <= |Directions|
    ensures |r| <= |Directions| - k
    ensures forall n :: n in r <==> Free(g, n) && k <= DirectionIndex(c, n) < 4
    ensures forall a, b :: 0 <= a < b < |r| ==> DirectionIndex(c, r[a]) < DirectionIndex(c, r[b])
    decreases |Directions| - k
  {
    if k == |Directions| then []
    else
      var n := Toward(c, k);
      TowardIndex(c, k);
      var rest := NeighboursFrom(g, c, k + 1);
      if Free(g, n) then [n] + rest else rest
  }

  /** The neighbour list `build_from_board` records for the cell `c`. */
  function Neighbours(g: Grid, c: Cell): (r: seq<Cell>)
    ensures |r| <= 4
    ensures forall n :: n in r <==> Free(g, n) && Adjacent(c, n)
    ensures forall a, b :: 0 <= a < b < |r| ==> DirectionIndex(c, r[a]) < DirectionIndex(c, r[b])
    ensures forall a, b :: 0 <= a < b < |r| ==> r[a] != r[b]
  {
    forall n ensures DirectionIndex(c, n) < 4 <==> Adjacent(c, n) {
      DirectionIndexAdjacent(c, n);
    }
    NeighboursFrom(g, c, 0)
  }

  /** The nodes are exactly the free cells before `stop` in row-major order. */
  ghost predicate NodesBefore(g: Grid, nodes: seq<Cell>, stop: Cell) {
    forall c :: c in nodes <==> Free(g, c) && RowMajorBefore(c, stop)
  }

  /** Strictly increasing in row-major order, hence without repetition. */
  predicate InScanOrder(nodes: seq<Cell>) {
    forall a, b :: 0 <= a < b < |nodes| ==> RowMajorBefore(nodes[a], nodes[b])
  }

  /** Every node, and nothing else, has a neighbour list, and that list is
      the one `Neighbours` computes. */
  ghost predicate ListsOfNodes(g: Grid, gr: Graph) {
    && (forall c :: c in gr.edges <==> c in gr.nodes)
    && (forall c :: c in gr.edges ==> gr.edges[c] == Neighbours(g, c))
  }

  /** The graph holds exactly the free cells scanned before `stop` in
      row-major order, in scan order, each with its neighbour list. */
  ghost predicate ScannedUpTo(g: Grid, gr: Graph, stop: Cell) {
    NodesBefore(g, gr.nodes, stop) && InScanOrder(gr.nodes) && ListsOfNodes(g, gr)
  }

  /** One step of the scan: an obstacle is skipped; any other cell becomes
      a node with its neighbour list. */
  function Visit(g: Grid, gr: Graph, c: Cell): Graph
    requires InBounds(g, c)
  {
    if At(g, c) == Obstacle then gr
    else Graph(gr.nodes + [c], gr.edges[c := Neighbours(g, c)])
  }

  lemma AppendInScanOrder(nodes: seq<Cell>, c: Cell)
    requires InScanOrder(nodes)
    requires forall n :: n in nodes ==> RowMajorBefore(n, c)
    ensures InScanOrder(nodes + [c])
  {
    var next := nodes + [c];
    forall a, b | 0 <= a < b < |next|
      ensures RowMajorBefore(next[a], next[b])
    {
      if b == |nodes| {
        assert nodes[a] in nodes;
      } else {
        assert next[a] == nodes[a] && next[b] == nodes[b];
      }
    }
  }

  lemma AppendNodesBefore(g: Grid, nodes: seq<Cell>, c: Cell)
    requires Free(g, c)
    requires NodesBefore(g, nodes, c)
    ensures NodesBefore(g, nodes + [c], Cell(c.row, c.col + 1))
  {
    forall n ensures n in nodes + [c] <==> Free(g, n) && RowMajorBefore(n, Cell(c.row, c.col + 1)) {
      assert n in nodes + [c] <==> n in nodes || n == c;
    }
  }

  lemma AddListOfNode(g: Grid, gr: Graph, c: Cell)
    requires ListsOfNodes(g, gr)
    ensures ListsOfNodes(g, Graph(gr.nodes + [c], gr.edges[c := Neighbours(g, c)]))
  {
    forall n ensures n in gr.nodes + [c] <==> n in gr.nodes || n == c {
    }
  }

  /** Visiting the cell at the scan position moves the position one column on. */
  lemma VisitExtends(g: Grid, gr: Graph, c: Cell)
    requires InBounds(g, c)
    requires ScannedUpTo(g, gr, c)
    ensures ScannedUpTo(g, Visit(g, gr, c), Cell(c.row, c.col + 1))
  {
    if At(g, c) == Obstacle {
      assert NodesBefore(g, gr.nodes, Cell(c.row, c.col + 1));
    } else {
      AppendNodesBefore(g, gr.nodes, c);
      AppendInScanOrder(gr.nodes, c);
      AddListOfNode(g, gr, c);
    }
  }

  /** Reaching the end of a row is the same as standing at the next row's start. */
  lemma RowEnd(g: Grid, gr: Graph, i: nat)
    requires i < |g|
    requires ScannedUpTo(g, gr, Cell(i, |g[i]|))
    ensures ScannedUpTo(g, gr, Cell(i + 1, 0))
  {
    assert NodesBefore(g, gr.nodes, Cell(i + 1, 0));
  }

  /** The inner loop of the scan: columns `j` and on of row `i`. */
  function ScanRow(g: Grid, i: nat, j: nat, gr: Graph): (r: Graph)
    requires i < |g| && j <= |g[i]|
    requires ScannedUpTo(g, gr, Cell(i, j))
    ensures ScannedUpTo(g, r, Cell(i + 1, 0))
    decreases |g[i]| - j
  {
    if j == |g[i]| then
      RowEnd(g, gr, i);
      gr
    else
      VisitExtends(g, gr, Cell(i, j));
      ScanRow(g, i, j + 1, Visit(g, gr, Cell(i, j)))
  }

  /** The outer loop of the scan: rows `i` and on. */
  function ScanRows(g: Grid, i: nat, gr: Graph): (r: Graph)
    requires i <= |g|
    requires ScannedUpTo(g, gr, Cell(i, 0))
    ensures ScannedUpTo(g, r, Cell(|g|, 0))
    decreases |g| - i
  {
    if i == |g| then gr
    else ScanRows(g, i + 1, ScanRow(g, i, 0, gr))
  }

  /** `Graph.build_from_board`: scan the grid row by row from the empty graph. */
  function BuildFromBoard(g: Grid): (gr: Graph)
    ensures forall c :: c in gr.nodes <==> Free(g, c)
    ensures forall a, b :: 0 <= a < b < |gr.nodes| ==> RowMajorBefore(gr.nodes[a], gr.nodes[b])
    ensures forall c :: c in gr.edges <==> Free(g, c)
    ensures forall c :: c in gr.edges ==> gr.edges[c] == Neighbours(g, c)
  {
    ScanRows(g, 0, EmptyGraph)
  }

  /** Nodes are listed in row-major order without repetition, and obstacle
      cells are neither nodes nor keys of the neighbour map. */
  lemma NodesDistinctAndNoObstacles(g: Grid, c: Cell, a: nat, b: nat)
    requires a < b < |BuildFromBoard(g).nodes|
    ensures BuildFromBoard(g).nodes[a] != BuildFromBoard(g).nodes[b]
    ensures InBounds(g, c) && At(g, c) == Obstacle ==>
              c !in BuildFromBoard(g).nodes && c !in BuildFromBoard(g).edges
  {
  }

  /** Every recorded neighbour is an in-bounds non-obstacle cell at
      Manhattan distance one, and a list has at most four distinct entries. */
  lemma EdgesAreLocal(g: Grid, a: Cell, b: Cell)
    ensures a in BuildFromBoard(g).edges ==> |BuildFromBoard(g).edges[a]| <= 4
    ensures a in BuildFromBoard(g).edges && b in BuildFromBoard(g).edges[a] ==>
              InBounds(g, b) && At(g, b) != Obstacle && Adjacent(a, b) && b in BuildFromBoard(g).edges
  {
  }

  /** A recorded neighbour lists the cell it was recorded for. */
  lemma EdgeReversed(g: Grid, a: Cell, b: Cell)
    ensures a in BuildFromBoard(g).edges && b in BuildFromBoard(g).edges[a] ==>
              b in BuildFromBoard(g).edges && a in BuildFromBoard(g).edges[b]
  {
    var gr := BuildFromBoard(g);
    if a in gr.edges && b in gr.edges[a] {
      assert b in Neighbours(g, a);
      assert Free(g, a) && Free(g, b) && Adjacent(b, a);
      assert a in Neighbours(g, b);
    }
  }

  /** Adjacency is symmetric. */
  lemma EdgesSymmetric(g: Grid, a: Cell, b: Cell)
    ensures (a in BuildFromBoard(g).edges && b in BuildFromBoard(g).edges[a]) <==>
            (b in BuildFromBoard(g).edges && a in BuildFromBoard(g).edges[b])
  {
    EdgeReversed(g, a, b);
    EdgeReversed(g, b, a);
  }

  /** Two orthogonally adjacent non-obstacle cells list each other. */
  lemma EdgesComplete(g: Grid, a: Cell, b: Cell)
    requires Free(g, a) && Free(g, b) && Adjacent(a, b)
    ensures a in BuildFromBoard(g).edges && b in BuildFromBoard(g).edges[a]
    ensures b in BuildFromBoard(g).edges && a in BuildFromBoard(g).edges[b]
  {
    assert Adjacent(b, a);
  }
}
