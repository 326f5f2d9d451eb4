# Grid path finder — a Dafny model

The system finds shortest routes on a rectangular board. Each cell holds
one of these markers:

| value | meaning |
|---|---|
| `0` | empty |
| `1` | start |
| `2` | goal |
| `-1` | obstacle |
| `3` | path, set only when a route is drawn |

The model covers four parts:

- **Board to graph** (`Graphs`, graph.dfy). A board becomes a graph. Its nodes are the non-obstacle cells, in row-major order. Each node's neighbour list holds the non-obstacle cells one step away, tried in the order up, down, left, right.
- **Breadth-first search** (`Search`, bfs.dfy). It runs from a start cell to a goal cell over the neighbour map. It returns the path found by following parent links back from the goal, or the empty sequence.
- **Board handling** (`Boards`, board.dfy):
  - building a board from its configuration;
  - re-deriving a board's attributes from a marker layout;
  - drawing a path onto a copy of a board.
- **Input sanitising** (`Sanitise`, sanitise.dfy). Every character except `0`-`9` and `,` is removed from text.

Shared vocabulary lives in `Grids` (grids.dfy): cells, grids, marker values, bounds, row-major order and Manhattan adjacency.

How the source's structures map onto the model:

- **The search queue** is modelled as the sequence `order` of every cell ever enqueued, plus an index `head`. The live queue is `order[head..]`.
  - A ghost map `dist` records each discovered cell's level. The proofs rely on it, and it carries the minimality argument.
  - Termination is measured against the finite set of cells that appear in the neighbour map.
- **Random draws.** Board construction takes as a parameter `picks`, the positions its re-draw loop ended up accepting, in order.
- **Indexing in path drawing.**
  - Path drawing uses positional indexing. A negative index counts from the end of its axis, and any other out-of-range index is an error.
  - The drawn board is re-derived from the marked layout. So drawing fails when the layout lacks a start marker or a goal marker. That happens whenever start and goal coincide, because the goal marker overwrites the start marker.

Two facts about board construction shape the model:

- Construction validates nothing: not the dimensions, not start ≠ goal, and not the obstacle count.
- Obstacle positions are not kept distinct, so a board can hold fewer obstacles than its recorded `n`. See Findings.

## Model

| member | source | states |
|---|---|---|
| `Graphs.Neighbours` | src/logic/graph.py:35-39 | A cell's list holds exactly the in-bounds non-obstacle cells at Manhattan distance one. It has at most four entries, has no repeats, and follows the up, down, left, right order. |
| `Graphs.BuildFromBoard` | src/logic/graph.py:21-39 | The nodes are exactly the non-obstacle cells, in strictly increasing row-major order. The neighbour map has an entry for exactly those cells, and each entry is that cell's neighbour list. |
| `Graphs.NodesDistinctAndNoObstacles` | src/logic/graph.py:27-34 | No node is listed twice. An obstacle cell is neither a node nor a key of the neighbour map. |
| `Graphs.EdgesAreLocal` | src/logic/graph.py:36-39 | Every recorded neighbour is an in-bounds non-obstacle cell, adjacent to its owner and itself a key of the map. Every list has at most four entries. |
| `Graphs.EdgesSymmetric` | src/logic/graph.py:36-39 | Adjacency in the built graph is symmetric, in both directions. |
| `Graphs.EdgesComplete` | src/logic/graph.py:36-39 | Any two adjacent non-obstacle cells list each other. |
| `Search.Reverse` | src/logic/bfs.py:23 | The result has the input's length, and its k-th element is the input's k-th element from the end. |
| `Search.ParentChain` | src/logic/bfs.py:18-23 | Following parent links from a discovered goal and reversing gives a walk from start to goal. Each cell after the first has the cell before it as its recorded parent. The walk's length is one more than the goal's level, and the k-th cell sits at level k. |
| `Search.ShortestToGoal` | src/logic/bfs.py:15-18 | When the goal is popped from the queue, no walk from the start to it is shorter than its level plus one. |
| `Search.ExhaustedUnreachable` | src/logic/bfs.py:15-31 | Once the queue empties without popping the goal, no walk leads from the start to the goal. |
| `Search.NeighbourList` | src/logic/bfs.py:25 | A cell's list holds exactly the cells it has an edge to; a cell without an entry has none. |
| `Search.FreshCellsSpec` | src/logic/bfs.py:25-29 | The cells the loop over a neighbour list appends are exactly the listed cells not yet visited, and none is appended twice. |
| `Search.Visit` | src/logic/bfs.py:26-29 | A neighbour not yet visited becomes visited, gets the expanded cell as parent, sits one level below it and is appended to the queue. A visited neighbour changes nothing. Earlier parent links and levels are kept. |
| `Search.VisitAll` | src/logic/bfs.py:25-29 | Walking a list of neighbours appends exactly the not-yet-visited cells, at their first occurrence and in list order. Each appended cell has the expanded cell as parent and is one level below it. Every listed cell ends up visited, and earlier parent links and levels are kept. |
| `Search.ExpandNeighbours` | src/logic/bfs.py:25-29 | Expanding a cell only appends to the queue. The appended cells are exactly its not-yet-visited neighbours, in the order of its neighbour list. Each has the expanded cell as parent and is one level below it. Earlier parent links and levels are unchanged. Afterwards every neighbour of the expanded cell is visited, at most one level below it. The discovery invariant, with parent links and positions, still holds. |
| `Search.Step` | src/logic/bfs.py:25-29 | Expanding the popped cell keeps every search invariant. These are: levels monotone along the queue, at most two levels in the queue, every neighbour of an expanded cell discovered, and parent links one level apart. |
| `Search.Explore` | src/logic/bfs.py:11-29 | The queue loop terminates. If it reports the goal found, the parent links reach the goal at a shortest distance. If it reports not found, the goal is unreachable. |
| `Search.Bfs` | src/logic/bfs.py:3-31 | If start equals goal, the result is `[start]`. Otherwise a non-empty result runs from start to goal along recorded edges, and no cell repeats. The result is empty exactly when the goal is unreachable. No walk is shorter than the result. |
| `Search.BoardWalkIsGridPath` | src/logic/bfs.py:25-26 | On a board's graph, every step of a walk moves between adjacent non-obstacle cells. |
| `Boards.FirstMarker` | src/logic/board.py:38-39 | It finds a cell exactly when some cell holds the marker. That cell is the first holder of the marker in row-major order. |
| `Boards.BoardFromGrid` | src/logic/board.py:30-41 | It succeeds exactly when both a start and a goal marker exist. A missing start is reported before a missing goal. On success it gives the layout's dimensions, the first start and first goal cells in row-major order, the number of obstacle cells, and the graph of the layout. |
| `Boards.FirstMarkerAgrees` | src/logic/board.py:38-39 | Two layouts that agree on where a marker is have the same first marker cell. |
| `Boards.Resolve` | src/logic/board.py:106-107 | A positional index resolves exactly when it lies in `[-n, n)`. A negative index counts from the end of its axis. |
| `Boards.Overlay` | src/logic/board.py:104-107 | It fails exactly when some path entry lies outside the board. Otherwise the shape is unchanged. A cell becomes 3 when it was 0 and some path entry designates it, and keeps its value otherwise. |
| `Boards.OverlayKeepsMarkers` | src/logic/board.py:106-107 | The overlay leaves the start, goal and obstacle cells exactly where they were. |
| `Boards.DrawPath` | src/logic/board.py:93-109 | It succeeds exactly when the path stays on the board and the layout has both a start and a goal marker. On success the new board holds the overlaid layout, with the original's shape, and its graph is the graph of that layout. Its dimensions, first start, first goal and obstacle count are those re-derived from the original layout. That count can differ from the board's recorded `n` (see Findings). |
| `Boards.DrawOnBuiltBoard` | src/logic/board.py:43-109 | Drawing an on-board path onto a constructed board with distinct start and goal succeeds. The drawn board has the configured start and goal, and its obstacle count is the number of distinct accepted positions, not the configured `n`. |
| `Boards.MarkedLayout` | src/logic/board.py:53-55 | Start and goal markers are placed on an all-empty layout. The goal marker wins when the two cells coincide. |
| `Boards.PlaceObstacles` | src/logic/board.py:63 | After the writes, a cell holds an obstacle when some accepted position designates it, and keeps its value otherwise. The shape is unchanged. |
| `Boards.AcceptedAsWritten` | src/logic/board.py:60-64 | The re-draw loop as written accepts a draw exactly when it is neither the start nor the goal, whatever was placed before. The recorded list holds bare row numbers (line 64), and the test at line 60 looks for a `(row, col)` pair in it. A pair never equals an integer, so that part of the test never refuses anything. |
| `Boards.AcceptedDistinct` | src/logic/board.py:60 | With positions recorded as pairs, the same test accepts a draw exactly when it is neither an earlier obstacle position nor the start nor the goal. |
| `Boards.ObstacleLayout` | src/logic/board.py:53-64 | Obstacles land exactly on the accepted positions and never on the start or goal cell. Every other cell is empty. |
| `Boards.BuildBoard` | src/logic/board.py:43-66 | The board has the requested dimensions, with the goal marker at the goal and the start marker at a distinct start. Its obstacle cells are exactly the set of accepted positions, so there are at most `n` of them. The recorded `n` is the configured one. |
| `Boards.RepeatedPickAccepted` | src/logic/board.py:60-64 | A position drawn a second time passes the re-draw test as written, although the test with pairs recorded refuses it. |
| `Boards.RepeatedPickLosesObstacle` | src/logic/board.py:60-64 | A free position drawn twice leaves the board with one obstacle where two were asked for. |
| `Boards.BuildBoardDistinct` | src/logic/board.py:56-64 | When the re-draw test also refuses earlier positions, exactly `n` obstacle cells are placed. |
| `Sanitise.CleanString` | src/ui/utils.py:5-6 | The output holds only digits and commas and is no longer than the input. |
| `Sanitise.CleanCounts` | src/ui/utils.py:5-6 | Every digit and comma of the input survives as often as it occurs, and no other character survives. |
| `Sanitise.CleanIsSubsequence` | src/ui/utils.py:5-6 | The output is a subsequence of the input: the order of kept characters is preserved. |
| `Sanitise.CleanKeepsClean` | src/ui/utils.py:5-6 | Text made only of digits and commas passes unchanged. |
| `Sanitise.CleanDropsUnkept` | src/ui/utils.py:5-6 | Text containing any other character comes out strictly shorter. |
| `Sanitise.CleanIdentity` | src/ui/utils.py:5-6 | The filter leaves text unchanged exactly when the text is only digits and commas. |
| `Sanitise.CleanIdempotent` | src/ui/utils.py:5-6 | Cleaning twice is the same as cleaning once. |
| `Sanitise.CleanConcat` | src/ui/utils.py:5-6 | Cleaning distributes over concatenation. |

## Left out

- The graphical and command-line front ends, the program entry point and the build script are not part of this model.
- `Board.info`, `Board.display` and `Graph.display_graph` only print, so they are not modelled.
- The random number source is not modelled. `_build_board` receives its accepted draws as the parameter `picks`.
  - The draws the re-draw loop rejected leave no trace, so they are not represented.
  - When every cell is the start or the goal, the re-draw loop cannot finish for any `n > 0`. In the model this shows up as a precondition no `picks` can meet.
- Boards.BuildBoard: requires start, goal and every accepted position to lie inside the board, and requires `n` to equal the number of accepted positions. It therefore does not model:
  - array indexing that wraps negative coordinates;
  - the error a coordinate past the edge raises;
  - a negative `n`, which places nothing.
- The `Board` constructor's default arguments are not modelled.
- Boards.DrawPath: does not model the throwaway default board that `draw_path` builds before re-deriving the result. That board is 5 by 5 with no obstacles, and its attributes are all overwritten.
- The layout's number type is not modelled: cells are `int` throughout. The source builds the layout in floating point and converts it to integers, and every value it holds is a small whole number.
- Search.Bfs: reads only the graph's neighbour map. It does not depend on the node list, just as the source reads only the neighbour map.
- Rows of a layout are assumed to have equal length wherever a layout is re-derived. The source's arrays are always rectangular.

## Findings

| source | as written | input that shows it | evidently intended | confidence | as-written member | corrected member |
|---|---|---|---|---|---|---|
| src/logic/board.py:64 | The loop records only the row number of each obstacle. The re-draw test compares the drawn `(row, col)` pair against that list of integers, which never matches, so an earlier obstacle position can be drawn again. | A 1-by-4 board, start `(0,0)`, goal `(0,3)`, `n = 2`, with both draws `(0,1)`. The result is one obstacle, while `n` is recorded as 2. | Record the `(row, col)` pair so that `n` distinct obstacle cells are placed. | high; not executed | `Boards.RepeatedPickLosesObstacle` | `Boards.BuildBoardDistinct` |
