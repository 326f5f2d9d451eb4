/** Breadth-first search for a shortest path between two cells of a graph. */
module Search {
  import opened Grids
  import opened Graphs

  type Edges = map<Cell, seq<Cell>>

  /** `b` is listed among the neighbours of `a`; a cell without an entry
      has no neighbours, as `edges.get(current, [])` reads it. */
  predicate Edge(edges: Edges, a: Cell, b: Cell) {
    a in edges && b in edges[a]
  }

  /** Each cell of `p` is followed by one of its neighbours. */
  ghost predicate IsWalk(edges: Edges, p: seq<Cell>) {
    forall k :: 0 <= k < |p| - 1 ==> Edge(edges, p[k], p[k + 1])
  }

  /** `p` is a walk from `s` to `t`; a single cell is a walk from itself. */
  ghost predicate IsPathBetween(edges: Edges, p: seq<Cell>, s: Cell, t: Cell) {
    |p| > 0 && p[0] == s && p[|p| - 1] == t && IsWalk(edges, p)
  }

  ghost predicate Reachable(edges: Edges, s: Cell, t: Cell) {
    exists p :: IsPathBetween(edges, p, s, t)
  }

  predicate NoRepeats(p: seq<Cell>) {
    forall a, b :: 0 <= a < b < |p| ==> p[a] != p[b]
  }

  /** Every cell that appears in some neighbour list. */
  ghost function Targets(edges: Edges): set<Cell> {
    set a, b | a in edges && b in edges[a] :: b
  }

  /** `path[::-1]`. */
  function Reverse(s: seq<Cell>): (r: seq<Cell>)
    ensures |r| == |s|
    ensures forall k :: 0 <= k < |s| ==> r[k] == s[|s| - 1 - k]
  {
    if |s| == 0 then [] else Reverse(s[1..]) + [s[0]]
  }

  /** The parent link of the discovered cell `v`: the root has none, any
      other cell points to a discovered cell one level closer to the root
      that lists `v` as a neighbour. */
  ghost predicate LinkOk(edges: Edges, start: Cell, parent: map<Cell, Option<Cell>>, dist: map<Cell, nat>, v: Cell)
    requires v in parent && parent.Keys == dist.Keys
  {
    if v == start then parent[v] == None && dist[v] == 0
    else
      && parent[v].Some?
      && parent[v].value in parent
      && Edge(edges, parent[v].value, v)
      && dist[v] == dist[parent[v].value] + 1
  }

  /** The parent links of a search rooted at `start`. */
  ghost predicate ParentLinks(edges: Edges, start: Cell, parent: map<Cell, Option<Cell>>, dist: map<Cell, nat>) {
    && parent.Keys == dist.Keys
    && start in parent && dist[start] == 0
    && forall v {:trigger LinkOk(edges, start, parent, dist, v)} :: v in parent ==> LinkOk(edges, start, parent, dist, v)
  }

  /** The reconstruction at the end of `bfs`: follow the parent links from
      `goal` back to the root and reverse the cells collected. */
  method ParentChain(edges: Edges, start: Cell, parent: map<Cell, Option<Cell>>, ghost dist: map<Cell, nat>, goal: Cell)
    returns (path: seq<Cell>)
    requires ParentLinks(edges, start, parent, dist)
    requires goal in parent
    ensures IsPathBetween(edges, path, start, goal)
    ensures |path| == dist[goal] + 1
    ensures forall k :: 0 <= k < |path| ==> path[k] in dist && dist[path[k]] == k
    ensures forall k :: 0 < k < |path| ==> parent[path[k]] == Some(path[k - 1])
  {
    var rev: seq<Cell> := [];
    var current: Option<Cell> := Some(goal);
    while current.Some?
      invariant current.Some? ==> current.value in parent && dist[current.value] + |rev| == dist[goal]
      invariant current.None? ==> |rev| == dist[goal] + 1 && rev[|rev| - 1] == start
      invariant forall k :: 0 <= k < |rev| ==> rev[k] in parent && dist[rev[k]] + k == dist[goal]
      invariant current.Some? && |rev| > 0 ==> parent[rev[|rev| - 1]] == current
      invariant |rev| == 0 ==> current == Some(goal)
      invariant |rev| > 0 ==> rev[0] == goal
      invariant forall k :: 0 <= k < |rev| - 1 ==> Edge(edges, rev[k + 1], rev[k]) && parent[rev[k]] == Some(rev[k + 1])
      decreases if current.Some? then dist[current.value] + 1 else 0
    {
      var c := current.value;
      assert LinkOk(edges, start, parent, dist, c);
      if |rev| > 0 {
        assert LinkOk(edges, start, parent, dist, rev[|rev| - 1]);
      }
      rev := rev + [c];
      current := parent[c];
    }
    path := Reverse(rev);
    forall k | 0 <= k < |path| - 1
      ensures Edge(edges, path[k], path[k + 1]) && parent[path[k + 1]] == Some(path[k])
    {
      assert path[k] == rev[|rev| - 1 - k] && path[k + 1] == rev[|rev| - 1 - (k + 1)];
    }
  }

  /** Every discovered cell has a level, and levels never decrease along
      the discovery order (the FIFO discipline). */
  ghost predicate Levelled(order: seq<Cell>, dist: map<Cell, nat>) {
    && (forall b :: 0 <= b < |order| ==> order[b] in dist)
    && (forall a, b :: 0 <= a <= b < |order| ==> dist[order[a]] <= dist[order[b]])
  }

  /** `pos` records where `c` stands in the discovery order. */
  ghost predicate Placed(order: seq<Cell>, pos: map<Cell, nat>, c: Cell) {
    c in pos && pos[c] < |order| && order[pos[c]] == c
  }

  /** The visited cells are exactly the discovered ones, each placed by `pos`. */
  ghost predicate Indexed(order: seq<Cell>, visited: set<Cell>, pos: map<Cell, nat>) {
    && (forall b :: 0 <= b < |order| ==> order[b] in visited)
    && (forall c {:trigger Placed(order, pos, c)} :: c in visited ==> Placed(order, pos, c))
  }

  /** Each of the first `head` discovered cells has had its neighbours
      discovered, at most one level further down. */
  ghost predicate ExpandedBelow(edges: Edges, order: seq<Cell>, head: nat, dist: map<Cell, nat>)
    requires head <= |order|
    requires Levelled(order, dist)
  {
    forall a, w :: 0 <= a < head && Edge(edges, order[a], w) ==>
      w in dist && dist[w] <= dist[order[a]] + 1
  }

  /** Along any walk from the root, the cells within the level of the next
      cell to expand have all been discovered no deeper than their position. */
  lemma {:induction false} WalkLevels(edges: Edges, order: seq<Cell>, head: nat, dist: map<Cell, nat>,
                                      pos: map<Cell, nat>, p: seq<Cell>, k: nat)
    requires head < |order|
    requires Levelled(order, dist) && ExpandedBelow(edges, order, head, dist) && Indexed(order, dist.Keys, pos)
    requires dist[order[0]] == 0
    requires |p| > 0 && p[0] == order[0] && IsWalk(edges, p)
    requires k < |p| && k <= dist[order[head]]
    ensures p[k] in dist && dist[p[k]] <= k
  {
    if k > 0 {
      WalkLevels(edges, order, head, dist, pos, p, k - 1);
      assert Placed(order, pos, p[k - 1]);
      var a := pos[p[k - 1]];
      assert Edge(edges, order[a], p[k]);
    }
  }

  /** When the next cell to expand is `goal`, no walk from the root to
      `goal` is shorter than `goal`'s level. */
  lemma NoShorterWalk(edges: Edges, order: seq<Cell>, head: nat, dist: map<Cell, nat>,
                      pos: map<Cell, nat>, p: seq<Cell>, goal: Cell)
    requires head < |order| && order[head] == goal
    requires Levelled(order, dist) && ExpandedBelow(edges, order, head, dist) && Indexed(order, dist.Keys, pos)
    requires dist[order[0]] == 0
    requires IsPathBetween(edges, p, order[0], goal)
    ensures dist[goal] + 1 <= |p|
  {
    if |p| - 1 < dist[goal] {
      WalkLevels(edges, order, head, dist, pos, p, |p| - 1);
    }
  }

  /** Once every discovered cell has been expanded, no walk from the root
      leaves the discovered cells. */
  lemma {:induction false} WalkStaysDiscovered(edges: Edges, order: seq<Cell>, dist: map<Cell, nat>,
                                               pos: map<Cell, nat>, p: seq<Cell>, k: nat)
    requires Levelled(order, dist) && ExpandedBelow(edges, order, |order|, dist) && Indexed(order, dist.Keys, pos)
    requires |p| > 0 && p[0] in dist && IsWalk(edges, p)
    requires k < |p|
    ensures p[k] in dist && Placed(order, pos, p[k])
  {
    if k > 0 {
      WalkStaysDiscovered(edges, order, dist, pos, p, k - 1);
      assert Placed(order, pos, p[k - 1]);
      var a := pos[p[k - 1]];
      assert Edge(edges, order[a], p[k]);
    }
  }

  lemma SubsetCard(a: set<Cell>, b: set<Cell>)
    requires a <= b
    ensures |a| <= |b|
  {
    if a != {} {
      var x :| x in a;
      SubsetCard(a - {x}, b - {x});
    }
  }

  /** A parent link for a newly discovered neighbour keeps the links well formed. */
  lemma AddChild(edges: Edges, start: Cell, parent: map<Cell, Option<Cell>>, dist: map<Cell, nat>, u: Cell, w: Cell)
    requires ParentLinks(edges, start, parent, dist)
    requires u in parent && w !in parent && Edge(edges, u, w)
    ensures ParentLinks(edges, start, parent[w := Some(u)], dist[w := dist[u] + 1])
  {
    var parent', dist' := parent[w := Some(u)], dist[w := dist[u] + 1];
    forall v | v in parent' ensures LinkOk(edges, start, parent', dist', v) {
      if v != w {
        assert LinkOk(edges, start, parent, dist, v);
      }
    }
  }

  /** The bookkeeping shared by every state of the search: `visited` holds
      the discovered cells `order`, each discovered once and placed by
      `pos`, all drawn from `universe`, each with a parent link and a level. */
  ghost predicate Discovered(edges: Edges, start: Cell, order: seq<Cell>, visited: set<Cell>,
                             parent: map<Cell, Option<Cell>>, dist: map<Cell, nat>,
                             pos: map<Cell, nat>, universe: set<Cell>)
  {
    && 0 < |order| && order[0] == start
    && Indexed(order, visited, pos)
    && |visited| == |order|
    && visited <= universe
    && parent.Keys == visited
    && ParentLinks(edges, start, parent, dist)
  }

  /** Discovering one more cell keeps the bookkeeping. */
  lemma Discover(edges: Edges, start: Cell, order: seq<Cell>, visited: set<Cell>,
                 parent: map<Cell, Option<Cell>>, dist: map<Cell, nat>,
                 pos: map<Cell, nat>, universe: set<Cell>, u: Cell, w: Cell)
    requires Discovered(edges, start, order, visited, parent, dist, pos, universe)
    requires u in visited && w !in visited && w in universe && Edge(edges, u, w)
    ensures Discovered(edges, start, order + [w], visited + {w}, parent[w := Some(u)],
                       dist[w := dist[u] + 1], pos[w := |order|], universe)
  {
    AddChild(edges, start, parent, dist, u, w);
    var order', visited', pos' := order + [w], visited + {w}, pos[w := |order|];
    forall c | c in visited' ensures Placed(order', pos', c) {
      if c != w {
        assert Placed(order, pos, c);
        assert order'[pos[c]] == order[pos[c]];
      }
    }
    assert forall b :: 0 <= b < |order| ==> order'[b] == order[b];
  }

  /** The neighbour list `edges.get(c, [])`. */
  function NeighbourList(edges: Edges, c: Cell): (r: seq<Cell>)
    ensures forall w :: w in r <==> Edge(edges, c, w)
  {
    if c in edges then edges[c] else []
  }

  /** The cells the inner loop of `bfs` appends when it walks `nbrs` with
      `visited` already marked: each cell not yet visited, at its first
      occurrence, in list order. */
  function FreshCells(nbrs: seq<Cell>, visited: set<Cell>): seq<Cell>
    decreases |nbrs|
  {
    if |nbrs| == 0 then []
    else if nbrs[0] in visited then FreshCells(nbrs[1..], visited)
    else [nbrs[0]] + FreshCells(nbrs[1..], visited + {nbrs[0]})
  }

  /** The appended cells are exactly the listed cells not yet visited,
      each appended once. */
  lemma {:induction false} FreshCellsSpec(nbrs: seq<Cell>, visited: set<Cell>)
    ensures forall w :: w in FreshCells(nbrs, visited) <==> w in nbrs && w !in visited
    ensures NoRepeats(FreshCells(nbrs, visited))
    decreases |nbrs|
  {
    if |nbrs| > 0 {
      var x := nbrs[0];
      assert nbrs == [x] + nbrs[1..];
      if x in visited {
        FreshCellsSpec(nbrs[1..], visited);
      } else {
        FreshCellsSpec(nbrs[1..], visited + {x});
        var rest := FreshCells(nbrs[1..], visited + {x});
        assert FreshCells(nbrs, visited) == [x] + rest;
        assert x !in rest;
        forall a, b | 0 <= a < b < |[x] + rest| ensures ([x] + rest)[a] != ([x] + rest)[b] {
          if a > 0 {
            assert ([x] + rest)[a] == rest[a - 1] && ([x] + rest)[b] == rest[b - 1];
          } else {
            assert ([x] + rest)[b] == rest[b - 1];
          }
        }
      }
    }
  }

  /** One step of `FreshCells` from position `k` of the list. */
  lemma FreshCellsStep(nbrs: seq<Cell>, k: nat, visited: set<Cell>)
    requires k < |nbrs|
    ensures FreshCells(nbrs[k..], visited) ==
              if nbrs[k] in visited then FreshCells(nbrs[k + 1..], visited)
              else [nbrs[k]] + FreshCells(nbrs[k + 1..], visited + {nbrs[k]})
  {
    assert nbrs[k..][1..] == nbrs[k + 1..];
  }

  /** One pass of the inner loop of `bfs`: a neighbour of `current` not
      yet visited is marked visited, given `current` as parent and appended
      to the queue; a visited one changes nothing. */
  method Visit(edges: Edges, current: Cell, w: Cell, order: seq<Cell>, visited: set<Cell>,
               parent: map<Cell, Option<Cell>>, ghost dist: map<Cell, nat>,
               ghost pos: map<Cell, nat>, ghost start: Cell, ghost universe: set<Cell>)
    returns (order': seq<Cell>, visited': set<Cell>, parent': map<Cell, Option<Cell>>,
             ghost dist': map<Cell, nat>, ghost pos': map<Cell, nat>)
    requires Discovered(edges, start, order, visited, parent, dist, pos, universe)
    requires current in visited && Edge(edges, current, w)
    requires Targets(edges) <= universe
    ensures Discovered(edges, start, order', visited', parent', dist', pos', universe)
    ensures visited' == visited + {w}
    ensures w in visited ==> order' == order && visited' == visited
    ensures w !in visited ==> order' == order + [w]
    ensures forall c :: c in parent ==> c in parent' && parent'[c] == parent[c]
    ensures forall c :: c in dist ==> c in dist' && dist'[c] == dist[c]
    ensures w !in visited ==> parent'[w] == Some(current) && dist'[w] == dist[current] + 1
  {
    if w in visited {
      return order, visited, parent, dist, pos;
    }
    assert w in Targets(edges);
    Discover(edges, start, order, visited, parent, dist, pos, universe, current, w);
    order', visited', parent' := order + [w], visited + {w}, parent[w := Some(current)];
    dist', pos' := dist[w := dist[current] + 1], pos[w := |order|];
  }

  /** The inner loop of `bfs` over a list `nbrs` of neighbours of `current`:
      the cells appended are those of `FreshCells`, each with `current` as
      parent and one level below it; every listed cell ends up visited. */
  method VisitAll(edges: Edges, current: Cell, nbrs: seq<Cell>, order: seq<Cell>, visited: set<Cell>,
                  parent: map<Cell, Option<Cell>>, ghost dist: map<Cell, nat>,
                  ghost pos: map<Cell, nat>, ghost start: Cell, ghost universe: set<Cell>)
    returns (order': seq<Cell>, visited': set<Cell>, parent': map<Cell, Option<Cell>>,
             ghost dist': map<Cell, nat>, ghost pos': map<Cell, nat>)
    requires Discovered(edges, start, order, visited, parent, dist, pos, universe)
    requires current in visited && forall m :: 0 <= m < |nbrs| ==> Edge(edges, current, nbrs[m])
    requires Targets(edges) <= universe
    requires forall c :: c in dist ==> dist[c] <= dist[current] + 1
    ensures Discovered(edges, start, order', visited', parent', dist', pos', universe)
    ensures order' == order + FreshCells(nbrs, visited)
    ensures forall c :: c in parent ==> c in parent' && parent'[c] == parent[c]
    ensures forall c :: c in dist ==> c in dist' && dist'[c] == dist[c]
    ensures forall c :: c in dist' ==> dist'[c] <= dist[current] + 1
    ensures forall m :: 0 <= m < |nbrs| ==> nbrs[m] in visited'
    ensures forall b :: |order| <= b < |order'| ==>
              && order'[b] in dist' && dist'[order'[b]] == dist[current] + 1
              && order'[b] in parent' && parent'[order'[b]] == Some(current)
    decreases |nbrs|
  {
    if |nbrs| == 0 {
      return order, visited, parent, dist, pos;
    }
    var o, v, p, d, q := Visit(edges, current, nbrs[0], order, visited, parent, dist, pos, start, universe);
    assert d[current] == dist[current];
    order', visited', parent', dist', pos' := VisitAll(edges, current, nbrs[1..], o, v, p, d, q, start, universe);
    forall m | 0 <= m < |nbrs| ensures nbrs[m] in visited' {
      if m > 0 {
        assert nbrs[m] == nbrs[1..][m - 1];
      }
    }
    if nbrs[0] in visited {
      assert v == visited;
    } else {
      AppendOne(order, nbrs[0], FreshCells(nbrs[1..], v));
    }
  }


  /** Appending one cell and then a sequence is appending both at once. */
  lemma AppendOne(s: seq<Cell>, x: Cell, t: seq<Cell>)
    ensures (s + [x]) + t == s + ([x] + t)
  {
  }

  /** The inner loop of `bfs`: every neighbour of `current` not yet visited
      is marked visited, given `current` as parent and appended to the
      queue, in the order of the neighbour list. */
  method ExpandNeighbours(edges: Edges, current: Cell, order: seq<Cell>, visited: set<Cell>,
                          parent: map<Cell, Option<Cell>>, ghost dist: map<Cell, nat>,
                          ghost pos: map<Cell, nat>, ghost start: Cell, ghost universe: set<Cell>)
    returns (order': seq<Cell>, visited': set<Cell>, parent': map<Cell, Option<Cell>>,
             ghost dist': map<Cell, nat>, ghost pos': map<Cell, nat>)
    requires Discovered(edges, start, order, visited, parent, dist, pos, universe)
    requires current in visited
    requires Targets(edges) <= universe
    requires forall c :: c in dist ==> dist[c] <= dist[current] + 1
    ensures Discovered(edges, start, order', visited', parent', dist', pos', universe)
    ensures |order| <= |order'| && forall b :: 0 <= b < |order| ==> order'[b] == order[b]
    ensures forall c :: c in dist ==> c in dist' && dist'[c] == dist[c]
    ensures forall b :: |order| <= b < |order'| ==> order'[b] in dist' && dist'[order'[b]] == dist[current] + 1
    ensures forall w :: Edge(edges, current, w) ==> w in visited' && dist'[w] <= dist[current] + 1
    ensures order'[|order|..] == FreshCells(NeighbourList(edges, current), visited)
    ensures forall b :: |order| <= b < |order'| ==> order'[b] in parent' && parent'[order'[b]] == Some(current)
    ensures forall b :: |order| <= b < |order'| ==> Edge(edges, current, order'[b]) && order'[b] !in visited
    ensures forall c :: c in parent ==> c in parent' && parent'[c] == parent[c]
  {
    var nbrs := NeighbourList(edges, current);
    order', visited', parent', dist', pos' := VisitAll(edges, current, nbrs, order, visited, parent, dist, pos, start, universe);
    assert order'[|order|..] == FreshCells(nbrs, visited);
    FreshCellsSpec(nbrs, visited);
    forall b | |order| <= b < |order'| ensures Edge(edges, current, order'[b]) && order'[b] !in visited {
      assert order'[b] in FreshCells(nbrs, visited);
    }
    forall w | Edge(edges, current, w) ensures w in visited' && dist'[w] <= dist[current] + 1 {
      var m :| 0 <= m < |nbrs| && nbrs[m] == w;
      assert w in parent';
    }
  }

  /** After `order[head]` has been expanded, the queue invariants hold with
      the head one further on. */
  lemma AdvanceHead(edges: Edges, order: seq<Cell>, order': seq<Cell>, head: nat,
                    dist: map<Cell, nat>, dist': map<Cell, nat>)
    requires head < |order| <= |order'| && forall b :: 0 <= b < |order| ==> order'[b] == order[b]
    requires Levelled(order, dist) && ExpandedBelow(edges, order, head, dist)
    requires forall b :: head <= b < |order| ==> dist[order[b]] <= dist[order[head]] + 1
    requires forall c :: c in dist ==> c in dist' && dist'[c] == dist[c]
    requires forall b :: |order| <= b < |order'| ==> order'[b] in dist' && dist'[order'[b]] == dist[order[head]] + 1
    requires forall w :: Edge(edges, order[head], w) ==> w in dist' && dist'[w] <= dist[order[head]] + 1
    ensures Levelled(order', dist')
    ensures ExpandedBelow(edges, order', head + 1, dist')
    ensures head + 1 < |order'| ==> forall b :: head + 1 <= b < |order'| ==> dist'[order'[b]] <= dist'[order'[head + 1]] + 1
  {
    var level := dist[order[head]];
    assert forall b :: 0 <= b < |order'| ==> order'[b] in dist' && dist'[order'[b]] <= level + 1;
    assert forall b :: head <= b < |order'| ==> level <= dist'[order'[b]];
    assert Levelled(order', dist');
    forall a, w | 0 <= a < head + 1 && Edge(edges, order'[a], w)
      ensures w in dist' && dist'[w] <= dist'[order'[a]] + 1
    {
      if a < head {
        assert order'[a] == order[a];
      }
    }
  }

  /** Before `order[head]` is expanded, no discovered cell lies more than
      one level below it. */
  lemma LevelsAroundHead(order: seq<Cell>, visited: set<Cell>, head: nat, dist: map<Cell, nat>, pos: map<Cell, nat>)
    requires head < |order|
    requires Levelled(order, dist) && Indexed(order, visited, pos) && visited == dist.Keys
    requires forall b :: head <= b < |order| ==> dist[order[b]] <= dist[order[head]] + 1
    ensures forall c :: c in dist ==> dist[c] <= dist[order[head]] + 1
  {
    forall c | c in dist ensures dist[c] <= dist[order[head]] + 1 {
      assert Placed(order, pos, c);
    }
  }

  /** Every walk from the root to the expanded `goal` is at least as long
      as the level of `goal` plus one. */
  lemma ShortestToGoal(edges: Edges, order: seq<Cell>, head: nat, dist: map<Cell, nat>,
                       pos: map<Cell, nat>, goal: Cell)
    requires head < |order| && order[head] == goal
    requires Levelled(order, dist) && ExpandedBelow(edges, order, head, dist) && Indexed(order, dist.Keys, pos)
    requires dist[order[0]] == 0
    ensures goal in dist
    ensures forall p :: IsPathBetween(edges, p, order[0], goal) ==> dist[goal] + 1 <= |p|
  {
    forall p | IsPathBetween(edges, p, order[0], goal) ensures dist[goal] + 1 <= |p| {
      NoShorterWalk(edges, order, head, dist, pos, p, goal);
    }
  }

  /** When the queue runs empty before `goal` is expanded, `goal` cannot be
      reached from the root. */
  lemma ExhaustedUnreachable(edges: Edges, start: Cell, goal: Cell, order: seq<Cell>, dist: map<Cell, nat>, pos: map<Cell, nat>)
    requires 0 < |order| && order[0] == start && start in dist
    requires Levelled(order, dist) && Indexed(order, dist.Keys, pos)
    requires ExpandedBelow(edges, order, |order|, dist)
    requires forall a :: 0 <= a < |order| ==> order[a] != goal
    ensures !Reachable(edges, start, goal)
  {
    if Reachable(edges, start, goal) {
      var p :| IsPathBetween(edges, p, start, goal);
      WalkStaysDiscovered(edges, order, dist, pos, p, |p| - 1);
      assert false;
    }
  }

  /** The state of the queue loop before the cell at `head` is popped. */
  ghost predicate Searching(edges: Edges, start: Cell, goal: Cell, order: seq<Cell>, head: nat, visited: set<Cell>,
                            parent: map<Cell, Option<Cell>>, dist: map<Cell, nat>,
                            pos: map<Cell, nat>, universe: set<Cell>)
  {
    && head <= |order|
    && Discovered(edges, start, order, visited, parent, dist, pos, universe)
    && Levelled(order, dist)
    && (head < |order| ==> forall b :: head <= b < |order| ==> dist[order[b]] <= dist[order[head]] + 1)
    && ExpandedBelow(edges, order, head, dist)
    && (forall a :: 0 <= a < head ==> order[a] != goal)
  }

  /** One turn of the queue loop that does not meet `goal`: expand the
      front cell and move past it. */
  method Step(edges: Edges, start: Cell, goal: Cell, order: seq<Cell>, head: nat, visited: set<Cell>,
              parent: map<Cell, Option<Cell>>, ghost dist: map<Cell, nat>,
              ghost pos: map<Cell, nat>, ghost universe: set<Cell>)
    returns (order': seq<Cell>, visited': set<Cell>, parent': map<Cell, Option<Cell>>,
             ghost dist': map<Cell, nat>, ghost pos': map<Cell, nat>)
    requires Searching(edges, start, goal, order, head, visited, parent, dist, pos, universe)
    requires head < |order| && order[head] != goal
    requires Targets(edges) <= universe
    ensures Searching(edges, start, goal, order', head + 1, visited', parent', dist', pos', universe)
    ensures visited <= visited'
  {
    var current := order[head];
    LevelsAroundHead(order, visited, head, dist, pos);
    order', visited', parent', dist', pos' := ExpandNeighbours(edges, current, order, visited, parent, dist, pos, start, universe);
    AdvanceHead(edges, order, order', head, dist, dist');
    assert forall a :: 0 <= a <= head ==> order'[a] == order[a];
  }

  /** The queue loop of `bfs`: pop the front cell; stop when it is `goal`,
      otherwise expand it. The discovered cells are kept in `order`, and the
      FIFO queue is its suffix from `head`. On success the parent links
      lead from `goal` back to `start` in as many steps as a shortest walk. */
  method Explore(edges: Edges, start: Cell, goal: Cell)
    returns (found: bool, parent: map<Cell, Option<Cell>>, ghost dist: map<Cell, nat>)
    ensures found ==> goal in parent && ParentLinks(edges, start, parent, dist)
    ensures found ==> forall p :: IsPathBetween(edges, p, start, goal) ==> dist[goal] + 1 <= |p|
    ensures !found ==> !Reachable(edges, start, goal)
  {
    var order: seq<Cell> := [start];
    var head := 0;
    var visited: set<Cell> := {start};
    parent := map[start := None];
    dist := map[start := 0];
    ghost var pos: map<Cell, nat> := map[start := 0];
    ghost var universe := {start} + Targets(edges);
    assert LinkOk(edges, start, parent, dist, start);
    assert Placed(order, pos, start);
    while head < |order|
      invariant Searching(edges, start, goal, order, head, visited, parent, dist, pos, universe)
      decreases |universe| - head
    {
      SubsetCard(visited, universe);
      if order[head] == goal {
        found := true;
        ShortestToGoal(edges, order, head, dist, pos, goal);
        return;
      }
      order, visited, parent, dist, pos := Step(edges, start, goal, order, head, visited, parent, dist, pos, universe);
      head := head + 1;
    }
    found := false;
    ExhaustedUnreachable(edges, start, goal, order, dist, pos);
  }

  /** `bfs(graph, start, goal)`: a shortest path from `start` to `goal`, or
      the empty sequence when there is none. */
  method Bfs(graph: Graph, start: Cell, goal: Cell) returns (path: seq<Cell>)
    ensures start == goal ==> path == [start]
    ensures path != [] ==> IsPathBetween(graph.edges, path, start, goal)
    ensures NoRepeats(path)
    ensures path == [] <==> !Reachable(graph.edges, start, goal)
    ensures path != [] ==> forall p :: IsPathBetween(graph.edges, p, start, goal) ==> |path| <= |p|
  {
    var found, parent, dist := Explore(graph.edges, start, goal);
    if found {
      path := ParentChain(graph.edges, start, parent, dist, goal);
      if start == goal {
        assert IsPathBetween(graph.edges, [start], start, goal);
      }
    } else {
      path := [];
      if start == goal {
        assert IsPathBetween(graph.edges, [start], start, goal);
      }
    }
  }

  /** One step between orthogonally adjacent non-obstacle cells of `g`. */
  predicate GridStep(g: Grid, a: Cell, b: Cell) {
    Free(g, a) && Free(g, b) && Adjacent(a, b)
  }

  /** On a board's graph, every step of a walk moves between orthogonally
      adjacent non-obstacle cells. */
  lemma BoardWalkIsGridPath(g: Grid, p: seq<Cell>)
    requires IsWalk(BuildFromBoard(g).edges, p)
    ensures forall k :: 0 <= k < |p| - 1 ==> GridStep(g, p[k], p[k + 1])
  {
    forall k | 0 <= k < |p| - 1 ensures GridStep(g, p[k], p[k + 1]) {
      assert Edge(BuildFromBoard(g).edges, p[k], p[k + 1]);
    }
  }
}
