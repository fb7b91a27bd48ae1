/**
 * `a_star` of search_algorithms.py:69-97. The heap is a sequence of nodes from
 * which the least node is removed; "least" is the order in which Python
 * compares the heap's tuples (priority, (row, col), path). A cell is marked
 * visited when it is popped, and the count is bumped before that check, so
 * stale duplicates are counted too. The priority pushed for a neighbour is the
 * popped node's priority plus 1 plus the neighbour's heuristic, so the
 * heuristic values of all earlier cells pile up in it: it is not g + h, and
 * the path found need not be shortest.
 */
module AStarSearch {
  import opened Grids
  import opened SearchAlgorithms

  /** A heap entry: priority, cell, and the path that reached the cell. */
  datatype Node = Node(priority: int, pos: Pos, path: seq<Pos>)

  /** Python's order on (row, col) tuples. */
  predicate PosLess(a: Pos, b: Pos) {
    a.row < b.row || (a.row == b.row && a.col < b.col)
  }

  /** Python's order on lists of coordinates: lexicographic, a proper prefix first. */
  predicate PathLess(a: seq<Pos>, b: seq<Pos>)
    decreases |a|
  {
    |b| > 0 && (|a| == 0 || PosLess(a[0], b[0]) || (a[0] == b[0] && PathLess(a[1..], b[1..])))
  }

  /** Python's order on the heap's (priority, cell, path) tuples. */
  predicate NodeLess(a: Node, b: Node) {
    a.priority < b.priority ||
    (a.priority == b.priority && (PosLess(a.pos, b.pos) || (a.pos == b.pos && PathLess(a.path, b.path))))
  }

  lemma {:induction false} PathLessTransitive(a: seq<Pos>, b: seq<Pos>, c: seq<Pos>)
    requires PathLess(a, b) && PathLess(b, c)
    ensures PathLess(a, c)
    decreases |a|
  {
    if |a| > 0 && a[0] == b[0] && b[0] == c[0] {
      PathLessTransitive(a[1..], b[1..], c[1..]);
    }
  }

  /** Any two different lists are ordered one way and not the other. */
  lemma {:induction false} PathLessTotal(a: seq<Pos>, b: seq<Pos>)
    ensures !(PathLess(a, b) && PathLess(b, a))
    ensures a != b ==> PathLess(a, b) || PathLess(b, a)
    decreases |a|
  {
    if |a| > 0 && |b| > 0 && a[0] == b[0] {
      PathLessTotal(a[1..], b[1..]);
      if a != b {
        assert a == [a[0]] + a[1..] && b == [b[0]] + b[1..];
      }
    }
  }

  /** The heap order is a strict total order on nodes. */
  lemma NodeLessIsStrictTotalOrder(a: Node, b: Node, c: Node)
    ensures !NodeLess(a, a)
    ensures NodeLess(a, b) && NodeLess(b, c) ==> NodeLess(a, c)
    ensures a != b ==> NodeLess(a, b) != NodeLess(b, a)
  {
    PathLessTotal(a.path, a.path);
    PathLessTotal(a.path, b.path);
    if NodeLess(a, b) && NodeLess(b, c) && a.priority == b.priority == c.priority && a.pos == b.pos == c.pos {
      PathLessTransitive(a.path, b.path, c.path);
    }
  }

  /**
   * `heapq.heappop`'s choice: the index of a node no other node is below.
   * The order is total, so that node's value is the same whatever the heap's layout.
   */
  method MinIndex(pq: seq<Node>) returns (m: nat)
    requires |pq| > 0
    ensures m < |pq|
    ensures forall j :: 0 <= j < |pq| ==> !NodeLess(pq[j], pq[m])
  {
    m := 0;
    NodeLessIsStrictTotalOrder(pq[0], pq[0], pq[0]);
    for k := 1 to |pq|
      invariant m < k
      invariant forall j :: 0 <= j < k ==> !NodeLess(pq[j], pq[m])
    {
      if NodeLess(pq[k], pq[m]) {
        forall j | 0 <= j < k ensures !NodeLess(pq[j], pq[k]) {
          NodeLessIsStrictTotalOrder(pq[j], pq[k], pq[m]);
        }
        NodeLessIsStrictTotalOrder(pq[k], pq[k], pq[k]);
        m := k;
      }
    }
  }

  /** Two least nodes of one heap are the same node. */
  lemma MinIsUnique(pq: seq<Node>, m1: int, m2: int)
    requires 0 <= m1 < |pq| && 0 <= m2 < |pq|
    requires forall j :: 0 <= j < |pq| ==> !NodeLess(pq[j], pq[m1])
    requires forall j :: 0 <= j < |pq| ==> !NodeLess(pq[j], pq[m2])
    ensures pq[m1] == pq[m2]
  {
    NodeLessIsStrictTotalOrder(pq[m1], pq[m2], pq[m1]);
  }

  /**
   * The priority a node reaches along `path`: the start's is 0, and each later
   * cell adds 1 and its own heuristic (search_algorithms.py:94).
   */
  function PathPriority(path: seq<Pos>, e: Pos): (r: nat)
    decreases |path|
  {
    if |path| <= 1 then 0 else PathPriority(path[..|path| - 1], e) + 1 + Heuristic(path[|path| - 1], e)
  }

  /**
   * The priority is at least g + h (the moves made plus the heuristic of the
   * last cell), and more once the path has two moves and the earlier cell is
   * not the end.
   */
  lemma {:induction false} PriorityAtLeastCostPlusHeuristic(path: seq<Pos>, e: Pos)
    requires |path| >= 2
    ensures PathPriority(path, e) >= |path| - 1 + Heuristic(path[|path| - 1], e)
    ensures |path| >= 3 && path[|path| - 2] != e ==>
      PathPriority(path, e) > |path| - 1 + Heuristic(path[|path| - 1], e)
    decreases |path|
  {
    var init := path[..|path| - 1];
    if |path| >= 3 {
      PriorityAtLeastCostPlusHeuristic(init, e);
      HeuristicIsMetric(path[|path| - 2], e, e);
    }
  }

  /** A concrete case: two moves towards (0,3) give priority 5 where g + h is 3. */
  lemma PriorityIsNotCostPlusHeuristic()
    ensures PathPriority([Pos(0, 0), Pos(0, 1), Pos(0, 2)], Pos(0, 3)) == 5
  {
  }

  /** The node pushed for neighbour `n` of `cur`: one more move plus `n`'s heuristic (search_algorithms.py:93-95). */
  function Child(cur: Node, e: Pos, n: Pos): (r: Node) {
    Node(cur.priority + 1 + Heuristic(n, e), n, cur.path + [n])
  }

  /** The nodes one expansion pushes, in the order of `ns`. */
  function Successors(cur: Node, e: Pos, ns: seq<Pos>): (r: seq<Node>)
    ensures |r| == |ns|
    ensures forall i {:trigger r[i]} :: 0 <= i < |ns| ==> r[i] == Child(cur, e, ns[i])
  {
    seq(|ns|, i requires 0 <= i < |ns| => Child(cur, e, ns[i]))
  }

  lemma SuccessorsConcat(cur: Node, e: Pos, a: seq<Pos>, b: seq<Pos>)
    ensures Successors(cur, e, a + b) == Successors(cur, e, a) + Successors(cur, e, b)
  {
  }

  /**
   * One turn of the inner loop of `a_star` (search_algorithms.py:92-95): the
   * node for move `k` is pushed exactly when the neighbour is inside the
   * grid, open and not yet visited.
   */
  method TryMove(g: Grid, cur: Node, end: Pos, visited: set<Pos>, k: int, pq: seq<Node>) returns (pq': seq<Node>)
    requires Rectangular(g) && 0 <= k < 4
    ensures pq' == pq + Successors(cur, end, Pick(g, cur.pos, visited, k))
  {
    var n := Step(cur.pos, k);
    if 0 <= n.row < |g| && 0 <= n.col < |g[0]| && g[n.row][n.col] == 0 && n !in visited {
      var newCost := cur.priority + 1 + Heuristic(n, end);
      pq' := pq + [Node(newCost, n, cur.path + [n])];
      assert Successors(cur, end, [n]) == [Child(cur, end, n)];
    } else {
      pq' := pq;
    }
  }

  /**
   * The inner loop of `a_star` (search_algorithms.py:91-95): push every open
   * neighbour that is not yet visited; nothing is marked here.
   */
  method PushSuccessors(g: Grid, cur: Node, end: Pos, pq: seq<Node>, visited: set<Pos>)
    returns (pq': seq<Node>)
    requires Rectangular(g)
    ensures pq' == pq + Successors(cur, end, Fresh(g, cur.pos, visited))
  {
    pq' := pq;
    for k := 0 to 4
      invariant pq' == pq + Successors(cur, end, FreshBelow(g, cur.pos, visited, k))
    {
      pq' := TryMove(g, cur, end, visited, k, pq');
      SuccessorsConcat(cur, end, FreshBelow(g, cur.pos, visited, k), Pick(g, cur.pos, visited, k));
    }
  }

  function NodePositions(pq: seq<Node>): (r: set<Pos>) {
    set i | 0 <= i < |pq| :: pq[i].pos
  }


  /**
   * A heap node is a simple walk from the start to its cell, every cell of it
   * but the last is visited, and its priority is the accumulated one.
   */
  ghost predicate NodeOk(g: Grid, s: Pos, e: Pos, visited: set<Pos>, x: Node) {
    && Walk(g, s, x.pos, x.path) && Simple(x.path)
    && Elems(x.path[..|x.path| - 1]) <= visited
    && x.priority == PathPriority(x.path, e)
  }

  /**
   * The invariant of the `a_star` loop: every node is sound, visited cells are
   * cells of the grid (or the start) and reachable, the end is never visited,
   * and each open neighbour of a visited cell is visited or on the heap.
   */
  ghost predicate AStarInv(g: Grid, s: Pos, e: Pos, pq: seq<Node>, visited: set<Pos>)
    requires Rectangular(g)
  {
    && (forall i :: 0 <= i < |pq| ==> NodeOk(g, s, e, visited, pq[i]))
    && visited <= Universe(g, s)
    && e !in visited
    && (forall a :: a in visited ==> Reachable(g, s, a))
    && (forall a, b :: a in visited && Adjacent(a, b) && Open(g, b) ==> b in visited || b in NodePositions(pq))
    && (s in visited || s in NodePositions(pq))
  }

  lemma AStarInit(g: Grid, s: Pos, e: Pos)
    requires Rectangular(g)
    ensures AStarInv(g, s, e, [Node(0, s, [s])], {})
  {
    WalkSingleton(g, s);
    var pq := [Node(0, s, [s])];
    assert pq[0].pos == s;
    assert [s][..0] == [];
  }

  lemma NodePositionsWithout(pq: seq<Node>, m: int)
    requires 0 <= m < |pq|
    ensures NodePositions(pq) <= NodePositions(Without(pq, m)) + {pq[m].pos}
  {
    var r := Without(pq, m);
    forall x | x in NodePositions(pq) ensures x in NodePositions(r) + {pq[m].pos} {
      var i :| 0 <= i < |pq| && pq[i].pos == x;
      if i < m {
        assert r[i].pos == x;
      } else if i > m {
        assert r[i - 1].pos == x;
      }
    }
  }

  /** A popped node whose cell is already visited is skipped: the invariant survives its removal. */
  lemma SkipStep(g: Grid, s: Pos, e: Pos, pq: seq<Node>, visited: set<Pos>, m: int)
    requires Rectangular(g) && AStarInv(g, s, e, pq, visited)
    requires 0 <= m < |pq| && pq[m].pos in visited
    ensures AStarInv(g, s, e, Without(pq, m), visited)
  {
    NodePositionsWithout(pq, m);
    var r := Without(pq, m);
    forall i | 0 <= i < |r| ensures NodeOk(g, s, e, visited, r[i]) {
      if i < m {
        assert r[i] == pq[i];
      } else {
        assert r[i] == pq[i + 1];
      }
    }
  }

  lemma PushedNodeOk(g: Grid, s: Pos, e: Pos, visited: set<Pos>, cur: Node, n: Pos)
    requires NodeOk(g, s, e, visited, cur) && cur.pos in visited
    requires Open(g, n) && Adjacent(cur.pos, n) && n !in visited
    ensures NodeOk(g, s, e, visited, Child(cur, e, n))
  {
  }

  lemma NodesGrow(g: Grid, s: Pos, e: Pos, visited: set<Pos>, visited': set<Pos>, x: Node)
    requires NodeOk(g, s, e, visited, x) && visited <= visited'
    ensures NodeOk(g, s, e, visited', x)
  {
  }

  /** Every node `cur` pushes for open, unvisited neighbours is sound. */
  lemma SuccessorsOk(g: Grid, s: Pos, e: Pos, visited: set<Pos>, cur: Node, ns: seq<Pos>)
    requires NodeOk(g, s, e, visited, cur) && cur.pos in visited
    requires forall n :: n in ns ==> Open(g, n) && Adjacent(cur.pos, n) && n !in visited
    ensures forall j :: 0 <= j < |ns| ==> NodeOk(g, s, e, visited, Successors(cur, e, ns)[j])
  {
    var succ := Successors(cur, e, ns);
    forall j | 0 <= j < |ns| ensures NodeOk(g, s, e, visited, succ[j]) {
      assert ns[j] in ns;
      PushedNodeOk(g, s, e, visited, cur, ns[j]);
    }
  }

  /** The nodes `cur` pushes sit exactly on the cells pushed. */
  lemma SuccessorsPositions(cur: Node, e: Pos, ns: seq<Pos>)
    ensures NodePositions(Successors(cur, e, ns)) == Elems(ns)
  {
    var succ := Successors(cur, e, ns);
    forall x | x in Elems(ns) ensures x in NodePositions(succ) {
      var i :| 0 <= i < |ns| && ns[i] == x;
      assert succ[i].pos == x;
    }
  }

  lemma NodePositionsAppend(a: seq<Node>, b: seq<Node>)
    ensures NodePositions(a + b) == NodePositions(a) + NodePositions(b)
  {
    var ab := a + b;
    forall x | x in NodePositions(a) ensures x in NodePositions(ab) {
      var i :| 0 <= i < |a| && a[i].pos == x;
      assert ab[i].pos == x;
    }
    forall x | x in NodePositions(b) ensures x in NodePositions(ab) {
      var i :| 0 <= i < |b| && b[i].pos == x;
      assert ab[|a| + i].pos == x;
    }
  }

  /** The nodes left after popping one all stay sound once more cells are visited. */
  lemma RestOk(g: Grid, s: Pos, e: Pos, pq: seq<Node>, visited: set<Pos>, visited': set<Pos>, m: int)
    requires forall i :: 0 <= i < |pq| ==> NodeOk(g, s, e, visited, pq[i])
    requires 0 <= m < |pq| && visited <= visited'
    ensures forall i :: 0 <= i < |pq| - 1 ==> NodeOk(g, s, e, visited', Without(pq, m)[i])
  {
    var rest := Without(pq, m);
    forall i | 0 <= i < |rest| ensures NodeOk(g, s, e, visited', rest[i]) {
      assert rest[i] == if i < m then pq[i] else pq[i + 1];
      NodesGrow(g, s, e, visited, visited', rest[i]);
    }
  }

  /**
   * Visiting the popped cell (not the end, not yet visited) and pushing its
   * fresh neighbours keeps the invariant.
   */
  lemma VisitStep(g: Grid, s: Pos, e: Pos, pq: seq<Node>, visited: set<Pos>, m: int)
    requires Rectangular(g) && AStarInv(g, s, e, pq, visited)
    requires 0 <= m < |pq| && pq[m].pos !in visited && pq[m].pos != e
    ensures
      var cur := pq[m];
      var visited' := visited + {cur.pos};
      && AStarInv(g, s, e, Without(pq, m) + Successors(cur, e, Fresh(g, cur.pos, visited')), visited')
      && cur.pos in Universe(g, s)
  {
    var cur := pq[m];
    var p := cur.pos;
    var visited' := visited + {p};
    var ns := Fresh(g, p, visited');
    var rest := Without(pq, m);
    var succ := Successors(cur, e, ns);
    var pq' := rest + succ;
    FreshFacts(g, p, visited');
    NodePositionsWithout(pq, m);
    NodePositionsAppend(rest, succ);
    SuccessorsPositions(cur, e, ns);
    assert NodeOk(g, s, e, visited, cur);
    assert Reachable(g, s, p) by {
      assert Walk(g, s, p, cur.path);
    }
    ReachableInUniverse(g, s, p);
    NodesGrow(g, s, e, visited, visited', cur);
    RestOk(g, s, e, pq, visited, visited', m);
    SuccessorsOk(g, s, e, visited', cur, ns);
    forall i | 0 <= i < |pq'| ensures NodeOk(g, s, e, visited', pq'[i]) {
      if i < |rest| {
        assert pq'[i] == rest[i];
      } else {
        assert pq'[i] == succ[i - |rest|];
      }
    }
  }

  /**
   * `a_star` (search_algorithms.py:69-97). `closedSet` is the final `visited`
   * set: reachable cells only, never the end, fewer than the count when a path
   * is found, and exactly the set of reachable cells when none is.
   */
  method AStar(g: Grid, start: Pos, end: Pos) returns (path: Option<seq<Pos>>, expanded: nat, ghost closedSet: set<Pos>)
    requires Rectangular(g)
    ensures path.Some? <==> Reachable(g, start, end)
    ensures path.Some? ==> Walk(g, start, end, path.value) && Simple(path.value)
    ensures expanded >= 1 && |closedSet| <= expanded && closedSet <= Universe(g, start)
    ensures closedSet <= ReachableCells(g, start) && end !in closedSet
    ensures path.Some? ==> |closedSet| + 1 <= expanded
    ensures path.None? ==> closedSet == ReachableCells(g, start)
    ensures start == end ==> path == Some([start]) && expanded == 1
  {
    var pq := [Node(0, start, [start])];
    var visited: set<Pos> := {};
    expanded := 0;
    AStarInit(g, start, end);
    while pq != []
      invariant AStarInv(g, start, end, pq, visited)
      invariant |visited| <= expanded
      invariant start == end ==> expanded == 0 && pq == [Node(0, start, [start])]
      decreases |Universe(g, start) - visited|, |pq|
    {
      var m := MinIndex(pq);
      var cur := pq[m];
      assert Without(pq, m) == pq[..m] + pq[m + 1..];
      expanded := expanded + 1;
      if cur.pos == end {
        assert NodeOk(g, start, end, visited, cur);
        return Some(cur.path), expanded, visited;
      }
      if cur.pos in visited {
        SkipStep(g, start, end, pq, visited, m);
        pq := pq[..m] + pq[m + 1..];
        continue;
      }
      VisitStep(g, start, end, pq, visited, m);
      Progress(Universe(g, start), visited, cur.pos);
      pq := pq[..m] + pq[m + 1..];
      visited := visited + {cur.pos};
      pq := PushSuccessors(g, cur, end, pq, visited);
    }
    assert NodePositions([]) == {};
    assert Closed(g, visited);
    if Reachable(g, start, end) {
      ClosedHoldsReachable(g, visited, start, end);
    }
    ClosedReachableIsReachableCells(g, visited, start);
    return None, expanded, visited;
  }
}
