/**
 * The bookkeeping `bfs` and `dfs` share (search_algorithms.py): a frontier of
 * entries that each carry the whole path to their cell, a `visited` set that a
 * cell joins when it is pushed, and the loop that pushes a popped cell's open,
 * unvisited neighbours. The two searches differ only in which end of the
 * frontier they pop, so the invariant below is stated for a pop at any index.
 */
module Frontier {
  import opened Grids

  /** A frontier entry: a cell and the path that reached it. */
  datatype Entry = Entry(pos: Pos, path: seq<Pos>)

  /** The entries one expansion appends: each neighbour with the popped path extended by it. */
  function Extend(path: seq<Pos>, ns: seq<Pos>): (r: seq<Entry>)
    ensures |r| == |ns|
    ensures forall i :: 0 <= i < |ns| ==> r[i] == Entry(ns[i], path + [ns[i]])
  {
    seq(|ns|, i requires 0 <= i < |ns| => Entry(ns[i], path + [ns[i]]))
  }

  function Positions(f: seq<Entry>): (r: set<Pos>) {
    set i | 0 <= i < |f| :: f[i].pos
  }


  /**
   * One turn of the inner loop of `bfs` and `dfs` (search_algorithms.py:25-28
   * and 53-56): the cell of move `k` is marked and appended, with the popped
   * path extended by it, exactly when it is inside the grid, open and not yet
   * visited.
   */
  method TryPush(g: Grid, cur: Entry, k: int, frontier: seq<Entry>, visited: set<Pos>)
    returns (frontier': seq<Entry>, visited': set<Pos>)
    requires Rectangular(g) && 0 <= k < 4
    ensures frontier' == frontier + Extend(cur.path, Pick(g, cur.pos, visited, k))
    ensures visited' == visited + Elems(Pick(g, cur.pos, visited, k))
  {
    var n := Step(cur.pos, k);
    if 0 <= n.row < |g| && 0 <= n.col < |g[0]| && g[n.row][n.col] == 0 && n !in visited {
      frontier', visited' := frontier + [Entry(n, cur.path + [n])], visited + {n};
      assert Elems([n]) == {n};
    } else {
      frontier', visited' := frontier, visited;
    }
  }

  /**
   * The inner loop of `bfs` and `dfs` (search_algorithms.py:24-28 and 52-56):
   * try the four moves in order and append every open neighbour not yet
   * visited, marking it visited as it is appended.
   */
  method EnqueueNeighbours(g: Grid, cur: Entry, frontier: seq<Entry>, visited: set<Pos>)
    returns (frontier': seq<Entry>, visited': set<Pos>)
    requires Rectangular(g)
    ensures frontier' == frontier + Extend(cur.path, Fresh(g, cur.pos, visited))
    ensures visited' == visited + Elems(Fresh(g, cur.pos, visited))
  {
    frontier', visited' := frontier, visited;
    for k := 0 to 4
      invariant frontier' == frontier + Extend(cur.path, FreshBelow(g, cur.pos, visited, k))
      invariant visited' == visited + Elems(FreshBelow(g, cur.pos, visited, k))
    {
      PickSkipsPushed(g, cur.pos, visited, k);
      ghost var before := FreshBelow(g, cur.pos, visited, k);
      ElemsConcat(before, Pick(g, cur.pos, visited, k));
      ExtendConcat(cur.path, before, Pick(g, cur.pos, visited, k));
      frontier', visited' := TryPush(g, cur, k, frontier', visited');
    }
  }

  lemma ExtendConcat(path: seq<Pos>, a: seq<Pos>, b: seq<Pos>)
    ensures Extend(path, a + b) == Extend(path, a) + Extend(path, b)
  {
  }

  lemma PositionsConcat(a: seq<Entry>, b: seq<Entry>)
    ensures Positions(a + b) == Positions(a) + Positions(b)
  {
    forall x | x in Positions(a + b) ensures x in Positions(a) + Positions(b) {
      var i :| 0 <= i < |a + b| && (a + b)[i].pos == x;
      if i >= |a| {
        assert b[i - |a|].pos == x;
      } else {
        assert a[i].pos == x;
      }
    }
    forall x | x in Positions(a) ensures x in Positions(a + b) {
      var i :| 0 <= i < |a| && a[i].pos == x;
      assert (a + b)[i].pos == x;
    }
    forall x | x in Positions(b) ensures x in Positions(a + b) {
      var i :| 0 <= i < |b| && b[i].pos == x;
      assert (a + b)[|a| + i].pos == x;
    }
  }

  lemma PositionsExtend(path: seq<Pos>, ns: seq<Pos>)
    ensures Positions(Extend(path, ns)) == Elems(ns)
  {
  }

  lemma PositionsWithout(f: seq<Entry>, idx: int)
    requires 0 <= idx < |f|
    requires forall i, j :: 0 <= i < j < |f| ==> f[i].pos != f[j].pos
    ensures Positions(Without(f, idx)) == Positions(f) - {f[idx].pos}
  {
    var r := Without(f, idx);
    forall x | x in Positions(f) - {f[idx].pos} ensures x in Positions(r) {
      var i :| 0 <= i < |f| && f[i].pos == x;
      if i < idx {
        assert r[i].pos == x;
      } else {
        assert r[i - 1].pos == x;
      }
    }
  }

  /** A frontier entry is a simple walk from the start to its cell, through visited cells only. */
  ghost predicate EntryOk(g: Grid, s: Pos, visited: set<Pos>, x: Entry) {
    Walk(g, s, x.pos, x.path) && Simple(x.path) && Elems(x.path) <= visited
  }

  /**
   * The invariant of the `bfs` and `dfs` loops. `done` is the (ghost) set of cells
   * already popped; `visited` is exactly `done` plus the frontier's cells, no cell
   * is on the frontier twice or both popped and queued, every popped cell has all
   * its open neighbours visited, the end has not been popped, and every popped
   * cell is reachable.
   */
  ghost predicate FrontierInv(g: Grid, s: Pos, e: Pos, f: seq<Entry>, visited: set<Pos>, done: set<Pos>)
    requires Rectangular(g)
  {
    && visited == done + Positions(f)
    && done !! Positions(f)
    && (forall i, j :: 0 <= i < j < |f| ==> f[i].pos != f[j].pos)
    && s in visited && visited <= Universe(g, s)
    && (forall i :: 0 <= i < |f| ==> EntryOk(g, s, visited, f[i]))
    && (forall a, b :: a in done && Adjacent(a, b) && Open(g, b) ==> b in visited)
    && e !in done
    && (forall a :: a in done ==> Reachable(g, s, a))
    && (done == {} ==> f == [Entry(s, [s])])
    && (done == {} || s in done)
  }

  lemma FrontierInit(g: Grid, s: Pos, e: Pos)
    requires Rectangular(g)
    ensures FrontierInv(g, s, e, [Entry(s, [s])], {s}, {})
  {
    WalkSingleton(g, s);
    var f := [Entry(s, [s])];
    assert f[0].pos == s;
    assert Positions(f) == {s};
  }

  lemma OpenInUniverse(g: Grid, s: Pos, n: Pos)
    requires Rectangular(g) && Open(g, n)
    ensures n in Universe(g, s)
  {
  }

  /** The frontier after one expansion, and its cells: one cell fewer, the pushed ones more. */
  lemma StepPositions(f: seq<Entry>, idx: int, visited: set<Pos>, ns: seq<Pos>, path: seq<Pos>)
    requires 0 <= idx < |f|
    requires forall i, j :: 0 <= i < j < |f| ==> f[i].pos != f[j].pos
    requires Positions(f) <= visited && Simple(ns) && Elems(ns) !! visited
    ensures var f' := Without(f, idx) + Extend(path, ns);
      && Positions(f') == Positions(f) - {f[idx].pos} + Elems(ns)
      && forall i, j :: 0 <= i < j < |f'| ==> f'[i].pos != f'[j].pos
  {
    var rest := Without(f, idx);
    var f' := rest + Extend(path, ns);
    PositionsConcat(rest, Extend(path, ns));
    PositionsExtend(path, ns);
    PositionsWithout(f, idx);
    forall i, j | 0 <= i < j < |f'| ensures f'[i].pos != f'[j].pos {
      if j < |rest| {
        assert f'[i] == rest[i] && f'[j] == rest[j];
      } else if i < |rest| {
        assert f'[i].pos in Positions(f);
        assert f'[j].pos == ns[j - |rest|];
      } else {
        assert f'[i].pos == ns[i - |rest|] && f'[j].pos == ns[j - |rest|];
      }
    }
  }

  /** Extending a simple walk through visited cells by a fresh open neighbour gives a valid entry. */
  lemma PushedEntryOk(g: Grid, s: Pos, visited: set<Pos>, cur: Entry, n: Pos)
    requires EntryOk(g, s, visited, cur)
    requires Open(g, n) && Adjacent(cur.pos, n) && n !in visited
    ensures EntryOk(g, s, visited + {n}, Entry(n, cur.path + [n]))
  {
  }

  lemma StepEntries(g: Grid, s: Pos, visited: set<Pos>, f: seq<Entry>, idx: int)
    requires 0 <= idx < |f|
    requires forall i :: 0 <= i < |f| ==> EntryOk(g, s, visited, f[i])
    ensures var cur := f[idx];
      var ns := Fresh(g, cur.pos, visited);
      var f' := Without(f, idx) + Extend(cur.path, ns);
      forall i :: 0 <= i < |f'| ==> EntryOk(g, s, visited + Elems(ns), f'[i])
  {
    var cur := f[idx];
    var ns := Fresh(g, cur.pos, visited);
    var rest := Without(f, idx);
    var f' := rest + Extend(cur.path, ns);
    FreshFacts(g, cur.pos, visited);
    forall i | 0 <= i < |f'| ensures EntryOk(g, s, visited + Elems(ns), f'[i]) {
      if i < |rest| {
        assert f'[i] == rest[i];
        assert EntryOk(g, s, visited, rest[i]);
      } else {
        var n := ns[i - |rest|];
        assert f'[i] == Entry(n, cur.path + [n]);
        PushedEntryOk(g, s, visited, cur, n);
      }
    }
  }

  /**
   * Popping the entry at `idx` (not the end) and pushing its fresh neighbours
   * keeps the invariant, and the popped cell is a new cell of the grid.
   */
  lemma FrontierStep(g: Grid, s: Pos, e: Pos, f: seq<Entry>, visited: set<Pos>, done: set<Pos>, idx: int)
    requires Rectangular(g) && FrontierInv(g, s, e, f, visited, done)
    requires 0 <= idx < |f| && f[idx].pos != e
    ensures
      var cur := f[idx];
      var ns := Fresh(g, cur.pos, visited);
      && FrontierInv(g, s, e, Without(f, idx) + Extend(cur.path, ns), visited + Elems(ns), done + {cur.pos})
      && cur.pos !in done && cur.pos in Universe(g, s)
  {
    var cur := f[idx];
    var p := cur.pos;
    var ns := Fresh(g, p, visited);
    var f' := Without(f, idx) + Extend(cur.path, ns);
    var visited' := visited + Elems(ns);
    var done' := done + {p};
    FreshFacts(g, p, visited);
    StepPositions(f, idx, visited, ns, cur.path);
    StepEntries(g, s, visited, f, idx);
    assert p in Positions(f);
    forall n | n in Elems(ns) ensures n in Universe(g, s) {
      OpenInUniverse(g, s, n);
    }
    assert Reachable(g, s, p) by {
      assert EntryOk(g, s, visited, cur);
      assert Walk(g, s, p, cur.path);
    }
    assert done == {} ==> p == s;
    assert visited' == done' + Positions(f');
    assert done' !! Positions(f');
  }

  /** Popping the end: its entry is a simple walk to it, and the count stays within the grid. */
  lemma PoppedEnd(g: Grid, s: Pos, e: Pos, f: seq<Entry>, visited: set<Pos>, done: set<Pos>, idx: int)
    requires Rectangular(g) && FrontierInv(g, s, e, f, visited, done)
    requires 0 <= idx < |f| && f[idx].pos == e
    ensures Walk(g, s, e, f[idx].path) && Simple(f[idx].path) && Reachable(g, s, e)
    ensures |done| + 1 <= |g| * |g[0]| + 1
    ensures InBounds(g, s) ==> |done| + 1 <= |g| * |g[0]|
    ensures s == e ==> done == {} && f == [Entry(s, [s])]
  {
    assert EntryOk(g, s, visited, f[idx]);
    assert f[idx].pos in Positions(f);
    SubsetOfUniverse(g, s, done + {e});
  }

  /** An empty frontier: the end is unreachable and the popped cells are exactly the reachable ones. */
  lemma Exhausted(g: Grid, s: Pos, e: Pos, visited: set<Pos>, done: set<Pos>)
    requires Rectangular(g) && FrontierInv(g, s, e, [], visited, done)
    ensures !Reachable(g, s, e)
    ensures done == ReachableCells(g, s) && s != e
    ensures |done| <= |g| * |g[0]| + 1
    ensures InBounds(g, s) ==> |done| <= |g| * |g[0]|
  {
    assert Positions([]) == {};
    assert Closed(g, done);
    if Reachable(g, s, e) {
      ClosedHoldsReachable(g, done, s, e);
    }
    ClosedReachableIsReachableCells(g, done, s);
    SubsetOfUniverse(g, s, done);
  }
}
