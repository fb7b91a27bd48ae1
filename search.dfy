/**
 * `heuristic`, `bfs` and `dfs` of search_algorithms.py. Each search returns the
 * path it found (or None) and how many frontier entries it popped; the elapsed
 * time it also reports is not modelled.
 */
module SearchAlgorithms {
  import opened Grids
  import opened Frontier

  function Abs(x: int): (r: nat) {
    if x < 0 then -x else x
  }

  /** Manhattan distance between two cells (search_algorithms.py:61-66). */
  function Heuristic(a: Pos, b: Pos): (r: nat) {
    Abs(a.row - b.row) + Abs(a.col - b.col)
  }

  /** The heuristic is a distance: symmetric, zero exactly on equal cells, and obeys the triangle inequality. */
  lemma HeuristicIsMetric(a: Pos, b: Pos, c: Pos)
    ensures Heuristic(a, b) == Abs(a.row - b.row) + Abs(a.col - b.col)
    ensures Heuristic(a, b) == Heuristic(b, a)
    ensures Heuristic(a, b) == 0 <==> a == b
    ensures Heuristic(a, c) <= Heuristic(a, b) + Heuristic(b, c)
  {
  }

  /** Adjacent cells are exactly the cells at distance 1. */
  lemma HeuristicOfAdjacent(p: Pos, q: Pos)
    ensures Adjacent(p, q) <==> Heuristic(p, q) == 1
  {
  }

  /**
   * The heuristic never overestimates: every walk from `s` to `e` has at least
   * Heuristic(s, e) moves, whatever the walls.
   */
  lemma {:induction false} HeuristicIsAdmissible(g: Grid, s: Pos, e: Pos, w: seq<Pos>)
    requires Walk(g, s, e, w)
    ensures |w| - 1 >= Heuristic(s, e)
    decreases |w|
  {
    if |w| >= 2 {
      var prev := w[|w| - 2];
      WalkPrefix(g, s, w);
      HeuristicIsAdmissible(g, s, prev, w[..|w| - 1]);
      HeuristicOfAdjacent(prev, e);
      HeuristicIsMetric(s, prev, e);
    }
  }

  /** No walk from `s` to `p` has fewer than `n` cells. */
  ghost predicate NoShorterWalk(g: Grid, s: Pos, p: Pos, n: int) {
    forall w :: Walk(g, s, p, w) ==> |w| >= n
  }

  /**
   * The layers of the `bfs` queue: path lengths never decrease along it and
   * span at most two values; every queued path is as short as any walk to its
   * cell; and, with D the length of the front path, every walk of fewer than D
   * cells ends in a popped cell and every walk of D cells ends in a visited one.
   */
  ghost predicate LayerInv(g: Grid, s: Pos, f: seq<Entry>, visited: set<Pos>, done: set<Pos>) {
    && (forall i, j :: 0 <= i < j < |f| ==> |f[i].path| <= |f[j].path|)
    && (|f| > 0 ==> |f[|f| - 1].path| <= |f[0].path| + 1)
    && (forall i :: 0 <= i < |f| ==> NoShorterWalk(g, s, f[i].pos, |f[i].path|))
    && (|f| > 0 ==> forall w :: WalkFrom(g, s, w) && |w| < |f[0].path| ==> w[|w| - 1] in done)
    && (|f| > 0 ==> forall w :: WalkFrom(g, s, w) && |w| == |f[0].path| ==> w[|w| - 1] in visited)
  }

  lemma LayerInit(g: Grid, s: Pos)
    ensures LayerInv(g, s, [Entry(s, [s])], {s}, {})
  {
  }

  /** After a `popleft` and the pushes, the queue's path lengths are still ordered and span two values. */
  lemma LayerLengths(f: seq<Entry>, path: seq<Pos>, ns: seq<Pos>)
    requires |f| > 0 && path == f[0].path
    requires forall i, j :: 0 <= i < j < |f| ==> |f[i].path| <= |f[j].path|
    requires |f[|f| - 1].path| <= |f[0].path| + 1
    ensures var f' := f[1..] + Extend(path, ns);
      && (forall i :: 0 <= i < |f'| ==> |path| <= |f'[i].path| <= |path| + 1)
      && (forall i, j :: 0 <= i < j < |f'| ==> |f'[i].path| <= |f'[j].path|)
      && (|f'| > 0 ==> |f'[|f'| - 1].path| <= |f'[0].path| + 1)
  {
  }

  /** A cell pushed from a path of `d` cells, and not visited before, has no walk shorter than `d + 1` cells. */
  lemma PushedIsShortest(g: Grid, s: Pos, n: Pos, d: int, visited: set<Pos>, done: set<Pos>)
    requires done <= visited && n !in visited
    requires forall w :: WalkFrom(g, s, w) && |w| < d ==> w[|w| - 1] in done
    requires forall w :: WalkFrom(g, s, w) && |w| == d ==> w[|w| - 1] in visited
    ensures NoShorterWalk(g, s, n, d + 1)
  {
  }

  /**
   * When the front of the queue moves on to the next layer (length d + 1),
   * walks of d cells end in popped cells and walks of d + 1 cells in visited ones.
   */
  lemma NextLayer(g: Grid, s: Pos, d: int, f': seq<Entry>, visited: set<Pos>, visited': set<Pos>,
                  done': set<Pos>)
    requires d >= 1 && visited <= visited'
    requires visited' == done' + Positions(f') && done' !! Positions(f')
    requires forall a, b :: a in done' && Adjacent(a, b) && Open(g, b) ==> b in visited'
    requires forall w :: WalkFrom(g, s, w) && |w| < d ==> w[|w| - 1] in done'
    requires forall w :: WalkFrom(g, s, w) && |w| == d ==> w[|w| - 1] in visited
    requires forall i :: 0 <= i < |f'| ==> |f'[i].path| >= d + 1 && NoShorterWalk(g, s, f'[i].pos, |f'[i].path|)
    ensures forall w :: WalkFrom(g, s, w) && |w| < d + 1 ==> w[|w| - 1] in done'
    ensures forall w :: WalkFrom(g, s, w) && |w| == d + 1 ==> w[|w| - 1] in visited'
  {
    forall w | WalkFrom(g, s, w) && |w| < d + 1 ensures w[|w| - 1] in done' {
      var x := w[|w| - 1];
      if |w| == d {
        assert x in visited;
        assert Walk(g, s, x, w);
      }
    }
    forall w | WalkFrom(g, s, w) && |w| == d + 1 ensures w[|w| - 1] in visited' {
      WalkPrefix(g, s, w);
      var w0 := w[..|w| - 1];
      assert w0[|w0| - 1] in done';
      assert w0[|w0| - 1] == w[|w| - 2];
    }
  }

  /**
   * One `popleft` and the pushes after it keep the layers. The facts about the
   * new queue that it needs are those `FrontierStep` establishes.
   */
  lemma LayerStep(g: Grid, s: Pos, f: seq<Entry>, ns: seq<Pos>, visited: set<Pos>, done: set<Pos>)
    requires LayerInv(g, s, f, visited, done)
    requires |f| > 0 && |f[0].path| >= 1 && done <= visited && Elems(ns) !! visited
    requires
      var f' := f[1..] + Extend(f[0].path, ns);
      var visited' := visited + Elems(ns);
      var done' := done + {f[0].pos};
      && visited' == done' + Positions(f') && done' !! Positions(f')
      && (forall a, b :: a in done' && Adjacent(a, b) && Open(g, b) ==> b in visited')
    ensures LayerInv(g, s, f[1..] + Extend(f[0].path, ns), visited + Elems(ns), done + {f[0].pos})
  {
    var cur := f[0];
    var d := |cur.path|;
    var rest := f[1..];
    var f' := rest + Extend(cur.path, ns);
    var visited' := visited + Elems(ns);
    var done' := done + {cur.pos};
    LayerLengths(f, cur.path, ns);
    forall i | 0 <= i < |f'| ensures NoShorterWalk(g, s, f'[i].pos, |f'[i].path|) {
      if i < |rest| {
        assert f'[i] == f[i + 1];
      } else {
        var n := ns[i - |rest|];
        assert n in Elems(ns);
        PushedIsShortest(g, s, n, d, visited, done);
      }
    }
    if |f'| > 0 && |f'[0].path| == d + 1 {
      NextLayer(g, s, d, f', visited, visited', done');
    }
  }

  /**
   * `bfs` (search_algorithms.py:5-30): a FIFO queue of (cell, path) entries,
   * cells marked visited as they are enqueued, the count bumped at every pop.
   */
  method Bfs(g: Grid, start: Pos, end: Pos) returns (path: Option<seq<Pos>>, expanded: nat)
    requires Rectangular(g)
    ensures path.Some? <==> Reachable(g, start, end)
    ensures path.Some? ==> Walk(g, start, end, path.value) && Simple(path.value)
    ensures path.Some? ==> forall w :: Walk(g, start, end, w) ==> |path.value| <= |w|
    ensures path.None? ==> expanded == |ReachableCells(g, start)|
    ensures 1 <= expanded <= |g| * |g[0]| + 1
    ensures InBounds(g, start) ==> expanded <= |g| * |g[0]|
    ensures start == end ==> path == Some([start]) && expanded == 1
  {
    var queue := [Entry(start, [start])];
    var visited := {start};
    expanded := 0;
    ghost var done: set<Pos> := {};
    FrontierInit(g, start, end);
    LayerInit(g, start);
    while queue != []
      invariant FrontierInv(g, start, end, queue, visited, done)
      invariant LayerInv(g, start, queue, visited, done)
      invariant expanded == |done|
      decreases |Universe(g, start) - done|
    {
      var cur := queue[0];
      expanded := expanded + 1;
      if cur.pos == end {
        PoppedEnd(g, start, end, queue, visited, done, 0);
        assert NoShorterWalk(g, start, cur.pos, |cur.path|);
        return Some(cur.path), expanded;
      }
      FrontierStep(g, start, end, queue, visited, done, 0);
      assert Without(queue, 0) == queue[1..];
      FreshFacts(g, cur.pos, visited);
      LayerStep(g, start, queue, Fresh(g, cur.pos, visited), visited, done);
      Progress(Universe(g, start), done, cur.pos);
      assert Without(queue, 0) == queue[1..];
      queue, visited := EnqueueNeighbours(g, cur, queue[1..], visited);
      done := done + {cur.pos};
    }
    Exhausted(g, start, end, visited, done);
    return None, expanded;
  }

  /**
   * `dfs` (search_algorithms.py:33-58): the same loop over a LIFO stack; the
   * path it returns need not be shortest.
   */
  method Dfs(g: Grid, start: Pos, end: Pos) returns (path: Option<seq<Pos>>, expanded: nat)
    requires Rectangular(g)
    ensures path.Some? <==> Reachable(g, start, end)
    ensures path.Some? ==> Walk(g, start, end, path.value) && Simple(path.value)
    ensures path.None? ==> expanded == |ReachableCells(g, start)|
    ensures 1 <= expanded <= |g| * |g[0]| + 1
    ensures InBounds(g, start) ==> expanded <= |g| * |g[0]|
    ensures start == end ==> path == Some([start]) && expanded == 1
  {
    var stack := [Entry(start, [start])];
    var visited := {start};
    expanded := 0;
    ghost var done: set<Pos> := {};
    FrontierInit(g, start, end);
    while stack != []
      invariant FrontierInv(g, start, end, stack, visited, done)
      invariant expanded == |done|
      decreases |Universe(g, start) - done|
    {
      var top := |stack| - 1;
      var cur := stack[top];
      expanded := expanded + 1;
      if cur.pos == end {
        PoppedEnd(g, start, end, stack, visited, done, top);
        return Some(cur.path), expanded;
      }
      FrontierStep(g, start, end, stack, visited, done, top);
      Progress(Universe(g, start), done, cur.pos);
      assert Without(stack, top) == stack[..top];
      stack, visited := EnqueueNeighbours(g, cur, stack[..top], visited);
      done := done + {cur.pos};
    }
    Exhausted(g, start, end, visited, done);
    return None, expanded;
  }
}
