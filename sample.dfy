/**
 * The hand-written 5x5 grid of search_algorithms.py:122-128. Its open cells
 * form one chain: the 13-cell route from (0,0) to (4,4), then a dead end of
 * four cells leading back west along the bottom row.
 */
module SampleMaze {
  import opened Grids
  import opened Comparison

  const SAMPLE: Grid := [
    [0, 1, 0, 0, 0],
    [0, 1, 0, 1, 0],
    [0, 0, 0, 1, 0],
    [1, 1, 1, 1, 0],
    [0, 0, 0, 0, 0]
  ]

  const START: Pos := Pos(0, 0)
  const END: Pos := Pos(4, 4)

  /** The route from START to END. */
  const ROUTE: seq<Pos> := [
    Pos(0, 0), Pos(1, 0), Pos(2, 0), Pos(2, 1), Pos(2, 2), Pos(1, 2), Pos(0, 2),
    Pos(0, 3), Pos(0, 4), Pos(1, 4), Pos(2, 4), Pos(3, 4), Pos(4, 4)
  ]

  /** Every open cell, in the order of its distance from START. */
  const CHAIN: seq<Pos> := ROUTE + [Pos(4, 3), Pos(4, 2), Pos(4, 1), Pos(4, 0)]

  /** The number of moves from START to each open cell; -1 marks a wall. */
  const DIST: seq<seq<int>> := [
    [ 0, -1,  6,  7,  8],
    [ 1, -1,  5, -1,  9],
    [ 2,  3,  4, -1, 10],
    [-1, -1, -1, -1, 11],
    [16, 15, 14, 13, 12]
  ]

  /** DIST names each chain cell's place on the chain, so no cell occurs twice. */
  lemma ChainIndex(i: int)
    requires 0 <= i < |CHAIN|
    ensures InBounds(DIST, CHAIN[i]) && DIST[CHAIN[i].row][CHAIN[i].col] == i
  {
  }

  /** Each chain cell is open and one move from the one before it. */
  lemma ChainStep(i: int)
    requires 1 <= i < |CHAIN|
    ensures Open(SAMPLE, CHAIN[i]) && Adjacent(CHAIN[i - 1], CHAIN[i])
  {
  }

  /** The chain runs through the open cells without repeating one. */
  lemma ChainIsSimpleWalk()
    ensures Walk(SAMPLE, START, Pos(4, 0), CHAIN) && Simple(CHAIN)
  {
    forall i | 1 <= i < |CHAIN| ensures Open(SAMPLE, CHAIN[i]) && Adjacent(CHAIN[i - 1], CHAIN[i]) {
      ChainStep(i);
    }
    forall i, j | 0 <= i < j < |CHAIN| ensures CHAIN[i] != CHAIN[j] {
      ChainIndex(i);
      ChainIndex(j);
    }
  }

  /** An open cell next to the i-th chain cell is the chain cell just before or just after it. */
  lemma ChainNeighbours(i: int, b: Pos)
    requires 0 <= i < |CHAIN| && Open(SAMPLE, b) && Adjacent(CHAIN[i], b)
    ensures (i > 0 && b == CHAIN[i - 1]) || (i + 1 < |CHAIN| && b == CHAIN[i + 1])
  {
  }

  /**
   * A chain of a grid from `s`: it starts at `s`, and each open cell next to
   * one of its cells is the cell just before or just after that one.
   */
  ghost predicate IsChain(g: Grid, s: Pos, chain: seq<Pos>) {
    && |chain| >= 1 && chain[0] == s
    && forall i, b {:trigger Adjacent(chain[i], b)} :: 0 <= i < |chain| && Open(g, b) && Adjacent(chain[i], b) ==>
      (i > 0 && b == chain[i - 1]) || (i + 1 < |chain| && b == chain[i + 1])
  }

  lemma SampleIsChain()
    ensures IsChain(SAMPLE, START, CHAIN)
  {
  }

  /** Any walk from `s` ends on the chain, at most |w| - 1 cells along it. */
  lemma {:induction false} WalkStaysOnChain(g: Grid, s: Pos, chain: seq<Pos>, w: seq<Pos>) returns (i: nat)
    requires IsChain(g, s, chain) && WalkFrom(g, s, w)
    ensures i < |w| && i < |chain| && chain[i] == w[|w| - 1]
  {
    if |w| == 1 {
      return 0;
    }
    var w' := w[..|w| - 1];
    assert WalkFrom(g, s, w');
    var j := WalkStaysOnChain(g, s, chain, w');
    assert Open(g, w[|w| - 1]) && Adjacent(chain[j], w[|w| - 1]);
    if j > 0 && w[|w| - 1] == chain[j - 1] {
      i := j - 1;
    } else {
      i := j + 1;
    }
  }

  /** A walk from `s` that never repeats a cell follows the chain from its first cell. */
  lemma {:induction false} SimpleWalkFollowsChain(g: Grid, s: Pos, chain: seq<Pos>, w: seq<Pos>)
    requires IsChain(g, s, chain) && WalkFrom(g, s, w) && Simple(w)
    ensures |w| <= |chain| && forall k :: 0 <= k < |w| ==> w[k] == chain[k]
  {
    var n := |w|;
    if n == 1 {
      return;
    }
    var w' := w[..n - 1];
    assert WalkFrom(g, s, w');
    assert Simple(w') by {
      forall i, j | 0 <= i < j < |w'| ensures w'[i] != w'[j] {
        assert w'[i] == w[i] && w'[j] == w[j];
      }
    }
    SimpleWalkFollowsChain(g, s, chain, w');
    var b := w[n - 1];
    assert w[n - 2] == w'[n - 2] == chain[n - 2];
    assert Open(g, b) && Adjacent(chain[n - 2], b);
    if n >= 3 && b == chain[n - 3] {
      assert false;
    }
    assert n - 1 < |chain| && b == chain[n - 1];
    forall k | 0 <= k < n ensures w[k] == chain[k] {
      if k < n - 1 {
        assert w[k] == w'[k];
      }
    }
  }

  /** ROUTE is a route, and the only one that never repeats a cell. */
  lemma RouteIsTheOnlySimpleRoute(w: seq<Pos>)
    ensures Walk(SAMPLE, START, END, ROUTE) && Simple(ROUTE) && |ROUTE| == 13
    ensures Walk(SAMPLE, START, END, w) && Simple(w) ==> w == ROUTE
  {
    ChainIsSimpleWalk();
    SampleIsChain();
    assert ROUTE == CHAIN[..13];
    if Walk(SAMPLE, START, END, w) && Simple(w) {
      SimpleWalkFollowsChain(SAMPLE, START, CHAIN, w);
      assert CHAIN[|w| - 1] == CHAIN[12];
      assert w == ROUTE;
    }
  }

  /** Every walk from START to END, repeating cells or not, has at least 13 cells. */
  lemma NoRouteShorterThan13(w: seq<Pos>)
    requires Walk(SAMPLE, START, END, w)
    ensures |w| >= 13
  {
    ChainIsSimpleWalk();
    SampleIsChain();
    var i := WalkStaysOnChain(SAMPLE, START, CHAIN, w);
    assert CHAIN[i] == CHAIN[12];
  }

  /**
   * The run of search_algorithms.py:129-132: all three solvers find the
   * 13-cell route.
   */
  method CompareOnSample() returns (bfs: Row, dfs: Row, astar: Row)
    ensures bfs.length == dfs.length == astar.length == Some(13)
    ensures bfs.expanded <= 25 && dfs.expanded <= 25
  {
    RouteIsTheOnlySimpleRoute(ROUTE);
    assert Reachable(SAMPLE, START, END);
    bfs, dfs, astar := CompareAlgorithms(SAMPLE, START, END);
    forall w | Walk(SAMPLE, START, END, w) && Simple(w) ensures |w| == 13 {
      RouteIsTheOnlySimpleRoute(w);
    }
  }
}
