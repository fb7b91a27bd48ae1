/**
 * `compare_algorithms` (search_algorithms.py:100-118) without its printing:
 * the three solvers run on the same grid, and what each table row would
 * show apart from the elapsed time.
 */
module Comparison {
  import opened Grids
  import opened SearchAlgorithms
  import opened AStarSearch

  /** One row of the comparison table: the path length (None prints "N/A") and the cells expanded. */
  datatype Row = Row(length: Option<nat>, expanded: nat)

  function LengthOf(path: Option<seq<Pos>>): (r: Option<nat>)
    ensures r.Some? <==> path.Some?
    ensures path.Some? ==> r.value == |path.value|
  {
    match path
    case None => None
    case Some(p) => Some(|p|)
  }

  /** A row's length is that of a route from `start` to `end` that never repeats a cell. */
  ghost predicate RouteLength(g: Grid, start: Pos, end: Pos, length: Option<nat>) {
    length.Some? ==> exists w :: Walk(g, start, end, w) && Simple(w) && |w| == length.value
  }

  /**
   * The three solvers agree on whether the end can be reached, and when it
   * can, the breadth-first path is never longer than the other two.
   */
  method CompareAlgorithms(g: Grid, start: Pos, end: Pos) returns (bfs: Row, dfs: Row, astar: Row)
    requires Rectangular(g)
    ensures bfs.length.Some? <==> Reachable(g, start, end)
    ensures dfs.length.Some? <==> bfs.length.Some?
    ensures astar.length.Some? <==> bfs.length.Some?
    ensures RouteLength(g, start, end, bfs.length) && RouteLength(g, start, end, dfs.length) && RouteLength(g, start, end, astar.length)
    ensures bfs.length.Some? ==> bfs.length.value <= dfs.length.value && bfs.length.value <= astar.length.value
    ensures InBounds(g, start) ==> bfs.expanded <= |g| * |g[0]| && dfs.expanded <= |g| * |g[0]|
    ensures start == end ==> bfs == dfs == astar == Row(Some(1), 1)
  {
    var bfsPath, bfsNodes := Bfs(g, start, end);
    var dfsPath, dfsNodes := Dfs(g, start, end);
    var astarPath, astarNodes;
    ghost var closedSet;
    astarPath, astarNodes, closedSet := AStar(g, start, end);
    bfs := Row(LengthOf(bfsPath), bfsNodes);
    dfs := Row(LengthOf(dfsPath), dfsNodes);
    astar := Row(LengthOf(astarPath), astarNodes);
  }
}
