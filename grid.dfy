/**
 * The grid shared by the generator and the three solvers: a rectangular list of
 * rows whose cells are 0 (open) or 1 (wall), coordinates (row, col), the four
 * orthogonal moves in the order the source tries them, and what it means for a
 * cell to be reachable from a start cell.
 */
module Grids {

  datatype Option<T> = None | Some(value: T)

  /** A coordinate: `row` indexes the outer list, `col` the inner one. */
  datatype Pos = Pos(row: int, col: int)

  type Grid = seq<seq<int>>

  /** What every entry point needs: at least one row and one column, and all rows equally long. */
  predicate Rectangular(g: Grid) {
    |g| >= 1 && |g[0]| >= 1 && forall i :: 0 <= i < |g| ==> |g[i]| == |g[0]|
  }

  predicate InBounds(g: Grid, p: Pos) {
    0 <= p.row < |g| && 0 <= p.col < |g[p.row]|
  }

  /** A cell a search may step onto: inside the grid and holding 0. */
  predicate Open(g: Grid, p: Pos) {
    InBounds(g, p) && g[p.row][p.col] == 0
  }

  /** A list with the element at `idx` popped: the elements before it, then those after it, shifted down. */
  function Without<T>(s: seq<T>, idx: int): (r: seq<T>)
    requires 0 <= idx < |s|
    ensures |r| == |s| - 1
    ensures forall i :: 0 <= i < idx ==> r[i] == s[i]
    ensures forall i :: idx <= i < |r| ==> r[i] == s[i + 1]
  {
    s[..idx] + s[idx + 1..]
  }

  /** Up, down, left, right, in the order every loop of the source tries them. */
  const MOVES: seq<(int, int)> := [(-1, 0), (1, 0), (0, -1), (0, 1)]

  function Step(p: Pos, k: int): (r: Pos)
    requires 0 <= k < 4
  {
    Pos(p.row + MOVES[k].0, p.col + MOVES[k].1)
  }

  /** One orthogonal unit move apart. */
  predicate Adjacent(p: Pos, q: Pos) {
    (p.row == q.row && (q.col == p.col + 1 || q.col == p.col - 1)) ||
    (p.col == q.col && (q.row == p.row + 1 || q.row == p.row - 1))
  }

  lemma StepIsAdjacent(p: Pos, k: int)
    requires 0 <= k < 4
    ensures Adjacent(p, Step(p, k))
    ensures forall j :: 0 <= j < 4 && j != k ==> Step(p, j) != Step(p, k)
  {
  }

  /** The four moves reach exactly the adjacent cells. */
  lemma AdjacentIsStep(p: Pos, q: Pos)
    requires Adjacent(p, q)
    ensures q == Step(p, 0) || q == Step(p, 1) || q == Step(p, 2) || q == Step(p, 3)
  {
  }

  /**
   * A walk from `s`: its first cell is `s` (which is never checked), every later
   * cell is open and one move away from the cell before it.
   */
  ghost predicate WalkFrom(g: Grid, s: Pos, w: seq<Pos>) {
    |w| >= 1 && w[0] == s &&
    forall i :: 1 <= i < |w| ==> Open(g, w[i]) && Adjacent(w[i - 1], w[i])
  }

  ghost predicate Walk(g: Grid, s: Pos, e: Pos, w: seq<Pos>) {
    WalkFrom(g, s, w) && w[|w| - 1] == e
  }

  ghost predicate Reachable(g: Grid, s: Pos, e: Pos) {
    exists w :: Walk(g, s, e, w)
  }

  /** No coordinate occurs twice. */
  predicate Simple(w: seq<Pos>) {
    forall i, j :: 0 <= i < j < |w| ==> w[i] != w[j]
  }

  function Elems(s: seq<Pos>): (r: set<Pos>) {
    set x | x in s
  }

  function Cells(rows: nat, cols: nat): (r: set<Pos>) {
    set r, c | 0 <= r < rows && 0 <= c < cols :: Pos(r, c)
  }

  /** Every cell a search can ever hold: the grid's cells and the start, which may lie outside. */
  function Universe(g: Grid, s: Pos): (r: set<Pos>)
    requires Rectangular(g)
  {
    Cells(|g|, |g[0]|) + {s}
  }

  /** The cells reachable from `s`, `s` itself included. */
  ghost function ReachableCells(g: Grid, s: Pos): (r: set<Pos>)
    requires Rectangular(g)
  {
    set p | p in Universe(g, s) && Reachable(g, s, p)
  }

  /** A set is closed when it holds every open neighbour of each of its cells. */
  ghost predicate Closed(g: Grid, v: set<Pos>) {
    forall a, b :: a in v && Adjacent(a, b) && Open(g, b) ==> b in v
  }

  lemma WalkSingleton(g: Grid, s: Pos)
    ensures Walk(g, s, s, [s]) && Reachable(g, s, s)
  {
    assert Walk(g, s, s, [s]);
  }

  lemma WalkExtend(g: Grid, s: Pos, w: seq<Pos>, q: Pos)
    requires WalkFrom(g, s, w) && Open(g, q) && Adjacent(w[|w| - 1], q)
    ensures Walk(g, s, q, w + [q])
  {
  }

  lemma WalkPrefix(g: Grid, s: Pos, w: seq<Pos>)
    requires WalkFrom(g, s, w) && |w| >= 2
    ensures WalkFrom(g, s, w[..|w| - 1])
    ensures Open(g, w[|w| - 1]) && Adjacent(w[|w| - 2], w[|w| - 1])
  {
  }

  /** One more move onto an open cell keeps a cell reachable. */
  lemma ReachableStep(g: Grid, s: Pos, p: Pos, q: Pos)
    requires Reachable(g, s, p) && Open(g, q) && Adjacent(p, q)
    ensures Reachable(g, s, q)
  {
    var w :| Walk(g, s, p, w);
    WalkExtend(g, s, w, q);
  }

  /** A closed set that holds the start holds the end of every walk from it. */
  lemma {:induction false} ClosedHoldsWalk(g: Grid, v: set<Pos>, s: Pos, w: seq<Pos>)
    requires s in v && Closed(g, v) && WalkFrom(g, s, w)
    ensures w[|w| - 1] in v
  {
    if |w| >= 2 {
      WalkPrefix(g, s, w);
      ClosedHoldsWalk(g, v, s, w[..|w| - 1]);
    }
  }

  /** Hence a closed set around the start holds every reachable cell. */
  lemma ClosedHoldsReachable(g: Grid, v: set<Pos>, s: Pos, e: Pos)
    requires s in v && Closed(g, v) && Reachable(g, s, e)
    ensures e in v
  {
    var w :| Walk(g, s, e, w);
    ClosedHoldsWalk(g, v, s, w);
  }

  lemma ReachableInUniverse(g: Grid, s: Pos, e: Pos)
    requires Rectangular(g) && Reachable(g, s, e)
    ensures e in Universe(g, s)
  {
  }

  /** The cells of a closed set around `s` whose cells are all reachable are exactly the reachable cells. */
  lemma ClosedReachableIsReachableCells(g: Grid, v: set<Pos>, s: Pos)
    requires Rectangular(g)
    requires s in v && Closed(g, v) && v <= Universe(g, s)
    requires forall a :: a in v ==> Reachable(g, s, a)
    ensures v == ReachableCells(g, s)
  {
    forall e | e in ReachableCells(g, s) ensures e in v {
      ClosedHoldsReachable(g, v, s, e);
    }
  }

  /** The `k`-th neighbour of `p` when a search would push it: open and not yet in `visited`. */
  function Pick(g: Grid, p: Pos, visited: set<Pos>, k: int): (r: seq<Pos>)
    requires 0 <= k < 4
  {
    var n := Step(p, k);
    if Open(g, n) && n !in visited then [n] else []
  }

  /** The neighbours the first `k` moves push, in the order they are pushed. */
  function FreshBelow(g: Grid, p: Pos, visited: set<Pos>, k: int): (r: seq<Pos>)
    requires 0 <= k <= 4
  {
    if k == 0 then [] else FreshBelow(g, p, visited, k - 1) + Pick(g, p, visited, k - 1)
  }

  /** The neighbours one expansion of `p` pushes. */
  function Fresh(g: Grid, p: Pos, visited: set<Pos>): (r: seq<Pos>) {
    FreshBelow(g, p, visited, 4)
  }

  /**
   * What the first `k` moves push: open neighbours of `p` not in `visited`, no
   * coordinate twice, none of the later moves' cells, and every open neighbour
   * they pass over is already in `visited`.
   */
  lemma {:induction false} FreshBelowFacts(g: Grid, p: Pos, visited: set<Pos>, k: int)
    requires 0 <= k <= 4
    ensures forall i :: 0 <= i < |FreshBelow(g, p, visited, k)| ==>
      var n := FreshBelow(g, p, visited, k)[i]; Open(g, n) && Adjacent(p, n) && n !in visited
    ensures Simple(FreshBelow(g, p, visited, k))
    ensures forall j :: 0 <= j < k && Open(g, Step(p, j)) ==>
      Step(p, j) in visited || Step(p, j) in FreshBelow(g, p, visited, k)
    ensures forall j :: k <= j < 4 ==> Step(p, j) !in FreshBelow(g, p, visited, k)
  {
    if k > 0 {
      FreshBelowFacts(g, p, visited, k - 1);
      StepIsAdjacent(p, k - 1);
      var prev := FreshBelow(g, p, visited, k - 1);
      assert FreshBelow(g, p, visited, k) == prev + Pick(g, p, visited, k - 1);
      forall j | k <= j < 4 ensures Step(p, j) !in FreshBelow(g, p, visited, k) {
        StepIsAdjacent(p, j);
      }
    }
  }

  lemma ElemsConcat(a: seq<Pos>, b: seq<Pos>)
    ensures Elems(a + b) == Elems(a) + Elems(b)
  {
    forall x | x in Elems(a) ensures x in Elems(a + b) {
      var i :| 0 <= i < |a| && a[i] == x;
      assert (a + b)[i] == x;
    }
    forall x | x in Elems(b) ensures x in Elems(a + b) {
      var i :| 0 <= i < |b| && b[i] == x;
      assert (a + b)[|a| + i] == x;
    }
  }

  /** Marking the cells already pushed does not change whether move `k` pushes. */
  lemma PickSkipsPushed(g: Grid, p: Pos, visited: set<Pos>, k: int)
    requires 0 <= k < 4
    ensures Pick(g, p, visited + Elems(FreshBelow(g, p, visited, k)), k) == Pick(g, p, visited, k)
  {
    FreshBelowFacts(g, p, visited, k);
  }

  /** One expansion pushes open unvisited neighbours, each once, and leaves no open neighbour behind. */
  lemma FreshFacts(g: Grid, p: Pos, visited: set<Pos>)
    ensures forall n :: n in Fresh(g, p, visited) ==> Open(g, n) && Adjacent(p, n) && n !in visited
    ensures Simple(Fresh(g, p, visited)) && |Fresh(g, p, visited)| <= 4
    ensures forall q :: Adjacent(p, q) && Open(g, q) ==> q in visited || q in Fresh(g, p, visited)
  {
    FreshBelowFacts(g, p, visited, 4);
    forall q | Adjacent(p, q) && Open(g, q) ensures q in visited || q in Fresh(g, p, visited) {
      AdjacentIsStep(p, q);
    }
    FreshLength(g, p, visited, 4);
  }

  lemma {:induction false} FreshLength(g: Grid, p: Pos, visited: set<Pos>, k: int)
    requires 0 <= k <= 4
    ensures |FreshBelow(g, p, visited, k)| <= k
  {
    if k > 0 {
      FreshLength(g, p, visited, k - 1);
    }
  }

  function RowCells(r: int, cols: nat): (cells: set<Pos>) {
    set c | 0 <= c < cols :: Pos(r, c)
  }

  lemma {:induction false} RowCellsCount(r: int, cols: nat)
    ensures |RowCells(r, cols)| == cols
  {
    if cols > 0 {
      RowCellsCount(r, cols - 1);
      assert RowCells(r, cols) == RowCells(r, cols - 1) + {Pos(r, cols - 1)};
    } else {
      assert RowCells(r, cols) == {};
    }
  }

  /** The cells of `rows` rows: those of the first `rows - 1` rows, and the last row's. */
  lemma CellsSplit(rows: nat, cols: nat)
    requires rows > 0
    ensures Cells(rows, cols) == Cells(rows - 1, cols) + RowCells(rows - 1, cols)
    ensures Cells(rows - 1, cols) !! RowCells(rows - 1, cols)
  {
  }

  /** A grid of `rows` by `cols` has `rows * cols` cells. */
  lemma {:induction false} CellsCount(rows: nat, cols: nat)
    ensures |Cells(rows, cols)| == rows * cols
  {
    if rows > 0 {
      CellsCount(rows - 1, cols);
      RowCellsCount(rows - 1, cols);
      CellsSplit(rows, cols);
      assert (rows - 1) * cols + cols == rows * cols;
    } else {
      assert Cells(rows, cols) == {};
    }
  }

  /** How many cells a search can touch: the grid's cells, and one more when the start lies outside. */
  lemma UniverseCount(g: Grid, s: Pos)
    requires Rectangular(g)
    ensures InBounds(g, s) ==> |Universe(g, s)| == |g| * |g[0]|
    ensures !InBounds(g, s) ==> |Universe(g, s)| == |g| * |g[0]| + 1
  {
    CellsCount(|g|, |g[0]|);
    if InBounds(g, s) {
      assert s in Cells(|g|, |g[0]|);
      assert Universe(g, s) == Cells(|g|, |g[0]|);
    } else {
      assert s !in Cells(|g|, |g[0]|);
    }
  }

  /** Any set of cells a search has touched is no larger than the grid (plus an outside start). */
  lemma SubsetOfUniverse(g: Grid, s: Pos, v: set<Pos>)
    requires Rectangular(g) && v <= Universe(g, s)
    ensures |v| <= |Universe(g, s)|
    ensures InBounds(g, s) ==> |v| <= |g| * |g[0]|
    ensures |v| <= |g| * |g[0]| + 1
  {
    UniverseCount(g, s);
    SubsetCard(v, Universe(g, s));
  }

  lemma {:induction false} SubsetCard(a: set<Pos>, b: set<Pos>)
    requires a <= b
    ensures |a| <= |b|
    decreases |b|
  {
    if a != {} {
      var x :| x in a;
      SubsetCard(a - {x}, b - {x});
    }
  }

  /** Popping a new cell of the universe shrinks what is left of it. */
  lemma Progress(u: set<Pos>, done: set<Pos>, p: Pos)
    requires p in u && p !in done
    ensures |u - (done + {p})| < |u - done|
  {
    assert u - done == (u - (done + {p})) + {p};
  }
}
