/**
 * maze.py: the wall density of each difficulty, the reachability check
 * `is_solvable`, and `generate_maze`'s sample / open-corners / check / retry
 * loop. The random draws are not modelled: each sampled grid is an input.
 */
module Maze {
  import opened Grids

  /**
   * The wall probability of a difficulty, in percent (maze.py:11-15); a name
   * not in the table falls back to the medium density.
   */
  function WallPercent(difficulty: string): (r: nat) {
    var table := map["easy" := 20, "medium" := 30, "hard" := 40];
    if difficulty in table then table[difficulty] else 30
  }

  /** The three tiers' densities, the fallback, and their order. */
  lemma WallPercentTable(difficulty: string)
    ensures WallPercent("easy") == 20 && WallPercent("medium") == 30 && WallPercent("hard") == 40
    ensures difficulty != "easy" && difficulty != "hard" ==> WallPercent(difficulty) == 30
    ensures WallPercent("easy") < WallPercent("medium") < WallPercent("hard")
  {
  }

  /**
   * The invariant of the `is_solvable` loop: `done` (ghost) holds the popped
   * cells, `visited` is `done` plus the queue, no cell is queued twice, every
   * visited cell is reachable, each popped cell's open neighbours are visited,
   * and the end has not been popped.
   */
  ghost predicate SolvableInv(g: Grid, s: Pos, e: Pos, queue: seq<Pos>, visited: set<Pos>, done: set<Pos>)
    requires Rectangular(g)
  {
    && visited == done + Elems(queue) && done !! Elems(queue) && Simple(queue)
    && s in visited && visited <= Universe(g, s)
    && (forall a :: a in visited ==> Reachable(g, s, a))
    && (forall a, b :: a in done && Adjacent(a, b) && Open(g, b) ==> b in visited)
    && e !in done
    && (done == {} ==> queue == [s])
    && (done == {} || s in done)
  }

  lemma SolvableInit(g: Grid, s: Pos, e: Pos)
    requires Rectangular(g)
    ensures SolvableInv(g, s, e, [s], {s}, {})
  {
    WalkSingleton(g, s);
  }

  /** Popping the front cell (not the end) and queueing its fresh neighbours keeps the invariant. */
  lemma SolvableStep(g: Grid, s: Pos, e: Pos, queue: seq<Pos>, visited: set<Pos>, done: set<Pos>)
    requires Rectangular(g) && SolvableInv(g, s, e, queue, visited, done)
    requires |queue| > 0 && queue[0] != e
    ensures
      var x := queue[0];
      var ns := Fresh(g, x, visited);
      && SolvableInv(g, s, e, queue[1..] + ns, visited + Elems(ns), done + {x})
      && x !in done && x in Universe(g, s)
  {
    var x := queue[0];
    var ns := Fresh(g, x, visited);
    var q' := queue[1..] + ns;
    FreshFacts(g, x, visited);
    assert queue == [x] + queue[1..];
    assert Elems(queue) == {x} + Elems(queue[1..]);
    assert x !in Elems(queue[1..]);
    assert Elems(q') == Elems(queue[1..]) + Elems(ns);
    forall i, j | 0 <= i < j < |q'| ensures q'[i] != q'[j] {
      if j >= |queue| - 1 && i < |queue| - 1 {
        assert q'[i] in Elems(queue);
        assert q'[j] in ns;
      }
    }
    forall n | n in ns ensures n in Universe(g, s) && Reachable(g, s, n) {
      assert Pos(n.row, n.col) in Cells(|g|, |g[0]|);
      ReachableStep(g, s, x, n);
    }
  }

  /**
   * One turn of the inner loop of `is_solvable` (maze.py:39-43): the cell of
   * move `k` is marked and queued exactly when it is inside the grid, open and
   * not yet visited.
   */
  method TryEnqueue(g: Grid, x: Pos, k: int, queue: seq<Pos>, visited: set<Pos>) returns (queue': seq<Pos>, visited': set<Pos>)
    requires Rectangular(g) && 0 <= k < 4
    ensures queue' == queue + Pick(g, x, visited, k)
    ensures visited' == visited + Elems(Pick(g, x, visited, k))
  {
    var n := Step(x, k);
    if 0 <= n.row < |g| && 0 <= n.col < |g[0]| && g[n.row][n.col] == 0 && n !in visited {
      queue', visited' := queue + [n], visited + {n};
      assert Elems([n]) == {n};
    } else {
      queue', visited' := queue, visited;
    }
  }

  /**
   * The inner loop of `is_solvable` (maze.py:38-43): each open, unvisited
   * neighbour is marked visited and queued.
   */
  method EnqueueCells(g: Grid, x: Pos, queue: seq<Pos>, visited: set<Pos>) returns (queue': seq<Pos>, visited': set<Pos>)
    requires Rectangular(g)
    ensures queue' == queue + Fresh(g, x, visited)
    ensures visited' == visited + Elems(Fresh(g, x, visited))
  {
    queue', visited' := queue, visited;
    for k := 0 to 4
      invariant queue' == queue + FreshBelow(g, x, visited, k)
      invariant visited' == visited + Elems(FreshBelow(g, x, visited, k))
    {
      PickSkipsPushed(g, x, visited, k);
      ghost var before := FreshBelow(g, x, visited, k);
      ElemsConcat(before, Pick(g, x, visited, k));
      queue', visited' := TryEnqueue(g, x, k, queue', visited');
      assert queue' == queue + (before + Pick(g, x, visited, k));
    }
  }

  /**
   * `is_solvable` (maze.py:27-44): breadth-first reachability over open cells.
   * It answers true exactly when the end is reachable (at once when start and
   * end coincide, whatever that cell holds), and `rounds`, the number of loop
   * turns, stays within the grid's size.
   */
  method IsSolvable(g: Grid, start: Pos, end: Pos) returns (solvable: bool, ghost rounds: nat)
    requires Rectangular(g)
    ensures solvable <==> Reachable(g, start, end)
    ensures start == end ==> solvable && rounds == 1
    ensures rounds <= |g| * |g[0]| + 1
    ensures InBounds(g, start) ==> rounds <= |g| * |g[0]|
  {
    var queue := [start];
    var visited := {start};
    ghost var done: set<Pos> := {};
    rounds := 0;
    SolvableInit(g, start, end);
    while queue != []
      invariant SolvableInv(g, start, end, queue, visited, done)
      invariant rounds == |done|
      decreases |Universe(g, start) - done|
    {
      var x := queue[0];
      rounds := rounds + 1;
      if x == end {
        assert x in Elems(queue);
        SubsetOfUniverse(g, start, done + {x});
        return true, rounds;
      }
      SolvableStep(g, start, end, queue, visited, done);
      Progress(Universe(g, start), done, x);
      queue, visited := EnqueueCells(g, x, queue[1..], visited);
      done := done + {x};
    }
    assert Closed(g, done);
    if Reachable(g, start, end) {
      ClosedHoldsReachable(g, done, start, end);
    }
    SubsetOfUniverse(g, start, done);
    return false, rounds;
  }

  /** A sampled grid: `rows` rows of `cols` cells, each 0 or 1 (maze.py:19). */
  predicate Binary(m: Grid, rows: int, cols: int) {
    && Rectangular(m) && |m| == rows && |m[0]| == cols
    && forall r, c :: 0 <= r < rows && 0 <= c < cols ==> m[r][c] == 0 || m[r][c] == 1
  }

  /** The cells every generated maze connects: top-left and bottom-right. */
  function Goal(rows: int, cols: int): (r: Pos) {
    Pos(rows - 1, cols - 1)
  }

  /** What `generate_maze` promises of the grid it returns. */
  ghost predicate Generated(m: Grid, rows: int, cols: int) {
    && Binary(m, rows, cols)
    && m[0][0] == 0 && m[rows - 1][cols - 1] == 0
    && Reachable(m, Pos(0, 0), Goal(rows, cols))
  }

  /** Whether `generate_maze` keeps a sample: its corner-opened grid connects the corners. */
  ghost predicate Accepted(sample: Grid, rows: int, cols: int) {
    Binary(sample, rows, cols) && Reachable(OpenCorners(sample), Pos(0, 0), Goal(rows, cols))
  }

  /** A sample with both corners forced open (maze.py:20-21). */
  function OpenCorners(c: Grid): (m: Grid)
    requires Rectangular(c)
    ensures |m| == |c| && forall r :: 0 <= r < |m| ==> |m[r]| == |c[r]|
    ensures m[0][0] == 0 && m[|c| - 1][|c[0]| - 1] == 0
    ensures forall r, k :: 0 <= r < |c| && 0 <= k < |c[r]| && Pos(r, k) != Pos(0, 0) && Pos(r, k) != Goal(|c|, |c[0]|) ==>
      m[r][k] == c[r][k]
  {
    var m := c[0 := c[0][0 := 0]];
    m[|m| - 1 := m[|m| - 1][|c[0]| - 1 := 0]]
  }

  lemma OpenCornersBinary(c: Grid, rows: int, cols: int)
    requires Binary(c, rows, cols)
    ensures Binary(OpenCorners(c), rows, cols)
  {
  }

  /**
   * One pass of `generate_maze`'s loop (maze.py:19-25): open both corners of
   * the sample in place, then keep the grid exactly when `is_solvable` accepts it.
   */
  method GenerateAttempt(rows: nat, cols: nat, sample: Grid) returns (result: Option<Grid>)
    requires Binary(sample, rows, cols)
    ensures result.Some? <==> Accepted(sample, rows, cols)
    ensures result.Some? ==> result.value == OpenCorners(sample) && Generated(result.value, rows, cols)
  {
    var maze := sample;
    maze := maze[0 := maze[0][0 := 0]];
    maze := maze[rows - 1 := maze[rows - 1][cols - 1 := 0]];
    OpenCornersBinary(sample, rows, cols);
    assert maze == OpenCorners(sample);
    var ok;
    ghost var rounds;
    ok, rounds := IsSolvable(maze, Pos(0, 0), Pos(rows - 1, cols - 1));
    if ok {
      return Some(maze);
    }
    return None;
  }

  /**
   * `generate_maze` (maze.py:3-25) over a finite supply of samples: it returns
   * the first sample that is solvable once its corners are opened, rejecting
   * every earlier one; `tries` (ghost) is that sample's index. When the supply
   * runs out without success the source would keep sampling; here the answer
   * is None.
   */
  method GenerateMaze(rows: nat, cols: nat, samples: seq<Grid>) returns (maze: Option<Grid>, ghost tries: nat)
    requires forall i :: 0 <= i < |samples| ==> Binary(samples[i], rows, cols)
    ensures maze.Some? ==> Generated(maze.value, rows, cols)
    ensures maze.Some? ==> tries < |samples| && Accepted(samples[tries], rows, cols) && maze.value == OpenCorners(samples[tries])
    ensures maze.Some? ==> forall j :: 0 <= j < tries ==> !Accepted(samples[j], rows, cols)
    ensures maze.None? ==> forall j :: 0 <= j < |samples| ==> !Accepted(samples[j], rows, cols)
  {
    var i := 0;
    while i < |samples|
      invariant 0 <= i <= |samples|
      invariant forall j :: 0 <= j < i ==> !Accepted(samples[j], rows, cols)
    {
      var attempt := GenerateAttempt(rows, cols, samples[i]);
      if attempt.Some? {
        return attempt, i;
      }
      i := i + 1;
    }
    return None, 0;
  }
}
