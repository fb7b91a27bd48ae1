# MazeSolver in Dafny

A model of MazeSolver's core: three path finders on a grid maze, plus the random maze generator that feeds them.

- A maze is a rectangular list of rows of 0 (open) and 1 (wall). Cells are addressed as (row, column).
- A solver moves up, down, left and right (in that order) between open cells.
- `bfs`, `dfs` and `a_star` each return the path they found (or None), how many frontier entries they popped, and the time taken.
- `heuristic` is the Manhattan distance used by A*.
- `generate_maze` draws grids with a wall density chosen by difficulty. It opens the top-left and bottom-right corners and keeps the first grid that `is_solvable` accepts.
- `compare_algorithms` runs all three solvers on one grid.

## Modules

| file | module | models |
|---|---|---|
| grid.dfy | `Grids` | shared definitions: cells, moves, walks, reachability, the neighbours one expansion pushes, cell counting |
| frontier.dfy | `Frontier` | the frontier entries, push loop and loop invariant that `bfs` and `dfs` share |
| search.dfy | `SearchAlgorithms` | `heuristic`, `bfs` (with its shortest-path proof), `dfs` |
| astar.dfy | `AStarSearch` | `a_star`, including the exact order in which Python's heap compares its tuples |
| maze.dfy | `Maze` | the difficulty table, `is_solvable`, `generate_maze` |
| compare.dfy | `Comparison` | `compare_algorithms` without its printing |
| sample.dfy | `SampleMaze` | the 5x5 example grid at the bottom of search_algorithms.py |

Modelling choices:

- A path is a `seq<Pos>`.
- A *walk* from `s` starts at `s` and then moves only onto open, adjacent cells. The start cell itself is never checked, exactly as in the source: it may be a wall or lie outside the grid.
- The searches are `method`s whose `while` loops mirror the source.
  - `visited` is a `set`.
  - The deque, stack and heap are `seq`s, popped at the front, the back, and the least element respectively.
  - A ghost set of popped cells carries the loop invariants.
- The four-direction push loop is factored into a helper method in each file. Its contract says exactly which entries it appends.

## Model

| member | source | states |
|---|---|---|
| Grids.StepIsAdjacent | search_algorithms.py:24-25 | each of the four moves reaches an orthogonally adjacent cell, and different moves reach different cells |
| Grids.AdjacentIsStep | search_algorithms.py:24-25 | every orthogonally adjacent cell is reached by one of the four moves |
| Grids.WalkExtend | search_algorithms.py:26-27 | appending an open neighbour of a walk's last cell gives a walk to that neighbour |
| Grids.ReachableStep | search_algorithms.py:26-27 | an open neighbour of a reachable cell is reachable |
| Grids.ClosedHoldsWalk | search_algorithms.py:18-30 | a set holding the start and every open neighbour of its cells holds every cell of every walk from the start |
| Grids.ClosedHoldsReachable | search_algorithms.py:18-30 | such a closed set holds every reachable cell (completeness of an exhausted search) |
| Grids.ClosedReachableIsReachableCells | search_algorithms.py:18-30 | a closed set of reachable cells containing the start is exactly the set of reachable cells |
| Grids.FreshFacts | search_algorithms.py:24-28 | one expansion pushes only open, adjacent, unvisited cells, each once and at most four; every open neighbour ends up visited or pushed |
| Grids.PickSkipsPushed | maze.py:40-42 | marking the cells an expansion has already pushed does not change whether the next move pushes |
| Grids.CellsCount | search_algorithms.py:11 | a rows-by-cols grid has rows * cols cells |
| Grids.UniverseCount | search_algorithms.py:11-14 | the cells a search can hold number rows * cols, one more when the start lies outside the grid |
| Grids.SubsetOfUniverse | search_algorithms.py:13-14 | any set of such cells is at most rows * cols large (plus one for an outside start) |
| Frontier.TryPush | search_algorithms.py:25-28 | one move marks and appends its cell, with the popped path extended by it, exactly when that cell is open (inside the grid, not a wall) and not yet visited |
| Frontier.EnqueueNeighbours | search_algorithms.py:24-28 | appends, in move order, exactly the open unvisited neighbours, each with the popped path extended by it, and marks exactly those visited |
| Frontier.FrontierInit | search_algorithms.py:12-14 | the initial frontier [(start, [start])] with visited {start} satisfies the loop invariant |
| Frontier.FrontierStep | search_algorithms.py:18-28 | popping any entry that is not the end and pushing its fresh neighbours keeps the invariant, and the popped cell is new |
| Frontier.PushedEntryOk | search_algorithms.py:27 | a pushed entry's path is a simple walk from the start to its cell |
| Frontier.PoppedEnd | search_algorithms.py:21-22 | the path returned when the end is popped is a simple walk from start to end, and the pop count is within the grid size |
| Frontier.Exhausted | search_algorithms.py:30 | when the frontier runs dry, the end is unreachable and the popped cells are exactly the reachable ones |
| SearchAlgorithms.HeuristicIsMetric | search_algorithms.py:61-66 | the Manhattan distance is symmetric, zero exactly on equal cells, and obeys the triangle inequality |
| SearchAlgorithms.HeuristicOfAdjacent | search_algorithms.py:61-66 | two cells are adjacent exactly when their distance is 1 |
| SearchAlgorithms.HeuristicIsAdmissible | search_algorithms.py:61-66 | no walk from s to e makes fewer than heuristic(s, e) moves |
| SearchAlgorithms.LayerLengths | search_algorithms.py:19-27 | after a popleft and the pushes, queued path lengths are non-decreasing and span at most two values |
| SearchAlgorithms.PushedIsShortest | search_algorithms.py:26-28 | a cell first pushed from a path of d cells has no walk shorter than d + 1 cells |
| SearchAlgorithms.NextLayer | search_algorithms.py:18-28 | when the queue's front moves to the next length, all shorter walks end in popped cells |
| SearchAlgorithms.LayerStep | search_algorithms.py:18-28 | one popleft and its pushes keep every queued path shortest and the queue in layers |
| SearchAlgorithms.Bfs | search_algorithms.py:5-30 | returns a path exactly when the end is reachable; that path is a simple walk no longer than any walk from start to end; when none is found the count equals the number of reachable cells; 1 <= count <= rows * cols (plus one for an outside start); start == end gives [start] after one pop |
| SearchAlgorithms.Dfs | search_algorithms.py:33-58 | the same as Bfs except shortness: a path exactly when reachable, a simple walk, the count equal to the reachable cells when none, the same bounds and the same start == end case |
| AStarSearch.PathLessTransitive | search_algorithms.py:82 | Python's ordering of coordinate lists is transitive |
| AStarSearch.PathLessTotal | search_algorithms.py:82 | of two different coordinate lists exactly one is smaller |
| AStarSearch.NodeLessIsStrictTotalOrder | search_algorithms.py:82 | the heap's (priority, cell, path) tuple order is irreflexive, transitive and total |
| AStarSearch.MinIndex | search_algorithms.py:82 | finds a heap entry that no other entry is smaller than |
| AStarSearch.MinIsUnique | search_algorithms.py:82 | any two such least entries are equal, so the popped entry does not depend on the heap's layout |
| AStarSearch.PriorityAtLeastCostPlusHeuristic | search_algorithms.py:94 | the pushed priority is at least moves-so-far plus heuristic, and strictly more once the path has two moves and its next-to-last cell is not the end |
| AStarSearch.PriorityIsNotCostPlusHeuristic | search_algorithms.py:94 | two moves towards (0,3) from (0,0) carry priority 5 where g + h is 3 |
| AStarSearch.TryMove | search_algorithms.py:92-95 | one move pushes exactly when its cell is open and not yet visited, and the node pushed carries one more move plus that cell's heuristic on top of the popped priority |
| AStarSearch.PushSuccessors | search_algorithms.py:91-95 | appends exactly the successors of the open unvisited neighbours, in move order |
| AStarSearch.SkipStep | search_algorithms.py:87-88 | discarding a popped entry whose cell is already visited keeps the invariant |
| AStarSearch.VisitStep | search_algorithms.py:89-95 | visiting a new popped cell and pushing its successors keeps the invariant |
| AStarSearch.SuccessorsOk | search_algorithms.py:91-95 | every node an expansion pushes is a simple walk from the start with the accumulated priority |
| AStarSearch.PushedNodeOk | search_algorithms.py:95 | a pushed node is a simple walk with the accumulated priority |
| AStarSearch.AStar | search_algorithms.py:69-97 | returns a path exactly when the end is reachable, and it is a simple walk; the final visited set holds only reachable cells and never the end; it is smaller than the count when a path is found, because the end's pop is counted but the end is never visited; when no path is found it is exactly the reachable cells; start == end gives [start] after one pop |
| Maze.WallPercentTable | maze.py:11-15 | easy, medium and hard walls at 20, 30 and 40 percent, in increasing order; any other name gets 30 |
| Maze.SolvableInit | maze.py:30-31 | the queue [start] with visited {start} satisfies the loop invariant |
| Maze.SolvableStep | maze.py:33-43 | popping a cell other than the end and queueing its fresh neighbours keeps the invariant |
| Maze.TryEnqueue | maze.py:39-43 | one move marks and queues its cell exactly when that cell is open (inside the grid, not a wall) and not yet visited |
| Maze.EnqueueCells | maze.py:38-43 | appends exactly the open unvisited neighbours, in move order, and marks exactly those visited |
| Maze.IsSolvable | maze.py:27-44 | answers true exactly when the end is reachable (at once when start == end), within rows * cols loop turns (plus one for an outside start) |
| Maze.OpenCorners | maze.py:20-21 | the grid keeps its shape, both corners hold 0, and every other cell is unchanged |
| Maze.OpenCornersBinary | maze.py:19-21 | opening the corners of a 0/1 grid of the given shape leaves a 0/1 grid of that shape |
| Maze.GenerateAttempt | maze.py:19-25 | keeps a sampled grid exactly when its corner-opened version connects (0,0) to (rows-1, cols-1); the grid kept has the right shape, holds only 0 and 1, and has both corners open |
| Maze.GenerateMaze | maze.py:3-25 | returns the corner-opened version of the first acceptable sample, having rejected every earlier one; the result has the right shape and open corners, and its corners are connected |
| Comparison.CompareAlgorithms | search_algorithms.py:100-118 | the three solvers agree on whether a path exists; each length belongs to a simple route; the BFS length is at most the DFS and A* lengths; a one-cell case gives three rows of length 1 and count 1 |
| SampleMaze.ChainIsSimpleWalk | search_algorithms.py:122-128 | the 17 open cells of the example grid, in order, form a simple walk whose first 13 cells run from (0,0) to (4,4) |
| SampleMaze.ChainNeighbours | search_algorithms.py:122-128 | each open cell's open neighbours are its predecessor and successor on that chain |
| SampleMaze.WalkStaysOnChain | search_algorithms.py:122-128 | a walk from a chain's first cell ends on the chain no further along than its number of moves |
| SampleMaze.SimpleWalkFollowsChain | search_algorithms.py:122-128 | a walk from the chain's first cell that never repeats a cell is an initial part of the chain |
| SampleMaze.RouteIsTheOnlySimpleRoute | search_algorithms.py:122-130 | the 13-cell route is a route from (0,0) to (4,4), and the only one that never repeats a cell |
| SampleMaze.NoRouteShorterThan13 | search_algorithms.py:122-130 | every walk from (0,0) to (4,4) has at least 13 cells |
| SampleMaze.CompareOnSample | search_algorithms.py:122-132 | on the example grid all three solvers return paths of 13 cells, and BFS and DFS pop at most 25 entries |

## Notes on the source

- **The example grid's route.** In the grid at search_algorithms.py:122-128, every open cell lies on one chain. The only route from (0,0) to (4,4) that never repeats a cell has 13 cells, and no walk between them is shorter. `SampleMaze.CompareOnSample` proves that all three solvers return a 13-cell path there.
- **The A* priority.** The code pushes `cost + 1 + heuristic(neighbour)`, where `cost` is the popped node's *priority*, not its path length (search_algorithms.py:94). Every heuristic value along the path therefore accumulates in the priority, which is not the usual f = g + h. The model follows the code:
  - `AStarSearch.PathPriority` is that accumulated sum.
  - `AStarSearch.PriorityAtLeastCostPlusHeuristic` and `AStarSearch.PriorityIsNotCostPlusHeuristic` show how it departs from g + h.
  - `AStarSearch.AStar` proves that the path is valid, simple and complete, but not that it is shortest. The accumulated priority does not guarantee that: a longer path whose cells stay closer to the end can carry the smaller priority.

## Left out

- Elapsed time: `time.perf_counter()` and the third result of each search are not modelled, because they depend on the clock.
- Randomness: `random.random()` and the float comparison against the wall probability are not modelled. Each sampled grid is an input. `Maze.WallPercent` gives the probability in whole percent.
- The unbounded `while True` of `generate_maze` cannot be shown to terminate. `Maze.GenerateMaze` runs over a finite sequence of samples and answers None when they run out.
- Maze.GenerateMaze: does not state that the difficulty's density governs the samples, because the density only affects the random draw.
- AStarSearch.AStar: has no shortest-path clause. The source's accumulated priority does not guarantee one (see above).
- `heapq`'s array layout is not modelled. The heap is a sequence from which the least entry under Python's tuple order is removed, and `AStarSearch.MinIsUnique` shows that this entry does not depend on the layout.
- Python's `deque` and list costs are not modelled: `popleft` and `pop(0)` are both a removal from the front of a `seq`.
- Printing is not modelled: `print_maze`, the printed table of `compare_algorithms`, and the `__main__` blocks except the example grid.
- gui.py (the Tkinter front end) is not part of this model.
- Grids that are empty, zero-width or ragged are excluded by a precondition: every entry point requires at least one row and one column, with all rows the same length. The source behaves as follows on other grids. An empty grid makes `len(maze[0])` fail. A row shorter than the first fails once a search indexes past its end. Cells beyond the first row's width are never read, because `cols = len(maze[0])`. On a zero-width grid such as `[[]]`, the bounds test rejects every neighbour, so the three searches return `[start]` or `None` after one pop and `is_solvable` answers `start == end`; only `generate_maze` fails there, at maze.py:20. The model does not cover that zero-width case.
