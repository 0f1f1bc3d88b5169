# Grid search visualisation: a verified model of its search core

The application compares three uninformed searches on a 20 x 20 grid. It has four parts.

- **Grid generation.** It carves a random walk from the start (0, 0) to the goal (19, 19), then makes each other cell a wall or leaves it open.
- **Three searches.** It runs breadth-first search (BFS), depth-first search (DFS) and iterative deepening (IDS). All three use the neighbour order up, down, left, right.
- **Path display.** It shows the path of the selected algorithm.
- **Metrics ledger.** Every search appends its statistics to a per-algorithm ledger, and the window averages those values.

This project models that core in Dafny and proves what the code promises. The modules follow the program's structure:

- `Grid` (grid.dfy): cells, `is_valid`, the four moves, and what a valid path is. It also has facts about paths on the grid, such as "at least the Manhattan distance" and "on an open grid a shortest path has exactly Manhattan + 1 cells, as a staircase shows".
- `Search` (search.dfy): BFS and DFS as loops over a queue or stack, a visited set and a parent dictionary, plus the dictionary overload of `ReconstructPath`.
  - BFS is proved to return a shortest path.
  - Both searches are proved to answer "no path" only when none exists.
  - Each search counts each cell at most once.
- `Deepening` (deepening.dfy): IDS.
  - `Node` objects with parent references become an arena: a sequence of nodes whose parent is an earlier index.
  - One depth-limited iteration is a loop, proved equal to a specification function `Dls`. The whole search is proved equal to `Ids`.
  - The accounting is stated about `Ids`: iteration count, summed node counts, maximum frontier, and the depth bound on the path.
  - `ReconstructPath(Node)`, the parent-chain length loop and the unused `IsInPath` are methods over the arena.
- `Generation` (generation.dfy): `GenerateRandomPath` and the wall loops of `GenerateGrid`, over an array.
- `Metrics` (metrics.dfy): `PerformanceMetrics` and `PerformanceDataRepository` as classes whose list fields are appended to and cleared in place. It also has the averages the metrics panel shows.
- `Window` (window.dfy): `MainWindow` as a class. Its fields are the grid, the stored path of each algorithm, the displayed path, the selected mode and the ledger.
  - Its methods are the constructor, `GenerateGrid`, the three search wrappers that record metrics, `RunSearchAlgorithms`, the mode buttons and the regenerate button.

Randomness, time and the user interface become parameters:

- `System.Random` becomes two oracles. `choose(k)` is the value behind the k-th `Next(n)` of the walk, and the move taken is `choose(k) % n`. `wall(k)` is the outcome of the k-th wall draw.
- Stopwatch readings are passed in as reals.

The application does not promise that the generated grid has a start-to-goal path, and the model does not claim it. When a walk revisits a cell, `current` moves to the revisited cell but the last cell of the list is removed (MainWindow.xaml.cs:153-163). So the list need not be a chain of neighbouring cells. The comment on `GenerateGrid` says the path is guaranteed; the code is followed here. IDS marks cells visited when they are pushed, so its path need not be a shortest one. The model claims only that the path is valid and bounded by the last depth limit.

## Model

| member | source | states |
|---|---|---|
| Grid.IsValid | MainWindow.xaml.cs:186-190 | a cell `is_valid` accepts lies inside the 20 x 20 grid |
| Grid.NeighborIsAdjacent | MainWindow.xaml.cs:38-44 | each of the four moves reaches a cell at Manhattan distance 1 |
| Grid.AdjacentDirection | MainWindow.xaml.cs:38-44 | every neighbouring cell is reached by one of the four moves |
| Grid.Reverse | MainWindow.xaml.cs:419 | `List.Reverse` keeps the length and puts element i at position n-1-i |
| Grid.FreshFacts | MainWindow.xaml.cs:228-240 | the neighbours a search adds from a cell are distinct, unvisited, open and adjacent, and every open unvisited neighbour is added |
| Grid.CellCountBound | MainWindow.xaml.cs:21-22 | a set of in-grid cells has at most ROWS*COLS = 400 elements |
| Grid.PathAtLeastManhattan | MainWindow.xaml.cs:38-44 | every valid path has at least Manhattan(start, goal) + 1 cells |
| Grid.StaircaseFacts | MainWindow.xaml.cs:38-44 | on a wall-free grid, a staircase path of exactly Manhattan + 1 cells joins any two cells |
| Grid.ShortestOnOpenGrid | MainWindow.xaml.cs:206-226 | on a wall-free grid, a shortest path (what BFS returns) has exactly Manhattan(start, goal) + 1 cells |
| Search.ReconstructPath | MainWindow.xaml.cs:400-421 | walking parents from goal back to start and reversing gives the unique parent chain from start to goal; it returns none only when no chain exists, never when goal has a recorded distance; for start == goal it is [start] |
| Search.ChainUnique | MainWindow.xaml.cs:400-421 | a parent dictionary admits at most one chain from start to goal |
| Search.ChainIsPath | MainWindow.xaml.cs:234-238 | a parent chain in the search tree is a valid path, one cell longer than the goal's recorded depth |
| Search.ScanNeighbors | MainWindow.xaml.cs:228-240 | the direction loop appends exactly the open unvisited neighbours, in direction order, marks them visited and records `current` as their parent |
| Search.MeasureDrops | MainWindow.xaml.cs:234-238 | marking the fresh neighbours visited grows the visited set by their number and keeps it within 401 cells |
| Search.BfsStep | MainWindow.xaml.cs:213-240 | dequeuing a non-goal cell and enqueuing its fresh neighbours keeps the BFS invariant: parent tree, level order of the queue, closed finished cells |
| Search.BfsFound | MainWindow.xaml.cs:216-219 | when the dequeued cell is the goal, the reconstructed path is valid and no valid path is shorter |
| Search.Exhausted | MainWindow.xaml.cs:244-249 | when the queue empties without the goal, no valid path exists |
| Search.VisitedBound | MainWindow.xaml.cs:198-204 | with an in-grid start the visited set, and so the node count, stays within 400 |
| Search.BfsExpand | MainWindow.xaml.cs:213-240 | one dequeue-and-expand step keeps the BFS invariant and counts one more finished cell |
| Search.BfsFinish | MainWindow.xaml.cs:216-225 | on the goal, BFS returns a shortest valid path, [start] when start == goal, having counted at most 400 nodes |
| Search.BfsVisit | MainWindow.xaml.cs:213-240 | one turn of the level loop either returns a shortest path or keeps the invariant for the rest of the level |
| Search.BfsLevel | MainWindow.xaml.cs:210-242 | one whole level either returns a shortest path or leaves the next level in the queue with the invariant kept and the termination measure smaller |
| Search.BFS | MainWindow.xaml.cs:193-250 | a returned path is valid and shortest; no path is returned only when none exists; start == goal gives [start]; 1 <= nodesVisited <= 400 and maxFrontier >= 1 |
| Search.DfsStep | MainWindow.xaml.cs:269-296 | popping a non-goal cell and pushing its fresh neighbours keeps the DFS invariant: parent tree, finished cells closed, stack cells unfinished |
| Search.DfsExpand | MainWindow.xaml.cs:284-296 | the push loop pushes exactly the fresh neighbours, keeps the DFS invariant and counts one more finished cell |
| Search.DfsExhausted | MainWindow.xaml.cs:297-304 | when the stack empties without the goal, no valid path exists and at most 400 cells were counted |
| Search.DfsFinish | MainWindow.xaml.cs:272-281 | on the goal, DFS returns a valid path, [start] when start == goal |
| Search.DFS | MainWindow.xaml.cs:253-305 | a returned path is valid; no path is returned only when none exists; start == goal gives [start]; 1 <= nodesVisited <= 400 and maxFrontier >= 1 |
| Deepening.Depth | MainWindow.xaml.cs:348-354 | the parent-chain length of a node, root counted as 1, is at least 1 |
| Deepening.ChainDepth | MainWindow.xaml.cs:424-434 | the cells of a node's chain number its depth and end at the node's own position |
| Deepening.ChainIsPath | MainWindow.xaml.cs:364-367 | in an IDS tree, every node's chain is a valid path from start to that node |
| Deepening.ParentChainLength | MainWindow.xaml.cs:348-354 | the loop over `Parent` returns the node's depth |
| Deepening.ReconstructPath | MainWindow.xaml.cs:424-434 | collecting positions up the parent chain and reversing gives the chain from the root to the node |
| Deepening.IsInPath | MainWindow.xaml.cs:387-397 | true exactly when the position occurs on the node's chain |
| Deepening.Expand | MainWindow.xaml.cs:358-369 | the direction loop pushes the same nodes, marks the same cells, as the specification step `Scan` |
| Deepening.DepthLimitedSearch | MainWindow.xaml.cs:319-371 | one iteration's loop returns the outcome of the specification function `Dls` |
| Deepening.RunFacts | MainWindow.xaml.cs:327-371 | an iteration keeps a tree of valid chains with distinct cells; a found chain is valid and at most max(1, limit) cells; node counts never exceed the arena |
| Deepening.DlsFacts | MainWindow.xaml.cs:319-371 | an iteration's found path is valid and at most max(1, limit) cells long; it counts 1..400 nodes and a frontier of at least 1 |
| Deepening.ExpandDepth | MainWindow.xaml.cs:356-370 | only nodes below the limit are expanded, so no node is deeper than max(1, limit) |
| Deepening.SweepOutcome | MainWindow.xaml.cs:316-375 | the limits loop stops at the first limit whose iteration finds the goal, with that iteration's chain, or runs all 401 limits |
| Deepening.IdsAccounting | MainWindow.xaml.cs:316-383 | iterations is the last limit + 1, in 1..401; reported nodes are the sum and frontier the maximum over the iterations run; success exactly when the last iteration finds the goal; failure exactly when all 401 fail |
| Deepening.IdsPath | MainWindow.xaml.cs:316-345 | a returned path is valid with at most max(1, iterations - 1) cells; start == goal gives ([start], 1 node, frontier 1, 1 iteration) |
| Deepening.IDS | MainWindow.xaml.cs:308-384 | the loops return `Ids`; the path is valid and at most max(1, iterations - 1) cells; failure means 401 iterations; start == goal gives [start] |
| Generation.Candidates | MainWindow.xaml.cs:129-145 | every proposed move is one step from the current cell |
| Generation.WithinBounds | MainWindow.xaml.cs:147-148 | the filter keeps exactly the in-grid moves |
| Generation.Moves | MainWindow.xaml.cs:127-148 | every possible move is inside the grid and one step away |
| Generation.MovesExist | MainWindow.xaml.cs:151-179 | from an in-grid cell that is not the goal there is always a move, so the backtracking branch never runs |
| Generation.GenerateRandomPath | MainWindow.xaml.cs:118-183 | a returned walk ends at the goal, has no duplicate cells and lies in the grid; it never removes from an empty list; start == goal gives [start] |
| Generation.PlannedFacts | MainWindow.xaml.cs:93-106 | every cell is planned 0 or 1, and start, goal and walk cells are planned 0 |
| Generation.DrawsMonotone | MainWindow.xaml.cs:93-106 | the number of wall draws made grows along row-major order |
| Generation.DrawsDistinct | MainWindow.xaml.cs:93-106 | two drawing cells never share a wall draw |
| Generation.PlaceWalls | MainWindow.xaml.cs:93-106 | the wall loop leaves every cell as planned by its own draw |
| Generation.GenerateGrid | MainWindow.xaml.cs:73-106 | every cell is 0 or 1; start, goal and the walk cells are 0; every other cell is a wall exactly when its draw says so |
| Metrics.AppendedRecord | MainWindow.xaml.cs:220-223 | a record appends one value to each of the four common lists, ending in the recorded values, and leaves `Iterations` alone |
| Metrics.PerformanceMetrics.constructor | MainWindow.xaml.cs:649-656 | a new record has five empty lists |
| Metrics.PerformanceMetrics.Record | MainWindow.xaml.cs:220-223 | time, nodes, frontier and path length are appended to their lists |
| Metrics.PerformanceMetrics.RecordIterations | MainWindow.xaml.cs:342 | the iteration count is appended to `Iterations` alone |
| Metrics.PerformanceDataRepository.constructor | PerformanceDataRepository.cs:11-16 | the store has the keys BFS, DFS and IDS, each with its own record of five empty lists |
| Metrics.PerformanceDataRepository.Reset | PerformanceDataRepository.cs:19-29 | every list of every algorithm is emptied in place; the keys and record objects stay |
| Metrics.ClearedFacts | PerformanceDataRepository.cs:19-29 | reset keeps the keys, empties every record whatever it held, and a second reset changes nothing |
| Metrics.Mean | MainWindow.xaml.cs:625-628 | an empty list averages to 0, otherwise mean * count == sum |
| Metrics.SumAsReals | MainWindow.xaml.cs:626-628 | widening an integer list to doubles before summing gives the integer sum |
| Metrics.IntMean | MainWindow.xaml.cs:626-628 | the average of an integer list times its count is its integer sum |
| Metrics.MeanWithin | MainWindow.xaml.cs:625-628 | the mean of a non-empty list lies between any lower and upper bound of its values |
| Metrics.Summary | MainWindow.xaml.cs:624-640 | each of the five averages times its list's count is the list's sum; the iteration average is shown for IDS only; an empty ledger shows zeros |
| Metrics.MeanExamples | MainWindow.xaml.cs:628 | path lengths 2, 4, 6 average to 4, and no runs average to 0 |
| Window.FoundIffPositive | MainWindow.xaml.cs:223 | for a search answer, the recorded path length is positive exactly when a path was found, and it is the length of the list that is stored, from which the answer can be read back |
| Window.StoredAnswers | MainWindow.xaml.cs:437-469 | storing three answers over emptied lists, then showing the mode's non-empty list, leaves BFS's list its shortest answer (empty only when no path exists), DFS's its complete answer, IDS's and the shown list valid paths |
| Window.AfterRunRecords | MainWindow.xaml.cs:437-458 | one run gives each algorithm exactly one record and IDS alone one iteration count, nothing removed, and the last path length of each is its path's length or 0 |
| Window.MainWindow.constructor | MainWindow.xaml.cs:49-57 | start (0, 0), goal (19, 19), mode BFS; every cell is 0 or 1 and start and goal are open; either the walk reached the goal, the grid is as its plan says, every algorithm has one record more agreeing with its stored path, the stored paths are the searches' answers and BFS's path is shown when non-empty, or nothing was recorded and no path is shown |
| Window.MainWindow.GenerateGrid | MainWindow.xaml.cs:73-115 | the grid as generation leaves it, then every stored path and the displayed path emptied |
| Window.MainWindow.ClearPaths | MainWindow.xaml.cs:108-113 | every stored path and the displayed path are empty, the mode unchanged |
| Window.MainWindow.BFS | MainWindow.xaml.cs:193-250 | the BFS answer is sound, complete and shortest, with 1..400 nodes and a frontier of at least 1, and exactly one record is appended to the BFS ledger only |
| Window.MainWindow.DFS | MainWindow.xaml.cs:253-305 | the DFS answer is sound and complete, with 1..400 nodes and a frontier of at least 1, and exactly one record is appended to the DFS ledger only |
| Window.MainWindow.IDS | MainWindow.xaml.cs:308-384 | the result is the specification function `Ids` and its answer is valid within its depth bound; one record with the iteration count is appended to the IDS ledger only |
| Window.MainWindow.RecordSearches | MainWindow.xaml.cs:439-458 | BFS, DFS and IDS run in order, their answers are sound (BFS's shortest, BFS's and DFS's complete), and the ledger is the old one with exactly one record per search |
| Window.MainWindow.RunSearchAlgorithms | MainWindow.xaml.cs:437-472 | the three answers are sound (and complete and shortest as above); each found path is stored, failures keep the old one; the displayed path is the selected mode's stored path when non-empty, else empty; each ledger gets exactly its search's record |
| Window.MainWindow.SearchNewGrid | MainWindow.xaml.cs:54-55 | searching a freshly generated grid records each algorithm once, leaves the ledger agreeing with the stored paths, and the stored and shown paths are the searches' answers on that grid |
| Window.MainWindow.SelectMode | MainWindow.xaml.cs:539-591 | the mode is set; its stored path is shown exactly when its last recorded path length is positive; when ledger and stored paths agree, that is the choice `RunSearchAlgorithms` makes |
| Window.MainWindow.Regenerate | MainWindow.xaml.cs:593-598 | every cell is 0 or 1 with start and goal open; a reached walk leaves the grid as its plan says, gives each algorithm one more record agreeing with its stored path, stores the searches' answers on the new grid and shows the selected mode's path; otherwise the ledger and the shown path are unchanged |
| Window.MainWindow.MetricsDisplay | MainWindow.xaml.cs:615-643 | the selected mode's averages: each of the five averages times its list's count is the list's sum, an iteration average for IDS only, all zeros for an empty ledger |

## Left out

- The WPF user interface is not modelled: drawing (`DrawGrid`, `DrawCell`, brushes, canvas sizing), the slider handler, the results and quit buttons, and the `MetricsText` string formatting. Results.xaml.cs is not part of this model; it only feeds the ledger into charts.
- `Stopwatch` readings are parameters (`elapsed`, `Timings`); the execution-time values are opaque reals.
- `System.Random` is replaced by the oracles `choose` and `wall`. The double `wallProbability` and the `NextDouble() < wallProbability` comparison are folded into `wall`; floating point is not modelled.
- Generation.GenerateRandomPath: the application's walk loop has no bound; the model stops after `fuel` steps with `OutOfFuel`. In that case the window keeps an all-open grid and runs no search. The application would keep walking.
- Generation.GenerateRandomPath: makes no claim that the walk is a chain of neighbouring cells, or that it starts at `start`, because the code does not give either.
- Grid.IsValid: its contract states only that an accepted cell lies inside the grid. The open-cell test is its definition, which `ValidPath` and the searches use directly.
- Deepening.IDS: does not state that "no path" means no valid path exists. IDS's own completeness at the last limit is not proved; only the accounting of that answer is.
- The `Average` of `double` values is modelled with exact reals. Rounding is not modelled.
- Grid values, cells and counters are unbounded integers rather than 32-bit `int`. The largest counter is IDS's summed node count, at most 401 * 400, so 32-bit overflow cannot occur.
- Each search's own `algorithmPaths[...] = path` on success (MainWindow.xaml.cs:224, 280, 343) is the same assignment `RunSearchAlgorithms` makes next. It is modelled once, in `RunSearchAlgorithms`.
- The static `PerformanceDataRepository` is an object handed to the window. `Reset` is defined but never called in the application; it is modelled for its own contract.
- `ReconstructPath` (dictionary) can return `null`, and BFS and DFS would then read `path.Count`. The model proves this case cannot arise after a search reaches the goal, so no null path is modelled.
- Search.ReconstructPath: its requirement that the parent dictionary have a rank under which every parent ranks below its child rules out cyclic parent chains. On such a chain the loop at MainWindow.xaml.cs:405-417 would never end. Both BFS and DFS build only ranked dictionaries, and the model proves they meet the requirement.
- `UpdateMetricsDisplay`'s missing-key branch is not modelled, because the ledger always holds all three keys.
