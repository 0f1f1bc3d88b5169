/** Breadth-first and depth-first search over the grid, with a parent map for path reconstruction. */
module Search {
  import opened Grid

  /** What `BFS` and `DFS` return: the path (null when none was found), the number of cells
      taken off the frontier, and the largest frontier size observed. */
  datatype SearchResult = SearchResult(path: Option<seq<Cell>>, nodesVisited: nat, maxFrontier: nat)

  /** `p` follows parent links from `start` down to `goal`: every later cell is a key of
      `parents` whose parent is its predecessor, and only the first cell is `start`. */
  ghost predicate ParentChain(parents: map<Cell, Cell>, p: seq<Cell>, start: Cell, goal: Cell) {
    && |p| > 0 && p[0] == start && p[|p| - 1] == goal
    && (forall i :: 0 < i < |p| ==> p[i] in parents && parents[p[i]] == p[i - 1] && p[i] != start)
  }

  /** Every ranked cell other than `start` has a parent. */
  ghost predicate Covers(parents: map<Cell, Cell>, start: Cell, rank: map<Cell, nat>) {
    forall k :: k in rank ==> k == start || k in parents
  }

  /** Parents have a strictly smaller rank than their children, so following parents terminates. */
  ghost predicate Ranked(parents: map<Cell, Cell>, rank: map<Cell, nat>) {
    forall k :: k in parents ==> k in rank && parents[k] in rank && rank[parents[k]] < rank[k]
  }

  /** The search tree built by BFS and DFS: `depth` gives every visited cell its tree depth;
      every visited cell but `start` has a parent one level up, adjacent to it; every cell
      with a parent is valid. */
  ghost predicate Tree(grid: array2<int>, start: Cell, visited: set<Cell>,
                       parents: map<Cell, Cell>, depth: map<Cell, nat>)
    requires Shaped(grid)
    reads grid
  {
    && depth.Keys == visited && start in visited && depth[start] == 0 && start !in parents
    && (forall k :: k in visited ==> k == start || k in parents)
    && (forall k {:trigger parents[k]} :: k in parents ==>
          && k in visited && parents[k] in visited && depth[k] == depth[parents[k]] + 1
          && Adjacent(parents[k], k) && IsValid(grid, k.0, k.1))
  }

  /** A search tree's depths rank its parent links and cover every visited cell but `start`. */
  lemma TreeRanks(grid: array2<int>, start: Cell, visited: set<Cell>, parents: map<Cell, Cell>, depth: map<Cell, nat>)
    requires Shaped(grid) && Tree(grid, start, visited, parents, depth)
    ensures Ranked(parents, depth) && Covers(parents, start, depth)
  {
  }

  /** Every valid neighbour of a finished cell has been visited. */
  ghost predicate Closed(grid: array2<int>, done: set<Cell>, visited: set<Cell>)
    requires Shaped(grid)
    reads grid
  {
    forall c, d :: c in done && 0 <= d < |DIRECTIONS| && IsValid(grid, Neighbor(c, d).0, Neighbor(c, d).1)
      ==> Neighbor(c, d) in visited
  }

  /** Every valid neighbour of a finished cell sits at most one level below it. */
  ghost predicate Layered(grid: array2<int>, done: set<Cell>, dist: map<Cell, nat>)
    requires Shaped(grid)
    reads grid
  {
    forall c, d :: c in done && c in dist && 0 <= d < |DIRECTIONS| && IsValid(grid, Neighbor(c, d).0, Neighbor(c, d).1)
      ==> Neighbor(c, d) in dist && dist[Neighbor(c, d)] <= dist[c] + 1
  }

  /** The map sending every cell of `s` to `v`. */
  function Assign<V>(s: seq<Cell>, v: V): map<Cell, V> {
    map n | n in CellSet(s) :: v
  }

  /** Assigning one more cell is a single map update. */
  lemma AssignMore<V>(m: map<Cell, V>, s: seq<Cell>, n: Cell, v: V)
    ensures CellSet(s + [n]) == CellSet(s) + {n}
    ensures (m + Assign(s, v))[n := v] == m + Assign(s + [n], v)
  {
    assert CellSet(s + [n]) == CellSet(s) + {n};
  }

  /** There is at most one parent chain from `start` to `goal`. */
  lemma {:induction false} ChainUnique(parents: map<Cell, Cell>, p1: seq<Cell>, p2: seq<Cell>, start: Cell, goal: Cell)
    requires ParentChain(parents, p1, start, goal) && ParentChain(parents, p2, start, goal)
    ensures p1 == p2
    decreases |p1|
  {
    if |p1| > 1 && |p2| > 1 {
      var q1, q2 := p1[..|p1| - 1], p2[..|p2| - 1];
      ChainUnique(parents, q1, q2, start, parents[goal]);
      assert p1 == q1 + [goal] && p2 == q2 + [goal];
    }
  }

  /** The cells collected walking parent links from `goal` to `start`, reversed and completed
      with `start`, form the parent chain from `start` to `goal`. */
  lemma ReversedWalk(parents: map<Cell, Cell>, start: Cell, goal: Cell, path: seq<Cell>)
    requires Walked(parents, start, goal, path, start)
    ensures ParentChain(parents, Reverse(path + [start]), start, goal)
  {
    var full := path + [start];
    var result := Reverse(full);
    assert result[0] == start;
    assert result[|result| - 1] == goal by {
      if |path| > 0 { assert result[|result| - 1] == full[0] == path[0]; }
    }
    forall i | 0 < i < |result|
      ensures result[i] in parents && parents[result[i]] == result[i - 1] && result[i] != start
    {
      assert result[i] == path[|path| - i];
      assert result[i - 1] == full[|path| - i + 1];
    }
  }

  /** `path` holds the cells met so far walking parent links from `goal`: it starts at
      `goal`, no cell of it is `start`, each cell's parent is the next one, and the last
      one's parent is `current`, the cell the walk has reached. */
  ghost predicate Walked(parents: map<Cell, Cell>, start: Cell, goal: Cell, path: seq<Cell>, current: Cell) {
    && (|path| == 0 ==> current == goal)
    && (|path| > 0 ==> path[0] == goal && path[|path| - 1] in parents && parents[path[|path| - 1]] == current)
    && (forall i :: 0 <= i < |path| ==> path[i] != start)
    && (forall i :: 0 <= i < |path| - 1 ==> path[i] in parents && parents[path[i]] == path[i + 1])
  }

  /** Every parent chain from `start` to `goal` passes through `current` exactly `n` cells
      before its end, and its part up to there is a parent chain to `current`. */
  ghost predicate ChainsThrough(parents: map<Cell, Cell>, start: Cell, goal: Cell, n: nat, current: Cell) {
    forall p :: ParentChain(parents, p, start, goal) ==>
      |p| > n && ParentChain(parents, p[..|p| - n], start, current)
  }

  /** One step of the walk: a parent chain to `goal` whose last `|path|` cells were walked
      ends, before them, in a chain to `current`; when `current` is not `start` that chain
      continues through the parent of `current`, so a cell without a parent ends every chain. */
  lemma WalkStep(parents: map<Cell, Cell>, start: Cell, goal: Cell, path: seq<Cell>, current: Cell)
    requires current != start
    requires Walked(parents, start, goal, path, current)
    requires ChainsThrough(parents, start, goal, |path|, current)
    ensures current !in parents ==> forall p :: !ParentChain(parents, p, start, goal)
    ensures current in parents ==> ChainsThrough(parents, start, goal, |path| + 1, parents[current])
    ensures current in parents ==> Walked(parents, start, goal, path + [current], parents[current])
  {
    if current in parents {
      var path' := path + [current];
      forall i | 0 <= i < |path'| - 1 ensures path'[i] in parents && parents[path'[i]] == path'[i + 1] {
        if i < |path| - 1 {
          assert path'[i] == path[i] && path'[i + 1] == path[i + 1];
        }
      }
    }
    forall p | ParentChain(parents, p, start, goal)
      ensures current in parents && |p| > |path| + 1
      ensures ParentChain(parents, p[..|p| - (|path| + 1)], start, parents[current])
    {
      var q := p[..|p| - |path|];
      assert q[|q| - 1] == current;
      assert p[..|p| - (|path| + 1)] == q[..|q| - 1];
    }
  }

  /** `ReconstructPath(parents, start, goal)`: walk parent links from `goal` back to `start`,
      then reverse. The result is the parent chain from `start` to `goal` if there is one
      (there is at most one), and null if the walk meets a cell without a parent first.
      The ghost `rank` only witnesses that the walk terminates. */
  method ReconstructPath(parents: map<Cell, Cell>, start: Cell, goal: Cell, ghost rank: map<Cell, nat>)
    returns (r: Option<seq<Cell>>)
    requires Ranked(parents, rank)
    ensures r.Some? ==> ParentChain(parents, r.value, start, goal)
    ensures forall p :: ParentChain(parents, p, start, goal) ==> r == Some(p)
    ensures Covers(parents, start, rank) && goal in rank ==> r.Some?
    ensures start == goal ==> r == Some([start])
  {
    var path: seq<Cell> := [];
    var current := goal;
    ghost var covered := Covers(parents, start, rank) && goal in rank;
    while current != start
      invariant Walked(parents, start, goal, path, current)
      invariant covered ==> current in rank
      invariant ChainsThrough(parents, start, goal, |path|, current)
      decreases if current in rank then rank[current] + 1 else 0
    {
      WalkStep(parents, start, goal, path, current);
      path := path + [current];
      if current in parents {
        current := parents[current];
      } else {
        return None;
      }
    }
    ReversedWalk(parents, start, goal, path);
    r := Some(Reverse(path + [start]));
    forall p | ParentChain(parents, p, start, goal) ensures r == Some(p) {
      ChainUnique(parents, p, r.value, start, goal);
    }
  }

  /** Every parent chain in a search tree is a valid path, with one more cell than the goal's depth. */
  lemma {:induction false} ChainIsPath(grid: array2<int>, start: Cell, goal: Cell, visited: set<Cell>,
                                       parents: map<Cell, Cell>, depth: map<Cell, nat>, p: seq<Cell>)
    requires Shaped(grid) && Tree(grid, start, visited, parents, depth)
    requires ParentChain(parents, p, start, goal)
    ensures ValidPath(grid, p, start, goal)
    ensures goal in depth && |p| == depth[goal] + 1
  {
    var i := 0;
    while i < |p| - 1
      invariant 0 <= i < |p| && p[i] in depth && depth[p[i]] == i
    {
      i := i + 1;
    }
  }

  /** Along any path from `start`, the first cell that is not finished has been visited,
      at a distance no greater than its index (Closed and Layered carry it along). */
  lemma {:induction false} FirstUnfinished(grid: array2<int>, q: seq<Cell>, start: Cell, goal: Cell,
                                           visited: set<Cell>, done: set<Cell>, dist: map<Cell, nat>)
    returns (j: nat)
    requires Shaped(grid) && ValidPath(grid, q, start, goal)
    requires start in visited && dist.Keys == visited && dist[start] == 0 && done <= visited
    requires Closed(grid, done, visited) && Layered(grid, done, dist)
    requires goal !in done
    ensures j < |q| && q[j] in visited && q[j] !in done && dist[q[j]] <= j
  {
    j := 0;
    while q[j] in done
      invariant j < |q| && q[j] in visited && dist[q[j]] <= j
      decreases |q| - j
    {
      var d := AdjacentDirection(q[j], q[j + 1]);
      j := j + 1;
    }
  }

  /** After scanning the first `d` directions from `current`, the neighbour loop has appended
      the fresh cells found so far to the frontier, marked them visited and recorded `current`
      as their parent. */
  ghost predicate Scanned(grid: array2<int>, current: Cell, d: nat, frontier: seq<Cell>, visited: set<Cell>,
                          parents: map<Cell, Cell>, frontier': seq<Cell>, visited': set<Cell>, parents': map<Cell, Cell>)
    requires Shaped(grid) && d <= |DIRECTIONS|
    reads grid
  {
    var f := Fresh(grid, current, visited, d);
    && frontier' == frontier + f
    && visited' == visited + CellSet(f)
    && parents' == parents + Assign<Cell>(f, current)
  }

  /** One pass of the neighbour loop, which admits a neighbour that is open, in bounds and not
      yet visited, extends the scan by one direction: the state after the pass, primed twice, is the state
      before it with the neighbour in direction `d` added exactly when it is valid and unvisited. */
  lemma ScanStep(grid: array2<int>, current: Cell, d: nat, frontier: seq<Cell>, visited: set<Cell>,
                 parents: map<Cell, Cell>, frontier': seq<Cell>, visited': set<Cell>, parents': map<Cell, Cell>,
                 frontier'': seq<Cell>, visited'': set<Cell>, parents'': map<Cell, Cell>)
    requires Shaped(grid) && d < |DIRECTIONS|
    requires Scanned(grid, current, d, frontier, visited, parents, frontier', visited', parents')
    requires var n := Neighbor(current, d);
      if IsValid(grid, n.0, n.1) && n !in visited' then
        frontier'' == frontier' + [n] && visited'' == visited' + {n} && parents'' == parents'[n := current]
      else
        frontier'' == frontier' && visited'' == visited' && parents'' == parents'
    ensures Scanned(grid, current, d + 1, frontier, visited, parents, frontier'', visited'', parents'')
  {
    var f := Fresh(grid, current, visited, d);
    var n := Neighbor(current, d);
    FreshAvoids(grid, current, visited, d, d);
    if IsValid(grid, n.0, n.1) && n !in visited' {
      assert Fresh(grid, current, visited, d + 1) == f + [n];
      AssignMore(parents, f, n, current);
    } else {
      assert Fresh(grid, current, visited, d + 1) == f;
    }
  }

  /** The neighbour loop of `BFS` and `DFS`: for each direction in order, a valid unvisited
      neighbour is appended to the frontier, marked visited and given `current` as its parent.
      Together this appends exactly the cells `Fresh` yields. */
  method ScanNeighbors(grid: array2<int>, current: Cell, frontier: seq<Cell>, visited: set<Cell>,
                       parents: map<Cell, Cell>)
    returns (frontier': seq<Cell>, visited': set<Cell>, parents': map<Cell, Cell>)
    requires Shaped(grid)
    ensures Scanned(grid, current, |DIRECTIONS|, frontier, visited, parents, frontier', visited', parents')
  {
    frontier', visited', parents' := frontier, visited, parents;
    assert CellSet([]) == {};
    for d := 0 to |DIRECTIONS|
      invariant Scanned(grid, current, d, frontier, visited, parents, frontier', visited', parents')
    {
      var neighbor := (current.0 + DIRECTIONS[d].0, current.1 + DIRECTIONS[d].1);
      ghost var frontier1 := frontier';
      ghost var visited1 := visited';
      ghost var parents1 := parents';
      if IsValid(grid, neighbor.0, neighbor.1) && neighbor !in visited' {
        frontier' := frontier' + [neighbor];
        visited' := visited' + {neighbor};
        parents' := parents'[neighbor := current];
      }
      ScanStep(grid, current, d, frontier, visited, parents, frontier1, visited1, parents1, frontier', visited', parents');
    }
  }

  /** Adding `current`'s fresh neighbours as children of `current` keeps the search tree a tree. */
  lemma TreeGrows(grid: array2<int>, start: Cell, visited: set<Cell>, parents: map<Cell, Cell>,
                  depth: map<Cell, nat>, current: Cell, f: seq<Cell>)
    requires Shaped(grid) && Tree(grid, start, visited, parents, depth) && current in visited
    requires FreshSet(grid, current, visited, f)
    ensures Tree(grid, start, visited + CellSet(f), parents + Assign<Cell>(f, current),
                 depth + Assign<nat>(f, depth[current] + 1))
  {
  }

  /** Finishing `current` after marking its fresh neighbours keeps every finished cell's
      valid neighbours visited. */
  lemma ClosedGrows(grid: array2<int>, done: set<Cell>, visited: set<Cell>, current: Cell, f: seq<Cell>)
    requires Shaped(grid) && Closed(grid, done, visited)
    requires FreshSet(grid, current, visited, f)
    ensures Closed(grid, done + {current}, visited + CellSet(f))
  {
  }

  /** Adding the fresh cells `f` grows the visited set by exactly `|f|`, and a visited set of
      in-bounds cells next to `start` never holds more than ROWS * COLS + 1 cells. */
  lemma MeasureDrops(grid: array2<int>, start: Cell, current: Cell, visited: set<Cell>, f: seq<Cell>)
    requires Shaped(grid) && FreshSet(grid, current, visited, f)
    requires forall k :: k in visited ==> k == start || InBounds(k)
    ensures |visited + CellSet(f)| == |visited| + |f| <= ROWS * COLS + 1
  {
    DistinctCount(f);
    assert visited !! CellSet(f);
    var all := visited + CellSet(f);
    CellCountBound(all - {start});
    if start in all {
      assert all == (all - {start}) + {start};
    } else {
      assert all == all - {start};
    }
  }

  /** The frontier holds, without repetition, exactly the visited cells not yet finished. */
  ghost predicate Frontier(frontier: seq<Cell>, visited: set<Cell>, done: set<Cell>) {
    && done <= visited && visited == done + CellSet(frontier) && NoDuplicates(frontier)
    && (forall k :: 0 <= k < |frontier| ==> frontier[k] !in done)
  }

  /** Taking `current` off either end of the frontier, finishing it and adding the fresh cells `f`
      at the end keeps the frontier exactly the unfinished visited cells. */
  lemma FrontierGrows(frontier: seq<Cell>, rest: seq<Cell>, current: Cell, f: seq<Cell>,
                      visited: set<Cell>, done: set<Cell>)
    requires Frontier(frontier, visited, done)
    requires frontier == [current] + rest || frontier == rest + [current]
    requires NoDuplicates(f) && forall k :: 0 <= k < |f| ==> f[k] !in visited
    ensures Frontier(rest + f, visited + CellSet(f), done + {current})
  {
    var front := rest + f;
    var head := if frontier == [current] + rest then 1 else 0;
    forall k | 0 <= k < |rest| ensures rest[k] == frontier[k + head] {}
    assert current == frontier[if head == 1 then 0 else |rest|];
    assert CellSet(frontier) == CellSet(rest) + {current};
    assert CellSet(front) == CellSet(rest) + CellSet(f);
    forall k | 0 <= k < |front| ensures front[k] !in done + {current} {
      if k >= |rest| {
        assert front[k] == f[k - |rest|];
      }
    }
    forall i, j | 0 <= i < j < |front| ensures front[i] != front[j] {
      if j >= |rest| && i < |rest| {
        assert front[j] == f[j - |rest|];
      } else if j >= |rest| {
        assert front[i] == f[i - |rest|] && front[j] == f[j - |rest|];
      }
    }
  }

  /** The state BFS keeps while it works through level `level`: a search tree whose depths are
      the BFS distances, the queue holding the unfinished visited cells (the first `split` at
      distance `level`, the rest at `level + 1`), finished cells at distance at most `level`,
      and every valid neighbour of a finished cell visited, at most one level further. */
  /** A valid path with no valid path shorter than it. */
  ghost predicate Shortest(grid: array2<int>, p: seq<Cell>, start: Cell, goal: Cell)
    requires Shaped(grid)
    reads grid
  {
    ValidPath(grid, p, start, goal) && forall q :: ValidPath(grid, q, start, goal) ==> |p| <= |q|
  }

  ghost predicate BfsState(grid: array2<int>, start: Cell, goal: Cell, queue: seq<Cell>, visited: set<Cell>,
                           parents: map<Cell, Cell>, dist: map<Cell, nat>, done: set<Cell>, level: nat, split: nat)
    requires Shaped(grid)
    reads grid
  {
    && Tree(grid, start, visited, parents, dist)
    && (forall k :: k in visited ==> k == start || InBounds(k))
    && Frontier(queue, visited, done) && split <= |queue|
    && Levels(queue, dist, level, split)
    && (forall c :: c in done ==> c in dist && dist[c] <= level)
    && Closed(grid, done, visited) && Layered(grid, done, dist)
    && goal !in done
  }

  /** The first `split` queued cells are at distance `level`, the others at `level + 1`. */
  ghost predicate Levels(queue: seq<Cell>, dist: map<Cell, nat>, level: nat, split: nat) {
    forall k :: 0 <= k < |queue| ==> queue[k] in dist && dist[queue[k]] == if k < split then level else level + 1
  }

  lemma LevelsGrow(queue: seq<Cell>, f: seq<Cell>, dist: map<Cell, nat>, level: nat, split: nat)
    requires 0 < split <= |queue| && Levels(queue, dist, level, split)
    requires forall k :: 0 <= k < |f| ==> f[k] !in dist
    ensures Levels(queue[1..] + f, dist + Assign<nat>(f, level + 1), level, split - 1)
  {
    var queue' := queue[1..] + f;
    forall k | 0 <= k < |queue'|
      ensures queue'[k] in dist + Assign<nat>(f, level + 1)
      ensures (dist + Assign<nat>(f, level + 1))[queue'[k]] == if k < split - 1 then level else level + 1
    {
      if k < |queue| - 1 {
        assert queue'[k] == queue[k + 1];
        assert queue[k + 1] !in CellSet(f);
      } else {
        assert queue'[k] == f[k - |queue| + 1];
      }
    }
  }

  /** Finishing the head of the queue, at distance `level`, after giving its fresh neighbours
      distance `level + 1` keeps every valid neighbour of a finished cell at most one level further. */
  lemma LayeredGrows(grid: array2<int>, start: Cell, goal: Cell, queue: seq<Cell>, visited: set<Cell>,
                     parents: map<Cell, Cell>, dist: map<Cell, nat>, done: set<Cell>, level: nat, split: nat,
                     f: seq<Cell>)
    requires Shaped(grid)
    requires BfsState(grid, start, goal, queue, visited, parents, dist, done, level, split) && 0 < split
    requires FreshSet(grid, queue[0], visited, f)
    ensures Layered(grid, done + {queue[0]}, dist + Assign<nat>(f, level + 1))
  {
    var current := queue[0];
    var dist' := dist + Assign<nat>(f, level + 1);
    forall c, d | c in done + {current} && c in dist' && 0 <= d < |DIRECTIONS|
                  && IsValid(grid, Neighbor(c, d).0, Neighbor(c, d).1)
      ensures Neighbor(c, d) in dist' && dist'[Neighbor(c, d)] <= dist'[c] + 1
    {
      var n := Neighbor(c, d);
      if c != current {
        assert n in visited && n !in CellSet(f) && c !in CellSet(f);
      } else if n in visited {
        assert n !in CellSet(f) && c !in CellSet(f);
        if n !in done {
          assert n in CellSet(queue);
          var k :| 0 <= k < |queue| && queue[k] == n;
        }
      } else {
        assert n in CellSet(f);
      }
    }
  }

  /** BFS's step for the search tree: the head's fresh neighbours become its children. */
  lemma BfsTreeStep(grid: array2<int>, start: Cell, goal: Cell, queue: seq<Cell>, visited: set<Cell>,
                parents: map<Cell, Cell>, dist: map<Cell, nat>, done: set<Cell>, level: nat, split: nat,
                f: seq<Cell>)
    requires Shaped(grid)
    requires BfsState(grid, start, goal, queue, visited, parents, dist, done, level, split)
    requires 0 < split && queue[0] != goal
    requires FreshSet(grid, queue[0], visited, f)
    ensures Tree(grid, start, visited + CellSet(f), parents + Assign<Cell>(f, queue[0]), dist + Assign<nat>(f, level + 1))
  {
    assert queue[0] in CellSet(queue);
    TreeGrows(grid, start, visited, parents, dist, queue[0], f);
  }

  /** BFS's step for the distances: the rest of the level stays at `level`, the new cells are at `level + 1`. */
  lemma BfsLevelsStep(grid: array2<int>, start: Cell, goal: Cell, queue: seq<Cell>, visited: set<Cell>,
                parents: map<Cell, Cell>, dist: map<Cell, nat>, done: set<Cell>, level: nat, split: nat,
                f: seq<Cell>)
    requires Shaped(grid)
    requires BfsState(grid, start, goal, queue, visited, parents, dist, done, level, split)
    requires 0 < split && queue[0] != goal
    requires FreshSet(grid, queue[0], visited, f)
    ensures Levels(queue[1..] + f, dist + Assign<nat>(f, level + 1), level, split - 1)
  {
    LevelsGrow(queue, f, dist, level, split);
  }

  /** BFS's step for the queue and the finished cells. */
  lemma BfsFrontierStep(grid: array2<int>, start: Cell, goal: Cell, queue: seq<Cell>, visited: set<Cell>,
                parents: map<Cell, Cell>, dist: map<Cell, nat>, done: set<Cell>, level: nat, split: nat,
                f: seq<Cell>)
    requires Shaped(grid)
    requires BfsState(grid, start, goal, queue, visited, parents, dist, done, level, split)
    requires 0 < split && queue[0] != goal
    requires FreshSet(grid, queue[0], visited, f)
    ensures Frontier(queue[1..] + f, visited + CellSet(f), done + {queue[0]})
    ensures Closed(grid, done + {queue[0]}, visited + CellSet(f))
  {
    assert queue == [queue[0]] + queue[1..];
    ClosedGrows(grid, done, visited, queue[0], f);
    FrontierGrows(queue, queue[1..], queue[0], f, visited, done);
  }

  /** BFS's step: finishing the head of the queue (at distance `level`) and enqueueing its
      fresh neighbours at distance `level + 1` keeps the BFS state, one cell further into the level. */
  lemma BfsStep(grid: array2<int>, start: Cell, goal: Cell, queue: seq<Cell>, visited: set<Cell>,
                parents: map<Cell, Cell>, dist: map<Cell, nat>, done: set<Cell>, level: nat, split: nat,
                f: seq<Cell>)
    requires Shaped(grid)
    requires BfsState(grid, start, goal, queue, visited, parents, dist, done, level, split)
    requires 0 < split && queue[0] != goal
    requires FreshSet(grid, queue[0], visited, f)
    ensures BfsState(grid, start, goal, queue[1..] + f, visited + CellSet(f), parents + Assign<Cell>(f, queue[0]),
                     dist + Assign<nat>(f, level + 1), done + {queue[0]}, level, split - 1)
  {
    LayeredGrows(grid, start, goal, queue, visited, parents, dist, done, level, split, f);
    BfsTreeStep(grid, start, goal, queue, visited, parents, dist, done, level, split, f);
    BfsLevelsStep(grid, start, goal, queue, visited, parents, dist, done, level, split, f);
    BfsFrontierStep(grid, start, goal, queue, visited, parents, dist, done, level, split, f);
  }

  /** `BfsStep` stated over the variables `BfsExpand` assigns, `split'` being `split - 1`. */
  lemma BfsAdvance(grid: array2<int>, start: Cell, goal: Cell, queue: seq<Cell>, visited: set<Cell>,
                   parents: map<Cell, Cell>, dist: map<Cell, nat>, done: set<Cell>, level: nat, split: nat,
                   f: seq<Cell>, queue': seq<Cell>, visited': set<Cell>, parents': map<Cell, Cell>,
                   dist': map<Cell, nat>, done': set<Cell>, split': nat)
    requires Shaped(grid)
    requires BfsState(grid, start, goal, queue, visited, parents, dist, done, level, split)
    requires split == split' + 1 && queue[0] != goal
    requires f == Fresh(grid, queue[0], visited, |DIRECTIONS|)
    requires queue' == queue[1..] + f && visited' == visited + CellSet(f)
    requires parents' == parents + Assign<Cell>(f, queue[0]) && dist' == dist + Assign<nat>(f, level + 1)
    requires done' == done + {queue[0]}
    ensures BfsState(grid, start, goal, queue', visited', parents', dist', done', level, split')
    ensures |visited'| == |visited| + |queue'| + 1 - |queue| <= ROWS * COLS + 1
    ensures |done'| == |done| + 1
  {
    assert queue[0] in CellSet(queue);
    FreshIsFreshSet(grid, queue[0], visited);
    BfsStep(grid, start, goal, queue, visited, parents, dist, done, level, split, f);
    MeasureDrops(grid, start, queue[0], visited, f);
  }

  /** When the last cell of a level has been finished, the queue holds exactly the next level. */
  lemma BfsNextLevel(grid: array2<int>, start: Cell, goal: Cell, queue: seq<Cell>, visited: set<Cell>,
                     parents: map<Cell, Cell>, dist: map<Cell, nat>, done: set<Cell>, level: nat)
    requires Shaped(grid)
    requires BfsState(grid, start, goal, queue, visited, parents, dist, done, level, 0)
    ensures BfsState(grid, start, goal, queue, visited, parents, dist, done, level + 1, |queue|)
  {
  }

  /** When BFS dequeues the goal, the parent chain to it exists and is a valid path no longer
      than any other: the queue holds no cell nearer than `level`, and every path leaves the
      finished cells through a queued one. The goal is then the `|done| + 1`-th cell taken off
      the queue, and all of them are visited. */
  lemma BfsFound(grid: array2<int>, start: Cell, goal: Cell, queue: seq<Cell>, visited: set<Cell>,
                 parents: map<Cell, Cell>, dist: map<Cell, nat>, done: set<Cell>, level: nat, split: nat,
                 path: Option<seq<Cell>>)
    requires Shaped(grid)
    requires BfsState(grid, start, goal, queue, visited, parents, dist, done, level, split)
    requires 0 < split && queue[0] == goal
    requires Covers(parents, start, dist) && goal in dist ==> path.Some?
    requires path.Some? ==> ParentChain(parents, path.value, start, goal)
    ensures path.Some? && ValidPath(grid, path.value, start, goal)
    ensures forall q :: ValidPath(grid, q, start, goal) ==> |path.value| <= |q|
    ensures 1 <= |done| + 1 <= |visited| && (InBounds(start) ==> |visited| <= ROWS * COLS)
  {
    assert goal in CellSet(queue);
    ChainIsPath(grid, start, goal, visited, parents, dist, path.value);
    forall q | ValidPath(grid, q, start, goal) ensures |path.value| <= |q| {
      var j := FirstUnfinished(grid, q, start, goal, visited, done, dist);
      assert q[j] in CellSet(queue);
      var k :| 0 <= k < |queue| && queue[k] == q[j];
    }
    VisitedBound(start, visited, done + {goal});
  }

  /** When the frontier is empty and every visited cell is finished, no valid path to the goal exists. */
  lemma Exhausted(grid: array2<int>, start: Cell, goal: Cell, visited: set<Cell>, done: set<Cell>)
    requires Shaped(grid) && start in visited && visited == done
    requires Closed(grid, done, visited) && goal !in done
    ensures forall q :: !ValidPath(grid, q, start, goal)
  {
    var zero: map<Cell, nat> := map c | c in visited :: 0;
    forall q | ValidPath(grid, q, start, goal) ensures false {
      var j := FirstUnfinished(grid, q, start, goal, visited, done, zero);
    }
  }

  /** A search tree over visited cells that are all `start` or in bounds holds at most
      ROWS * COLS cells once `start` is in bounds. */
  lemma VisitedBound(start: Cell, visited: set<Cell>, done: set<Cell>)
    requires start in visited && done <= visited
    requires forall k :: k in visited ==> k == start || InBounds(k)
    ensures 1 <= |visited| && |done| <= |visited|
    ensures InBounds(start) ==> |visited| <= ROWS * COLS
  {
    SubsetCount({start}, visited);
    SubsetCount(done, visited);
    if InBounds(start) {
      CellCountBound(visited);
    }
  }

  /** The body of BFS's level loop for a head that is not the goal: dequeue it, then append its
      fresh neighbours (`Fresh`, in direction order) to the queue, mark them visited and make the
      head their parent. The BFS state moves one cell further into the level, and the visited set
      grows by as many cells as the queue does, less the one dequeued. */
  method BfsExpand(grid: array2<int>, ghost start: Cell, ghost goal: Cell, queue: seq<Cell>, visited: set<Cell>,
                   parents: map<Cell, Cell>, ghost dist: map<Cell, nat>, ghost done: set<Cell>,
                   ghost level: nat, ghost split: nat, ghost split': nat)
    returns (queue': seq<Cell>, visited': set<Cell>, parents': map<Cell, Cell>,
             ghost dist': map<Cell, nat>, ghost done': set<Cell>)
    requires Shaped(grid)
    requires BfsState(grid, start, goal, queue, visited, parents, dist, done, level, split)
    requires split == split' + 1 && queue[0] != goal
    ensures BfsState(grid, start, goal, queue', visited', parents', dist', done', level, split')
    ensures |visited'| == |visited| + |queue'| + 1 - |queue| <= ROWS * COLS + 1
    ensures |done'| == |done| + 1
  {
    var current := queue[0];
    queue', visited', parents' := ScanNeighbors(grid, current, queue[1..], visited, parents);
    ghost var f := Fresh(grid, current, visited, |DIRECTIONS|);
    dist' := dist + Assign<nat>(f, level + 1);
    done' := done + {current};
    BfsAdvance(grid, start, goal, queue, visited, parents, dist, done, level, split,
               f, queue', visited', parents', dist', done', split');
  }

  /** BFS has dequeued the goal: the path `ReconstructPath` builds from the parent map is valid
      and no longer than any valid path. */
  method BfsFinish(grid: array2<int>, start: Cell, goal: Cell, queue: seq<Cell>, visited: set<Cell>,
                   parents: map<Cell, Cell>, ghost dist: map<Cell, nat>, ghost done: set<Cell>,
                   ghost level: nat, ghost split: nat)
    returns (path: Option<seq<Cell>>)
    requires Shaped(grid)
    requires BfsState(grid, start, goal, queue, visited, parents, dist, done, level, split)
    requires 0 < split && queue[0] == goal
    ensures path.Some? && Shortest(grid, path.value, start, goal)
    ensures 1 <= |done| + 1 && (InBounds(start) ==> |done| + 1 <= ROWS * COLS)
    ensures start == goal ==> path.value == [start]
  {
    TreeRanks(grid, start, visited, parents, dist);
    path := ReconstructPath(parents, start, goal, dist);
    BfsFound(grid, start, goal, queue, visited, parents, dist, done, level, split, path);
  }

  /** One level of BFS: the `levelSize` cells at the head of the queue are dequeued in turn (each
      counted in `nodesVisited`); the first that is the goal ends the search with the path its
      parent chain gives, which is valid and no longer than any valid path. If none is the goal, their
      fresh neighbours, at distance `level + 1`, are now exactly the queue, and the termination
      measure has dropped. */
  /** One turn of the level loop: take the front cell, count it, and either rebuild the path
      when it is the goal or expand its neighbours. */
  method BfsVisit(grid: array2<int>, start: Cell, goal: Cell, queue: seq<Cell>, visited: set<Cell>,
                  parents: map<Cell, Cell>, nodesVisited: nat, ghost dist: map<Cell, nat>, ghost done: set<Cell>,
                  ghost level: nat, ghost split: nat)
    returns (path: Option<seq<Cell>>, queue': seq<Cell>, visited': set<Cell>, parents': map<Cell, Cell>,
             nodesVisited': nat, ghost dist': map<Cell, nat>, ghost done': set<Cell>)
    requires Shaped(grid) && 0 < split
    requires BfsState(grid, start, goal, queue, visited, parents, dist, done, level, split)
    requires nodesVisited == |done| && |visited| <= ROWS * COLS + 1
    ensures path.Some? ==> Shortest(grid, path.value, start, goal)
    ensures path.Some? ==> 1 <= nodesVisited' && (InBounds(start) ==> nodesVisited' <= ROWS * COLS)
    ensures path.Some? && start == goal ==> path.value == [start]
    ensures path.None? ==> BfsState(grid, start, goal, queue', visited', parents', dist', done', level, split - 1)
    ensures path.None? ==> nodesVisited' == |done'| && |visited'| <= ROWS * COLS + 1
    ensures path.None? ==> |visited'| - |queue'| == |visited| - |queue| + 1
  {
    nodesVisited' := nodesVisited + 1;
    if queue[0] == goal {
      path := BfsFinish(grid, start, goal, queue, visited, parents, dist, done, level, split);
      queue', visited', parents', dist', done' := queue, visited, parents, dist, done;
      return;
    }
    path := None;
    queue', visited', parents', dist', done' :=
      BfsExpand(grid, start, goal, queue, visited, parents, dist, done, level, split, split - 1);
  }

  method BfsLevel(grid: array2<int>, start: Cell, goal: Cell, queue: seq<Cell>, visited: set<Cell>,
                  parents: map<Cell, Cell>, nodesVisited: nat, ghost dist: map<Cell, nat>, ghost done: set<Cell>,
                  ghost level: nat)
    returns (path: Option<seq<Cell>>, queue': seq<Cell>, visited': set<Cell>, parents': map<Cell, Cell>,
             nodesVisited': nat, ghost dist': map<Cell, nat>, ghost done': set<Cell>)
    requires Shaped(grid) && |queue| > 0
    requires BfsState(grid, start, goal, queue, visited, parents, dist, done, level, |queue|)
    requires nodesVisited == |done| && |visited| <= ROWS * COLS + 1
    ensures path.Some? ==> Shortest(grid, path.value, start, goal)
    ensures path.Some? ==> 1 <= nodesVisited' && (InBounds(start) ==> nodesVisited' <= ROWS * COLS)
    ensures path.Some? && start == goal ==> path.value == [start]
    ensures path.None? ==> BfsState(grid, start, goal, queue', visited', parents', dist', done', level + 1, |queue'|)
    ensures path.None? ==> nodesVisited' == |done'| && |visited'| <= ROWS * COLS + 1
    ensures path.None? ==> ROWS * COLS + 1 - |visited'| + |queue'| < ROWS * COLS + 1 - |visited| + |queue|
  {
    queue', visited', parents', nodesVisited', dist', done' := queue, visited, parents, nodesVisited, dist, done;
    path := None;
    var levelSize := |queue|;
    for i := 0 to levelSize
      invariant path.None?
      invariant BfsState(grid, start, goal, queue', visited', parents', dist', done', level, levelSize - i)
      invariant nodesVisited' == |done'| && |visited'| <= ROWS * COLS + 1
      invariant ROWS * COLS + 1 - |visited'| + |queue'| + i == ROWS * COLS + 1 - |visited| + |queue|
    {
      path, queue', visited', parents', nodesVisited', dist', done' :=
        BfsVisit(grid, start, goal, queue', visited', parents', nodesVisited', dist', done', level, levelSize - i);
      if path.Some? {
        return;
      }
    }
    BfsNextLevel(grid, start, goal, queue', visited', parents', dist', done', level);
  }

  /** `BFS`: a FIFO queue processed level by level, cells marked visited when enqueued and the
      goal tested when dequeued. A path it returns is valid and no longer than any valid path;
      it returns none only when no valid path exists. */
  method BFS(grid: array2<int>, start: Cell, goal: Cell) returns (r: SearchResult)
    requires Shaped(grid)
    ensures r.path.Some? ==> ValidPath(grid, r.path.value, start, goal)
    ensures r.path.Some? ==> forall q :: ValidPath(grid, q, start, goal) ==> |r.path.value| <= |q|
    ensures r.path.None? ==> forall q :: !ValidPath(grid, q, start, goal)
    ensures start == goal ==> r.path == Some([start])
    ensures 1 <= r.nodesVisited && 1 <= r.maxFrontier
    ensures InBounds(start) ==> r.nodesVisited <= ROWS * COLS
  {
    var queue: seq<Cell> := [start];
    var visited: set<Cell> := {start};
    var parents: map<Cell, Cell> := map[];
    var nodesVisited := 0;
    var maxFrontier := 1;
    ghost var dist: map<Cell, nat> := map[start := 0];
    ghost var done: set<Cell> := {};
    ghost var level: nat := 0;
    assert CellSet(queue) == {start};

    while |queue| > 0
      invariant BfsState(grid, start, goal, queue, visited, parents, dist, done, level, |queue|)
      invariant nodesVisited == |done| && maxFrontier >= 1 && |visited| <= ROWS * COLS + 1
      decreases ROWS * COLS + 1 - |visited| + |queue|
    {
      maxFrontier := Max(maxFrontier, |queue|);
      var path;
      path, queue, visited, parents, nodesVisited, dist, done :=
        BfsLevel(grid, start, goal, queue, visited, parents, nodesVisited, dist, done, level);
      if path.Some? {
        return SearchResult(path, nodesVisited, maxFrontier);
      }
      level := level + 1;
    }

    Exhausted(grid, start, goal, visited, done);
    VisitedBound(start, visited, done);
    return SearchResult(None, nodesVisited, maxFrontier);
  }

  /** The state DFS keeps: a search tree over the visited cells, the stack holding exactly
      the unfinished visited cells, and every valid neighbour of a finished cell visited. */
  ghost predicate DfsState(grid: array2<int>, start: Cell, goal: Cell, stack: seq<Cell>, visited: set<Cell>,
                           parents: map<Cell, Cell>, depth: map<Cell, nat>, done: set<Cell>)
    requires Shaped(grid)
    reads grid
  {
    && Tree(grid, start, visited, parents, depth)
    && (forall k :: k in visited ==> k == start || InBounds(k))
    && Frontier(stack, visited, done)
    && Closed(grid, done, visited)
    && goal !in done
  }

  /** DFS's step: popping the top of the stack and pushing its fresh neighbours keeps the DFS
      state; the primed arguments are the state after the step. */
  lemma DfsStep(grid: array2<int>, start: Cell, goal: Cell, stack: seq<Cell>, visited: set<Cell>,
                parents: map<Cell, Cell>, depth: map<Cell, nat>, done: set<Cell>, current: Cell, f: seq<Cell>,
                stack': seq<Cell>, visited': set<Cell>, parents': map<Cell, Cell>, depth': map<Cell, nat>,
                done': set<Cell>)
    requires Shaped(grid)
    requires DfsState(grid, start, goal, stack, visited, parents, depth, done)
    requires |stack| > 0 && current == stack[|stack| - 1] && current != goal
    requires FreshSet(grid, current, visited, f)
    requires stack' == stack[..|stack| - 1] + f && visited' == visited + CellSet(f)
    requires parents' == parents + Assign<Cell>(f, current) && done' == done + {current}
    requires current in depth && depth' == depth + Assign<nat>(f, depth[current] + 1)
    ensures DfsState(grid, start, goal, stack', visited', parents', depth', done')
  {
    assert stack == stack[..|stack| - 1] + [current];
    TreeGrows(grid, start, visited, parents, depth, current, f);
    ClosedGrows(grid, done, visited, current, f);
    FrontierGrows(stack, stack[..|stack| - 1], current, f, visited, done);
  }

  /** `DfsStep` stated over the variables DFS assigns after the neighbour loop; also gives the
      new depth map and the drop of the termination measure. */
  lemma DfsAdvance(grid: array2<int>, start: Cell, goal: Cell, stack: seq<Cell>, visited: set<Cell>,
                   parents: map<Cell, Cell>, depth: map<Cell, nat>, done: set<Cell>,
                   f: seq<Cell>, stack': seq<Cell>, visited': set<Cell>, parents': map<Cell, Cell>)
    returns (depth': map<Cell, nat>, done': set<Cell>)
    requires Shaped(grid)
    requires DfsState(grid, start, goal, stack, visited, parents, depth, done)
    requires |stack| > 0 && stack[|stack| - 1] != goal
    requires f == Fresh(grid, stack[|stack| - 1], visited, |DIRECTIONS|)
    requires stack' == stack[..|stack| - 1] + f && visited' == visited + CellSet(f)
    requires parents' == parents + Assign<Cell>(f, stack[|stack| - 1])
    ensures done' == done + {stack[|stack| - 1]}
    ensures DfsState(grid, start, goal, stack', visited', parents', depth', done')
    ensures |visited'| == |visited| + |stack'| + 1 - |stack| <= ROWS * COLS + 1
    ensures |done'| == |done| + 1
  {
    var current := stack[|stack| - 1];
    assert current in CellSet(stack);
    FreshIsFreshSet(grid, current, visited);
    depth' := depth + Assign<nat>(f, depth[current] + 1);
    done' := done + {current};
    DfsStep(grid, start, goal, stack, visited, parents, depth, done, current, f, stack', visited', parents', depth', done');
    MeasureDrops(grid, start, current, visited, f);
  }

  /** The body of DFS's loop for a top that is not the goal: pop it, then push its fresh
      neighbours (`Fresh`, in direction order), mark them visited and make the top their parent. */
  method DfsExpand(grid: array2<int>, ghost start: Cell, ghost goal: Cell, stack: seq<Cell>, visited: set<Cell>,
                   parents: map<Cell, Cell>, ghost depth: map<Cell, nat>, ghost done: set<Cell>)
    returns (stack': seq<Cell>, visited': set<Cell>, parents': map<Cell, Cell>,
             ghost depth': map<Cell, nat>, ghost done': set<Cell>)
    requires Shaped(grid)
    requires DfsState(grid, start, goal, stack, visited, parents, depth, done)
    requires |stack| > 0 && stack[|stack| - 1] != goal
    ensures Scanned(grid, stack[|stack| - 1], |DIRECTIONS|, stack[..|stack| - 1], visited, parents,
                    stack', visited', parents')
    ensures DfsState(grid, start, goal, stack', visited', parents', depth', done')
    ensures |visited'| == |visited| + |stack'| + 1 - |stack| <= ROWS * COLS + 1
    ensures |done'| == |done| + 1
  {
    var current := stack[|stack| - 1];
    stack', visited', parents' := ScanNeighbors(grid, current, stack[..|stack| - 1], visited, parents);
    ghost var f := Fresh(grid, current, visited, |DIRECTIONS|);
    depth', done' := DfsAdvance(grid, start, goal, stack, visited, parents, depth, done, f, stack', visited', parents');
  }

  /** The state DFS starts from: only `start` visited and on the stack, nothing finished. */
  lemma DfsInit(grid: array2<int>, start: Cell, goal: Cell)
    requires Shaped(grid)
    ensures DfsState(grid, start, goal, [start], {start}, map[], map[start := 0], {})
  {
    assert CellSet([start]) == {start};
  }

  /** DFS has emptied its stack: every visited cell is finished, so no valid path reaches the goal. */
  lemma DfsExhausted(grid: array2<int>, start: Cell, goal: Cell, visited: set<Cell>,
                     parents: map<Cell, Cell>, depth: map<Cell, nat>, done: set<Cell>)
    requires Shaped(grid)
    requires DfsState(grid, start, goal, [], visited, parents, depth, done)
    ensures forall q :: !ValidPath(grid, q, start, goal)
    ensures 1 <= |done| && (InBounds(start) ==> |done| <= ROWS * COLS)
  {
    Exhausted(grid, start, goal, visited, done);
    VisitedBound(start, visited, done);
  }

  /** DFS has popped the goal: the path `ReconstructPath` builds from the parent map is valid. */
  method DfsFinish(grid: array2<int>, start: Cell, goal: Cell, stack: seq<Cell>, visited: set<Cell>,
                   parents: map<Cell, Cell>, ghost depth: map<Cell, nat>, ghost done: set<Cell>)
    returns (path: Option<seq<Cell>>)
    requires Shaped(grid)
    requires DfsState(grid, start, goal, stack, visited, parents, depth, done)
    requires |stack| > 0 && stack[|stack| - 1] == goal
    ensures path.Some? && ValidPath(grid, path.value, start, goal)
    ensures 1 <= |done| + 1 && (InBounds(start) ==> |done| + 1 <= ROWS * COLS)
    ensures start == goal ==> path.value == [start]
  {
    TreeRanks(grid, start, visited, parents, depth);
    path := ReconstructPath(parents, start, goal, depth);
    assert goal in CellSet(stack);
    ChainIsPath(grid, start, goal, visited, parents, depth, path.value);
    VisitedBound(start, visited, done + {goal});
  }

  /** `DFS`: a LIFO stack, cells marked visited when pushed and the goal tested when popped.
      A path it returns is valid; it returns none only when no valid path exists. */
  method DFS(grid: array2<int>, start: Cell, goal: Cell) returns (r: SearchResult)
    requires Shaped(grid)
    ensures r.path.Some? ==> ValidPath(grid, r.path.value, start, goal)
    ensures r.path.None? ==> forall q :: !ValidPath(grid, q, start, goal)
    ensures start == goal ==> r.path == Some([start])
    ensures 1 <= r.nodesVisited && 1 <= r.maxFrontier
    ensures InBounds(start) ==> r.nodesVisited <= ROWS * COLS
  {
    var stack: seq<Cell> := [start];
    var visited: set<Cell> := {start};
    var parents: map<Cell, Cell> := map[];
    var nodesVisited := 0;
    var maxFrontier := 1;
    ghost var depth: map<Cell, nat> := map[start := 0];
    ghost var done: set<Cell> := {};
    DfsInit(grid, start, goal);

    while |stack| > 0
      invariant DfsState(grid, start, goal, stack, visited, parents, depth, done)
      invariant nodesVisited == |done| && maxFrontier >= 1 && |visited| <= ROWS * COLS + 1
      decreases ROWS * COLS + 1 - |visited| + |stack|
    {
      maxFrontier := Max(maxFrontier, |stack|);
      var current := stack[|stack| - 1];
      nodesVisited := nodesVisited + 1;

      if current == goal {
        var path := DfsFinish(grid, start, goal, stack, visited, parents, depth, done);
        return SearchResult(path, nodesVisited, maxFrontier);
      }

      stack, visited, parents, depth, done := DfsExpand(grid, start, goal, stack, visited, parents, depth, done);
    }

    DfsExhausted(grid, start, goal, visited, parents, depth, done);
    return SearchResult(None, nodesVisited, maxFrontier);
  }

}
