/** The main window without its drawing: the grid, the path each search found, the path on
    display, the selected mode, and the records each search adds to the metrics ledger.
    Stopwatch readings arrive as parameters (`elapsed`, `Timings`). */
module Window {
  import opened Grid
  import opened Metrics
  import Search
  import Deepening
  import Generation

  /** The `PathLengths` entry of a run: `path.Count` on success, 0 on failure. */
  function PathLength(path: Option<seq<Cell>>): nat {
    if path.Some? then |path.value| else 0
  }

  /** The list a search's answer becomes: the path, or an empty list for none. */
  function Shown(path: Option<seq<Cell>>): seq<Cell> {
    if path.Some? then path.value else []
  }

  /** The answer a stored list stands for: none when it is empty. */
  function Found(p: seq<Cell>): Option<seq<Cell>> {
    if p == [] then None else Some(p)
  }

  /** A search's answer, once stored as a list, can be read back, and its recorded path length
      is positive exactly when it found a path, because a valid path has at least one cell.
      This is the test the mode buttons make on the last recorded length. */
  lemma FoundIffPositive(grid: array2<int>, start: Cell, goal: Cell, path: Option<seq<Cell>>)
    requires Shaped(grid)
    requires path.Some? ==> ValidPath(grid, path.value, start, goal)
    ensures PathLength(path) > 0 <==> path.Some?
    ensures |Shown(path)| == PathLength(path) && Found(Shown(path)) == path
  {
  }

  /** `algorithmPaths[a] = path` when the search found one; nothing otherwise. */
  function Stored(paths: map<Algorithm, seq<Cell>>, a: Algorithm, path: Option<seq<Cell>>): map<Algorithm, seq<Cell>> {
    if path.Some? then paths[a := path.value] else paths
  }

  /** The three stopwatch readings of one run of the searches, in seconds. */
  datatype Timings = Timings(bfs: real, dfs: real, ids: real)

  /** The IDS record: the four common values and the iteration count. */
  function AppendedIds(l: Lists, time: real, r: Deepening.IdsResult): Lists {
    Appended(l, time, r.nodesVisited, r.maxFrontier, PathLength(r.path)).(iterations := l.iterations + [r.iterations])
  }

  /** The ledger after one run of all three searches. */
  function AfterRun(ledger: map<Algorithm, Lists>, t: Timings, bfs: Search.SearchResult, dfs: Search.SearchResult, ids: Deepening.IdsResult)
    : map<Algorithm, Lists>
    requires forall a: Algorithm :: a in ledger
  {
    ledger[BFS := Appended(ledger[BFS], t.bfs, bfs.nodesVisited, bfs.maxFrontier, PathLength(bfs.path))]
          [DFS := Appended(ledger[DFS], t.dfs, dfs.nodesVisited, dfs.maxFrontier, PathLength(dfs.path))]
          [IDS := AppendedIds(ledger[IDS], t.ids, ids)]
  }

  /** One more value on each of the four common lists, one more iteration count when
      `withIterations`, and nothing removed. */
  predicate OneRecord(before: Lists, after: Lists, withIterations: bool) {
    && Extends(before, after)
    && |after.executionTimes| == |before.executionTimes| + 1
    && |after.nodesVisited| == |before.nodesVisited| + 1
    && |after.maxFrontier| == |before.maxFrontier| + 1
    && |after.pathLengths| == |before.pathLengths| + 1
    && |after.iterations| == |before.iterations| + (if withIterations then 1 else 0)
  }

  /** Every algorithm gained exactly one record; only IDS records an iteration count. */
  ghost predicate OneRecordEach(before: map<Algorithm, Lists>, after: map<Algorithm, Lists>) {
    && BFS in before && DFS in before && IDS in before
    && BFS in after && DFS in after && IDS in after
    && OneRecord(before[BFS], after[BFS], false)
    && OneRecord(before[DFS], after[DFS], false)
    && OneRecord(before[IDS], after[IDS], true)
  }

  /** One run records each algorithm once, and the last recorded path length of each is the
      length of the path it found, or 0. */
  lemma AfterRunRecords(ledger: map<Algorithm, Lists>, t: Timings, bfs: Search.SearchResult, dfs: Search.SearchResult, ids: Deepening.IdsResult)
    requires forall a: Algorithm :: a in ledger
    ensures OneRecordEach(ledger, AfterRun(ledger, t, bfs, dfs, ids))
    ensures LastLength(AfterRun(ledger, t, bfs, dfs, ids)[BFS].pathLengths) == PathLength(bfs.path)
    ensures LastLength(AfterRun(ledger, t, bfs, dfs, ids)[DFS].pathLengths) == PathLength(dfs.path)
    ensures LastLength(AfterRun(ledger, t, bfs, dfs, ids)[IDS].pathLengths) == PathLength(ids.path)
  {
    AppendedRecord(ledger[BFS], t.bfs, bfs.nodesVisited, bfs.maxFrontier, PathLength(bfs.path));
    AppendedRecord(ledger[DFS], t.dfs, dfs.nodesVisited, dfs.maxFrontier, PathLength(dfs.path));
    AppendedRecord(ledger[IDS], t.ids, ids.nodesVisited, ids.maxFrontier, PathLength(ids.path));
  }

  /** The last value of a list, 0 for an empty one. */
  function LastLength(lengths: seq<int>): int {
    if lengths == [] then 0 else lengths[|lengths| - 1]
  }

  /** A search's answer is sound and complete: a path it returns is valid, and when it
      returns none there is no valid path. */
  ghost predicate Answers(grid: array2<int>, start: Cell, goal: Cell, path: Option<seq<Cell>>)
    requires Shaped(grid)
    reads grid
  {
    && (path.Some? ==> ValidPath(grid, path.value, start, goal))
    && (path.None? ==> forall q :: !ValidPath(grid, q, start, goal))
  }

  /** BFS's answer: sound, complete, and no valid path has fewer cells. */
  ghost predicate AnswersShortest(grid: array2<int>, start: Cell, goal: Cell, path: Option<seq<Cell>>)
    requires Shaped(grid)
    reads grid
  {
    && Answers(grid, start, goal, path)
    && (path.Some? ==> forall q :: ValidPath(grid, q, start, goal) ==> |path.value| <= |q|)
  }

  /** IDS's answer: a path it returns is valid and no longer than the last depth limit
      allows, and it gives up only after every limit up to ROWS * COLS. */
  ghost predicate AnswersWithin(grid: array2<int>, start: Cell, goal: Cell, r: Deepening.IdsResult)
    requires Shaped(grid)
    reads grid
  {
    && (r.path.Some? ==> ValidPath(grid, r.path.value, start, goal) && |r.path.value| <= Max(1, r.iterations - 1))
    && (r.path.None? ==> r.iterations == ROWS * COLS + 1)
    && 1 <= r.iterations <= ROWS * COLS + 1
  }

  /** The three searches' answers on one grid. */
  ghost predicate AnswersAll(grid: array2<int>, start: Cell, goal: Cell,
                             bfs: Search.SearchResult, dfs: Search.SearchResult, ids: Deepening.IdsResult)
    requires Shaped(grid)
    reads grid
  {
    AnswersShortest(grid, start, goal, bfs.path) && Answers(grid, start, goal, dfs.path) && AnswersWithin(grid, start, goal, ids)
  }

  /** The stored paths are the searches' answers on `grid`: BFS's is sound, complete and shortest,
      DFS's sound and complete, IDS's valid; and the displayed path is valid. */
  ghost predicate AnsweredBy(grid: array2<int>, start: Cell, goal: Cell, paths: map<Algorithm, seq<Cell>>, current: seq<Cell>)
    requires Shaped(grid)
    reads grid
  {
    && BFS in paths && DFS in paths && IDS in paths
    && AnswersShortest(grid, start, goal, Found(paths[BFS]))
    && Answers(grid, start, goal, Found(paths[DFS]))
    && (|paths[IDS]| > 0 ==> ValidPath(grid, paths[IDS], start, goal))
    && (|current| > 0 ==> ValidPath(grid, current, start, goal))
  }

  /** Storing three answers over emptied lists, and then displaying the selected mode's list
      when non-empty, leaves lists that are exactly those answers. */
  lemma StoredAnswers(grid: array2<int>, start: Cell, goal: Cell, paths: map<Algorithm, seq<Cell>>, mode: Algorithm,
                      bfs: Search.SearchResult, dfs: Search.SearchResult, ids: Deepening.IdsResult)
    requires Shaped(grid)
    requires forall a: Algorithm :: a in paths && paths[a] == []
    requires AnswersAll(grid, start, goal, bfs, dfs, ids)
    ensures var stored := Stored(Stored(Stored(paths, BFS, bfs.path), DFS, dfs.path), IDS, ids.path);
      && (forall a: Algorithm :: a in stored)
      && AnsweredBy(grid, start, goal, stored, if |stored[mode]| > 0 then stored[mode] else [])
  {
    var stored := Stored(Stored(Stored(paths, BFS, bfs.path), DFS, dfs.path), IDS, ids.path);
    EveryKey(stored);
    FoundIffPositive(grid, start, goal, bfs.path);
    FoundIffPositive(grid, start, goal, dfs.path);
    FoundIffPositive(grid, start, goal, ids.path);
    assert stored[BFS] == Shown(bfs.path) && stored[DFS] == Shown(dfs.path) && stored[IDS] == Shown(ids.path);
  }

  /** `MainWindow`, with the ledger it shares with the results page as a field. */
  class MainWindow {
    const start: Cell
    const goal: Cell
    const grid: array2<int>
    var algorithmPaths: map<Algorithm, seq<Cell>>
    var currentPath: seq<Cell>
    var currentMode: Algorithm
    const repository: PerformanceDataRepository
    /** The outcome of the last random walk `GenerateGrid` made. */
    ghost var lastWalk: Generation.Walk

    /** The grid has its fixed shape and the ledger its three records. */
    ghost predicate Ready()
      reads repository
    {
      Shaped(grid) && repository.Valid() && InBounds(start) && InBounds(goal)
    }

    /** Besides, start and goal lie on the grid and every algorithm has a stored path. */
    ghost predicate Valid()
      reads this, repository
    {
      && Ready()
      && (forall a: Algorithm :: a in algorithmPaths)
    }

    /** Algorithm `a` has a record, and its last recorded path length is the length of its
        stored path, so a failed last run left an empty path. */
    ghost predicate AgreesOn(a: Algorithm)
      requires Valid()
      reads this, repository, repository.PerformanceData.Values
    {
      && |repository.PerformanceData[a].PathLengths| > 0
      && LastLength(repository.PerformanceData[a].PathLengths) == |algorithmPaths[a]|
    }

    /** The stored and displayed paths are the searches' answers on the current grid. */
    ghost predicate Answered()
      requires Valid()
      reads this, repository, grid
    {
      AnsweredBy(grid, start, goal, algorithmPaths, currentPath)
    }

    /** The ledger agrees with the stored paths for every algorithm. */
    ghost predicate Agrees()
      requires Valid()
      reads this, repository, repository.PerformanceData.Values
    {
      AgreesOn(Algorithm.BFS) && AgreesOn(Algorithm.DFS) && AgreesOn(Algorithm.IDS)
    }

    /** The window's fields as initialised, then `GenerateGrid(); RunSearchAlgorithms();`, the
        same pair of calls the regenerate button makes. The grid is built either way; either
        the walk reached the goal, the grid is as planned and every algorithm has one record
        more, or the walk ran out of `fuel` and nothing was recorded. */
    constructor (repository: PerformanceDataRepository, choose: nat -> nat, wall: nat -> bool, fuel: nat, t: Timings)
      requires repository.Valid()
      modifies repository.PerformanceData.Values
      ensures Valid() && fresh(grid)
      ensures this.repository == repository && start == (0, 0) && goal == (19, 19) && currentMode == Algorithm.BFS
      ensures forall x, y :: 0 <= x < ROWS && 0 <= y < COLS ==> grid[x, y] in {0, 1}
      ensures grid[start.0, start.1] == 0 && grid[goal.0, goal.1] == 0
      ensures lastWalk.Reached? ==> forall x, y :: 0 <= x < ROWS && 0 <= y < COLS ==>
        grid[x, y] == Generation.Planned(start, goal, lastWalk.path, wall, x, y)
      ensures lastWalk.Reached? ==>
        && Agrees() && Answered() && OneRecordEach(old(repository.Snapshot()), repository.Snapshot())
        && currentPath == if |algorithmPaths[Algorithm.BFS]| > 0 then algorithmPaths[Algorithm.BFS] else []
      ensures !lastWalk.Reached? ==> repository.Snapshot() == old(repository.Snapshot()) && currentPath == []
    {
      start := (0, 0);
      goal := (19, 19);
      grid := new int[ROWS, COLS];
      algorithmPaths := map[Algorithm.BFS := [], Algorithm.DFS := [], Algorithm.IDS := []];
      currentPath := [];
      currentMode := Algorithm.BFS;
      this.repository := repository;
      new;
      EveryKey(algorithmPaths);
      assert repository.Snapshot() == old(repository.Snapshot());
      var _ := Regenerate(choose, wall, fuel, t);
    }

    /** `GenerateGrid`: the grid as `Generation.GenerateGrid` leaves it, then every stored
        path and the displayed path emptied. */
    method GenerateGrid(choose: nat -> nat, wall: nat -> bool, fuel: nat) returns (walk: Generation.Walk)
      requires Valid()
      modifies this, grid
      ensures Valid() && currentMode == old(currentMode) && lastWalk == walk
      ensures walk.Reached? ==> forall x, y :: 0 <= x < ROWS && 0 <= y < COLS ==>
        grid[x, y] == Generation.Planned(start, goal, walk.path, wall, x, y)
      ensures forall x, y :: 0 <= x < ROWS && 0 <= y < COLS ==> grid[x, y] in {0, 1}
      ensures grid[start.0, start.1] == 0 && grid[goal.0, goal.1] == 0
      ensures walk.Reached? ==> forall i :: 0 <= i < |walk.path| ==>
        InBounds(walk.path[i]) && grid[walk.path[i].0, walk.path[i].1] == 0
      ensures walk.Reached? ==> (forall a: Algorithm :: algorithmPaths[a] == []) && currentPath == []
      ensures !walk.Reached? ==> algorithmPaths == old(algorithmPaths) && currentPath == old(currentPath)
    {
      walk := Generation.GenerateGrid(grid, start, goal, choose, wall, fuel);
      lastWalk := walk;
      if !walk.Reached? {
        return;
      }
      ClearPaths();
    }

    /** The end of `GenerateGrid`: every stored path and the displayed path emptied. */
    method ClearPaths()
      requires Valid()
      modifies this
      ensures Valid() && currentMode == old(currentMode) && lastWalk == old(lastWalk)
      ensures (forall a: Algorithm :: algorithmPaths[a] == []) && currentPath == []
    {
      var keys := algorithmPaths.Keys;
      while keys != {}
        invariant forall a: Algorithm :: a in algorithmPaths
        invariant forall a :: a in algorithmPaths && a !in keys ==> algorithmPaths[a] == []
        invariant currentMode == old(currentMode) && lastWalk == old(lastWalk)
        decreases keys
      {
        var algo :| algo in keys;
        algorithmPaths := algorithmPaths[algo := []];
        keys := keys - {algo};
      }
      currentPath := [];
    }

    /** `BFS`: the search, its one record in the BFS ledger, and the path stored on success. */
    method BFS(elapsed: real) returns (r: Search.SearchResult)
      requires Ready()
      modifies repository.PerformanceData[Algorithm.BFS]
      ensures AnswersShortest(grid, start, goal, r.path)
      ensures 1 <= r.nodesVisited <= ROWS * COLS && 1 <= r.maxFrontier
      ensures repository.PerformanceData[Algorithm.BFS].Contents() ==
        Appended(old(repository.PerformanceData[Algorithm.BFS].Contents()), elapsed, r.nodesVisited, r.maxFrontier, PathLength(r.path))
    {
      r := Search.BFS(grid, start, goal);
      assert AnswersShortest(grid, start, goal, r.path);
      repository.PerformanceData[Algorithm.BFS].Record(elapsed, r.nodesVisited, r.maxFrontier, PathLength(r.path));
    }

    /** `DFS`: the search, its one record in the DFS ledger, and the path stored on success. */
    method DFS(elapsed: real) returns (r: Search.SearchResult)
      requires Ready()
      modifies repository.PerformanceData[Algorithm.DFS]
      ensures Answers(grid, start, goal, r.path)
      ensures 1 <= r.nodesVisited <= ROWS * COLS && 1 <= r.maxFrontier
      ensures repository.PerformanceData[Algorithm.DFS].Contents() ==
        Appended(old(repository.PerformanceData[Algorithm.DFS].Contents()), elapsed, r.nodesVisited, r.maxFrontier, PathLength(r.path))
    {
      r := Search.DFS(grid, start, goal);
      assert Answers(grid, start, goal, r.path);
      repository.PerformanceData[Algorithm.DFS].Record(elapsed, r.nodesVisited, r.maxFrontier, PathLength(r.path));
    }

    /** `IDS`: the search, its one record (with the iteration count) in the IDS ledger, and
        the path stored on success. */
    method IDS(elapsed: real) returns (r: Deepening.IdsResult)
      requires Ready()
      modifies repository.PerformanceData[Algorithm.IDS]
      ensures AnswersWithin(grid, start, goal, r)
      ensures r == Deepening.Ids(grid, start, goal)
      ensures repository.PerformanceData[Algorithm.IDS].Contents() ==
        AppendedIds(old(repository.PerformanceData[Algorithm.IDS].Contents()), elapsed, r)
    {
      r := Deepening.IDS(grid, start, goal);
      assert AnswersWithin(grid, start, goal, r);
      var metrics := repository.PerformanceData[Algorithm.IDS];
      metrics.Record(elapsed, r.nodesVisited, r.maxFrontier, PathLength(r.path));
      metrics.RecordIterations(r.iterations);
    }

    /** `RunSearchAlgorithms`: the three searches, each path stored on success, then the
        selected mode's path displayed if non-empty, else an empty path. (Each search also
        stores its own path on success; that is the same assignment, made once here.) */
    method RunSearchAlgorithms(t: Timings)
      returns (bfs: Search.SearchResult, dfs: Search.SearchResult, ids: Deepening.IdsResult)
      requires Valid()
      modifies this, repository.PerformanceData.Values
      ensures Valid() && currentMode == old(currentMode) && lastWalk == old(lastWalk)
      ensures AnswersAll(grid, start, goal, bfs, dfs, ids)
      ensures algorithmPaths == Stored(Stored(Stored(old(algorithmPaths), Algorithm.BFS, bfs.path), Algorithm.DFS, dfs.path), Algorithm.IDS, ids.path)
      ensures currentPath == if |algorithmPaths[currentMode]| > 0 then algorithmPaths[currentMode] else []
      ensures repository.Snapshot() == AfterRun(old(repository.Snapshot()), t, bfs, dfs, ids)
    {
      bfs, dfs, ids := RecordSearches(t);
      var paths := Stored(Stored(Stored(algorithmPaths, Algorithm.BFS, bfs.path), Algorithm.DFS, dfs.path), Algorithm.IDS, ids.path);
      algorithmPaths, currentPath := paths, if currentMode in paths && |paths[currentMode]| > 0 then paths[currentMode] else [];
    }

    /** The three searches, in order, each recording one run in its own ledger. */
    method RecordSearches(t: Timings) returns (bfs: Search.SearchResult, dfs: Search.SearchResult, ids: Deepening.IdsResult)
      requires Ready()
      modifies repository.PerformanceData.Values
      ensures AnswersAll(grid, start, goal, bfs, dfs, ids)
      ensures repository.Snapshot() == AfterRun(old(repository.Snapshot()), t, bfs, dfs, ids)
    {
      bfs := BFS(t.bfs);
      dfs := DFS(t.dfs);
      ids := IDS(t.ids);
    }

    /** The three mode buttons: select the mode, and display its stored path only when its
        last recorded path length is positive. While the ledger agrees with the stored paths
        this is the choice `RunSearchAlgorithms` makes. */
    method SelectMode(mode: Algorithm)
      requires Valid()
      modifies this
      ensures Valid() && currentMode == mode && algorithmPaths == old(algorithmPaths)
      ensures var lengths := repository.PerformanceData[mode].PathLengths;
        currentPath == if |lengths| > 0 && lengths[|lengths| - 1] > 0 then algorithmPaths[mode] else []
      ensures AgreesOn(mode) ==> currentPath == if |algorithmPaths[mode]| > 0 then algorithmPaths[mode] else []
    {
      currentMode := mode;
      var lengths := repository.PerformanceData[mode].PathLengths;
      if |lengths| > 0 && lengths[|lengths| - 1] > 0 {
        currentPath := algorithmPaths[mode];
      } else {
        currentPath := [];
      }
    }

    /** `RegenerateButton_Click`: a new grid, then all three searches. When the walk reaches
        the goal every algorithm gains exactly one record and the ledger agrees with the
        stored paths. */
    method Regenerate(choose: nat -> nat, wall: nat -> bool, fuel: nat, t: Timings) returns (walk: Generation.Walk)
      requires Valid()
      modifies this, grid, repository.PerformanceData.Values
      ensures Valid() && currentMode == old(currentMode) && lastWalk == walk
      ensures forall x, y :: 0 <= x < ROWS && 0 <= y < COLS ==> grid[x, y] in {0, 1}
      ensures grid[start.0, start.1] == 0 && grid[goal.0, goal.1] == 0
      ensures walk.Reached? ==> Agrees() && OneRecordEach(old(repository.Snapshot()), repository.Snapshot())
      ensures walk.Reached? ==> currentPath == if |algorithmPaths[currentMode]| > 0 then algorithmPaths[currentMode] else []
      ensures walk.Reached? ==> Answered()
      ensures walk.Reached? ==> forall x, y :: 0 <= x < ROWS && 0 <= y < COLS ==>
        grid[x, y] == Generation.Planned(start, goal, walk.path, wall, x, y)
      ensures !walk.Reached? ==> repository.Snapshot() == old(repository.Snapshot()) && currentPath == old(currentPath)
    {
      walk := GenerateGrid(choose, wall, fuel);
      if walk.Reached? {
        SearchNewGrid(t);
      }
    }

    /** `RunSearchAlgorithms` right after `GenerateGrid` emptied every stored path: each
        algorithm gains one record and the ledger then agrees with the stored paths. */
    method SearchNewGrid(t: Timings)
      requires Valid() && forall a: Algorithm :: algorithmPaths[a] == []
      modifies this, repository.PerformanceData.Values
      ensures Valid() && currentMode == old(currentMode) && lastWalk == old(lastWalk)
      ensures Agrees() && OneRecordEach(old(repository.Snapshot()), repository.Snapshot())
      ensures currentPath == if |algorithmPaths[currentMode]| > 0 then algorithmPaths[currentMode] else []
      ensures Answered()
    {
      var bfs, dfs, ids := RunSearchAlgorithms(t);
      StoredAnswers(grid, start, goal, old(algorithmPaths), currentMode, bfs, dfs, ids);
      AfterRunRecords(old(repository.Snapshot()), t, bfs, dfs, ids);
    }

    /** The averages `UpdateMetricsDisplay` shows for the selected mode. */
    function MetricsDisplay(): (r: Averages)
      requires Valid()
      reads this, repository, repository.PerformanceData.Values
      ensures currentMode in repository.PerformanceData
      ensures var l := repository.PerformanceData[currentMode].Contents();
        && r.avgTime * (|l.executionTimes| as real) == Sum(l.executionTimes)
        && AverageOf(r.avgNodes, l.nodesVisited)
        && AverageOf(r.avgFrontier, l.maxFrontier)
        && AverageOf(r.avgPathLength, l.pathLengths)
        && (r.avgIterations.Some? ==> AverageOf(r.avgIterations.value, l.iterations))
      ensures r.avgIterations.Some? <==> currentMode == Algorithm.IDS
      ensures repository.PerformanceData[currentMode].Contents() == EMPTY ==>
        r == Averages(0.0, 0.0, 0.0, 0.0, if currentMode == Algorithm.IDS then Some(0.0) else None)
    {
      Summary(currentMode, repository.PerformanceData[currentMode].Contents())
    }
  }
}
