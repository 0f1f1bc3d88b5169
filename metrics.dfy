/** The metrics ledger: one set of append-only lists per algorithm, `Reset`, and the
    averages the metrics panel shows. */
module Metrics {
  import opened Grid

  /** The keys "BFS", "DFS" and "IDS" of the ledger and of the table of found paths. */
  datatype Algorithm = BFS | DFS | IDS

  const ALGORITHMS: set<Algorithm> := {BFS, DFS, IDS}

  /** A map with the three keys has every algorithm as a key. */
  lemma EveryKey<T>(m: map<Algorithm, T>)
    requires BFS in m && DFS in m && IDS in m
    ensures forall a: Algorithm :: a in m
  {
    forall a: Algorithm
      ensures a in m
    {
      match a
      case BFS =>
      case DFS =>
      case IDS =>
    }
  }

  /** The five lists of one `PerformanceMetrics`, as a value. */
  datatype Lists = Lists(
    executionTimes: seq<real>,
    nodesVisited: seq<int>,
    maxFrontier: seq<int>,
    pathLengths: seq<int>,
    iterations: seq<int>)

  const EMPTY: Lists := Lists([], [], [], [], [])

  /** `b` is `a` with values added at the end of some lists and nothing removed. */
  predicate Extends(a: Lists, b: Lists) {
    && a.executionTimes <= b.executionTimes
    && a.nodesVisited <= b.nodesVisited
    && a.maxFrontier <= b.maxFrontier
    && a.pathLengths <= b.pathLengths
    && a.iterations <= b.iterations
  }

  /** The record one finished search leaves: one value on each of the four common lists. */
  function Appended(l: Lists, time: real, nodes: int, frontier: int, pathLength: int): Lists {
    l.(executionTimes := l.executionTimes + [time],
       nodesVisited := l.nodesVisited + [nodes],
       maxFrontier := l.maxFrontier + [frontier],
       pathLengths := l.pathLengths + [pathLength])
  }

  /** One search's record grows each of the four common lists by exactly one, keeps what
      was there, ends in the recorded values and leaves `Iterations` alone. */
  lemma AppendedRecord(l: Lists, time: real, nodes: int, frontier: int, pathLength: int)
    ensures var r := Appended(l, time, nodes, frontier, pathLength);
      && Extends(l, r)
      && |r.executionTimes| == |l.executionTimes| + 1
      && |r.nodesVisited| == |l.nodesVisited| + 1
      && |r.maxFrontier| == |l.maxFrontier| + 1
      && |r.pathLengths| == |l.pathLengths| + 1
      && r.iterations == l.iterations
      && r.executionTimes[|l.executionTimes|] == time
      && r.nodesVisited[|l.nodesVisited|] == nodes
      && r.maxFrontier[|l.maxFrontier|] == frontier
      && r.pathLengths[|l.pathLengths|] == pathLength
  {
  }

  /** `PerformanceMetrics`: the lists one algorithm accumulates over all runs. */
  class PerformanceMetrics {
    var ExecutionTimes: seq<real>
    var NodesVisited: seq<int>
    var MaxFrontier: seq<int>
    var PathLengths: seq<int>
    /** Filled by IDS only. */
    var Iterations: seq<int>

    function Contents(): Lists
      reads this
    {
      Lists(ExecutionTimes, NodesVisited, MaxFrontier, PathLengths, Iterations)
    }

    /** A new record has five empty lists. */
    constructor ()
      ensures Contents() == EMPTY
    {
      ExecutionTimes := [];
      NodesVisited := [];
      MaxFrontier := [];
      PathLengths := [];
      Iterations := [];
    }

    /** The four `Add` calls every search makes once it has its result. */
    method Record(time: real, nodes: int, frontier: int, pathLength: int)
      modifies this
      ensures Contents() == Appended(old(Contents()), time, nodes, frontier, pathLength)
    {
      ExecutionTimes := ExecutionTimes + [time];
      NodesVisited := NodesVisited + [nodes];
      MaxFrontier := MaxFrontier + [frontier];
      PathLengths := PathLengths + [pathLength];
    }

    /** The fifth `Add`, made by IDS alone. */
    method RecordIterations(iterations: int)
      modifies this
      ensures Contents() == old(Contents()).(iterations := old(Iterations) + [iterations])
    {
      Iterations := Iterations + [iterations];
    }
  }

  /** Every key keeps its place and every list is emptied. */
  function Cleared(snapshot: map<Algorithm, Lists>): (r: map<Algorithm, Lists>)
  {
    map a | a in snapshot :: EMPTY
  }

  /** What `Reset` leaves: the same keys, every list of every algorithm empty, whatever they
      held; and clearing what is already clear changes nothing. */
  lemma ClearedFacts(snapshot: map<Algorithm, Lists>)
    ensures Cleared(snapshot).Keys == snapshot.Keys
    ensures forall a :: a in Cleared(snapshot) ==> Cleared(snapshot)[a] == EMPTY
    ensures Cleared(Cleared(snapshot)) == Cleared(snapshot)
  {
  }

  /** `PerformanceDataRepository`: the ledger shared by the main window and the results page.
      The application keeps it in a static field; here it is an object handed to the window. */
  class PerformanceDataRepository {
    var PerformanceData: map<Algorithm, PerformanceMetrics>

    /** Exactly the three keys, each with its own record. */
    ghost predicate Valid()
      reads this
    {
      && (forall a: Algorithm :: a in PerformanceData)
      && PerformanceData[BFS] != PerformanceData[DFS]
      && PerformanceData[BFS] != PerformanceData[IDS]
      && PerformanceData[DFS] != PerformanceData[IDS]
    }

    /** The lists of every key, as values. */
    function Snapshot(): (s: map<Algorithm, Lists>)
      requires Valid()
      reads this, PerformanceData.Values
      ensures forall a: Algorithm :: a in s
    {
      var s := map[BFS := PerformanceData[BFS].Contents(),
                   DFS := PerformanceData[DFS].Contents(),
                   IDS := PerformanceData[IDS].Contents()];
      EveryKey(s);
      s
    }

    /** The initial store: keys BFS, DFS and IDS, each with five empty lists. */
    constructor ()
      ensures Valid()
      ensures Snapshot() == map[BFS := EMPTY, DFS := EMPTY, IDS := EMPTY]
      ensures fresh(PerformanceData.Values)
    {
      var bfs := new PerformanceMetrics();
      var dfs := new PerformanceMetrics();
      var ids := new PerformanceMetrics();
      PerformanceData := map[BFS := bfs, DFS := dfs, IDS := ids];
      new;
      EveryKey(PerformanceData);
    }

    /** `Reset`: clears, one record at a time, the lists of every algorithm in place. */
    method Reset()
      requires Valid()
      modifies PerformanceData.Values
      ensures Valid()
      ensures PerformanceData == old(PerformanceData)
      ensures Snapshot() == Cleared(old(Snapshot()))
    {
      var pending := PerformanceData.Values;
      while pending != {}
        invariant pending <= PerformanceData.Values
        invariant forall m :: m in PerformanceData.Values && m !in pending ==> m.Contents() == EMPTY
        invariant forall m :: m in pending ==> m.Contents() == old(m.Contents())
        decreases pending
      {
        var metrics :| metrics in pending;
        metrics.ExecutionTimes := [];
        metrics.NodesVisited := [];
        metrics.MaxFrontier := [];
        metrics.PathLengths := [];
        metrics.Iterations := [];
        pending := pending - {metrics};
      }
    }
  }

  function Sum(xs: seq<real>): real {
    if xs == [] then 0.0 else Sum(xs[..|xs| - 1]) + xs[|xs| - 1]
  }

  /** `Enumerable.Average` guarded as the metrics panel guards it: 0 for an empty list. */
  function Mean(xs: seq<real>): (m: real)
    ensures xs == [] ==> m == 0.0
    ensures xs != [] ==> m * (|xs| as real) == Sum(xs)
  {
    if xs == [] then 0.0 else Sum(xs) / (|xs| as real)
  }

  /** An integer list widened to the doubles `Average` computes with. */
  function AsReals(xs: seq<int>): seq<real> {
    seq(|xs|, i requires 0 <= i < |xs| => xs[i] as real)
  }

  /** The integer sum of a list. */
  function IntSum(xs: seq<int>): int {
    if xs == [] then 0 else IntSum(xs[..|xs| - 1]) + xs[|xs| - 1]
  }

  /** Widening to reals and then summing gives the integer sum, so an integer metric's
      average is its integer sum over its count. */
  lemma {:induction false} SumAsReals(xs: seq<int>)
    ensures Sum(AsReals(xs)) == IntSum(xs) as real
  {
    if xs != [] {
      SumAsReals(xs[..|xs| - 1]);
      assert AsReals(xs)[..|xs| - 1] == AsReals(xs[..|xs| - 1]);
    }
  }

  /** `m` is the average of the integer list `xs`: `m` times the count is the integer sum. */
  predicate AverageOf(m: real, xs: seq<int>) {
    m * (|xs| as real) == IntSum(xs) as real
  }

  /** The guarded average of an integer list is its integer sum over its count (0 for no values). */
  lemma IntMean(xs: seq<int>)
    ensures AverageOf(Mean(AsReals(xs)), xs)
  {
    SumAsReals(xs);
  }

  lemma {:induction false} SumWithin(xs: seq<real>, lo: real, hi: real)
    requires forall i :: 0 <= i < |xs| ==> lo <= xs[i] <= hi
    ensures (|xs| as real) * lo <= Sum(xs) <= (|xs| as real) * hi
  {
    if xs != [] {
      SumWithin(xs[..|xs| - 1], lo, hi);
    }
  }

  /** The mean of a non-empty list lies between any lower and upper bound of its values; in
      particular the mean of a list of equal values is that value. */
  lemma MeanWithin(xs: seq<real>, lo: real, hi: real)
    requires xs != []
    requires forall i :: 0 <= i < |xs| ==> lo <= xs[i] <= hi
    ensures lo <= Mean(xs) <= hi
  {
    SumWithin(xs, lo, hi);
    var n := |xs| as real;
    assert Mean(xs) * n == Sum(xs);
    if Mean(xs) < lo {
      ScaleLess(Mean(xs), lo, n);
    }
    if Mean(xs) > hi {
      ScaleLess(hi, Mean(xs), n);
    }
  }

  lemma ScaleLess(a: real, b: real, n: real)
    requires a < b && n > 0.0
    ensures a * n < b * n
  {
    assert b * n - a * n == (b - a) * n;
  }

  /** The averages the metrics panel shows for one algorithm; the iteration average is shown
      for IDS only. */
  datatype Averages = Averages(
    avgTime: real,
    avgNodes: real,
    avgFrontier: real,
    avgPathLength: real,
    avgIterations: Option<real>)

  function Summary(mode: Algorithm, l: Lists): (r: Averages)
    ensures r.avgTime * (|l.executionTimes| as real) == Sum(l.executionTimes)
    ensures AverageOf(r.avgNodes, l.nodesVisited)
    ensures AverageOf(r.avgFrontier, l.maxFrontier)
    ensures AverageOf(r.avgPathLength, l.pathLengths)
    ensures r.avgIterations.Some? <==> mode == IDS
    ensures r.avgIterations.Some? ==> AverageOf(r.avgIterations.value, l.iterations)
    ensures l == EMPTY ==> r == Averages(0.0, 0.0, 0.0, 0.0, if mode == IDS then Some(0.0) else None)
  {
    IntMean(l.nodesVisited);
    IntMean(l.maxFrontier);
    IntMean(l.pathLengths);
    IntMean(l.iterations);
    Averages(
      Mean(l.executionTimes),
      Mean(AsReals(l.nodesVisited)),
      Mean(AsReals(l.maxFrontier)),
      Mean(AsReals(l.pathLengths)),
      if mode == IDS then Some(Mean(AsReals(l.iterations))) else None)
  }

  /** Path lengths 2, 4 and 6 average to 4; no runs average to 0. */
  lemma MeanExamples()
    ensures Mean(AsReals([2, 4, 6])) == 4.0
    ensures Mean(AsReals([])) == 0.0
  {
    var xs := AsReals([2, 4, 6]);
    assert xs == [2.0, 4.0, 6.0];
    assert xs[..2] == [2.0, 4.0];
    assert xs[..2][..1] == [2.0];
    assert Sum([2.0]) == 2.0 by { assert [2.0][..0] == []; }
    assert Sum(xs) == 12.0;
  }
}
