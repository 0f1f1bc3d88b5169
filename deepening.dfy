/** Iterative-deepening search. The `Node` objects with parent references become an arena:
    a sequence of nodes, each holding its cell and the index of its parent (none for the root).
    A node is only ever appended, and its parent always sits at a smaller index. */
module Deepening {
  import opened Grid

  /** `Node { Position, Parent }`, with the parent given by its arena index. */
  datatype Node = Node(position: Cell, parent: Option<nat>)

  /** Every parent index points strictly backwards, so parent chains end at a root. */
  predicate Linked(arena: seq<Node>) {
    forall i :: 0 <= i < |arena| && arena[i].parent.Some? ==> arena[i].parent.value < i
  }

  /** The parent-chain length of node `i`, the root counted as 1 (the `pathLength` of IDS). */
  function Depth(arena: seq<Node>, i: nat): (n: nat)
    requires Linked(arena) && i < |arena|
    ensures n >= 1
    decreases i
  {
    match arena[i].parent
    case None => 1
    case Some(p) => 1 + Depth(arena, p)
  }

  /** The cells from the root of node `i`'s chain down to node `i`. */
  function Chain(arena: seq<Node>, i: nat): seq<Cell>
    requires Linked(arena) && i < |arena|
    decreases i
  {
    match arena[i].parent
    case None => [arena[i].position]
    case Some(p) => Chain(arena, p) + [arena[i].position]
  }

  lemma {:induction false} ChainDepth(arena: seq<Node>, i: nat)
    requires Linked(arena) && i < |arena|
    ensures |Chain(arena, i)| == Depth(arena, i)
    ensures Chain(arena, i)[|Chain(arena, i)| - 1] == arena[i].position
    decreases i
  {
    if arena[i].parent.Some? {
      ChainDepth(arena, arena[i].parent.value);
    }
  }

  /** Appending nodes changes neither the depth nor the chain of an existing node. */
  lemma {:induction false} ChainStable(arena: seq<Node>, more: seq<Node>, i: nat)
    requires Linked(arena) && Linked(arena + more) && i < |arena|
    ensures Depth(arena + more, i) == Depth(arena, i) && Chain(arena + more, i) == Chain(arena, i)
    decreases i
  {
    assert (arena + more)[i] == arena[i];
    if arena[i].parent.Some? {
      ChainStable(arena, more, arena[i].parent.value);
    }
  }

  /** The arena of one depth-limited iteration: node 0 is the root at `start`, every other
      node has a parent whose cell is adjacent to its own valid cell. */
  ghost predicate Tree(grid: array2<int>, start: Cell, arena: seq<Node>)
    requires Shaped(grid)
    reads grid
  {
    && Linked(arena) && |arena| > 0 && arena[0] == Node(start, None)
    && (forall i :: 0 < i < |arena| ==> arena[i].parent.Some?)
    && (forall i :: 0 < i < |arena| ==>
          var p := arena[i].parent.value;
          p < |arena| && Adjacent(arena[p].position, arena[i].position)
          && IsValid(grid, arena[i].position.0, arena[i].position.1))
  }

  /** In such an arena every node's chain is a valid path from `start` to its cell. */
  lemma {:induction false} ChainIsPath(grid: array2<int>, start: Cell, arena: seq<Node>, i: nat)
    requires Shaped(grid) && Tree(grid, start, arena) && i < |arena|
    ensures ValidPath(grid, Chain(arena, i), start, arena[i].position)
    decreases i
  {
    if i > 0 {
      var p := arena[i].parent.value;
      ChainIsPath(grid, start, arena, p);
      ChainDepth(arena, p);
      var c := Chain(arena, p);
      assert Chain(arena, i) == c + [arena[i].position];
    }
  }

  /** The working state of one depth-limited iteration: the node arena, the stack of node
      indices (top at the end), the visited cells and the two counters. */
  datatype DlsState = DlsState(arena: seq<Node>, stack: seq<nat>, visited: set<Cell>,
                               nodesVisited: nat, maxFrontier: nat)

  /** The state's stack only names nodes of its arena, and the arena is linked. */
  predicate Wf(s: DlsState) {
    Linked(s.arena) && forall k :: 0 <= k < |s.stack| ==> s.stack[k] < |s.arena|
  }

  /** What one iteration ends with: the index of the goal node if it was popped, the arena
      built, the number of nodes popped and the largest stack size observed. */
  datatype DlsOutcome = DlsOutcome(found: Option<nat>, arena: seq<Node>, nodesVisited: nat, maxFrontier: nat)

  /** One pass of the neighbour loop for direction `d` from node `top`: a valid, unvisited
      neighbour becomes a new node whose parent is `top`; it is pushed and marked visited. */
  function Push(grid: array2<int>, s: DlsState, top: nat, d: nat): (r: DlsState)
    requires Shaped(grid) && top < |s.arena| && d < |DIRECTIONS|
    reads grid
  {
    var n := Neighbor(s.arena[top].position, d);
    if IsValid(grid, n.0, n.1) && n !in s.visited then
      s.(arena := s.arena + [Node(n, Some(top))], stack := s.stack + [|s.arena|], visited := s.visited + {n})
    else s
  }

  /** The neighbour loop over the first `d` directions, in the fixed order. */
  function Scan(grid: array2<int>, s: DlsState, top: nat, d: nat): (r: DlsState)
    requires Shaped(grid) && top < |s.arena| && d <= |DIRECTIONS|
    reads grid
    ensures |s.arena| <= |r.arena| && r.arena[..|s.arena|] == s.arena
    decreases d
  {
    if d == 0 then s else Push(grid, Scan(grid, s, top, d - 1), top, d - 1)
  }

  /** The cells of a run of nodes. */
  function Positions(nodes: seq<Node>): set<Cell>
    decreases |nodes|
  {
    if nodes == [] then {} else Positions(nodes[..|nodes| - 1]) + {nodes[|nodes| - 1].position}
  }

  lemma {:induction false} PositionsAppend(a: seq<Node>, b: seq<Node>)
    ensures Positions(a + b) == Positions(a) + Positions(b)
    decreases |b|
  {
    if b != [] {
      var b' := b[..|b| - 1];
      PositionsAppend(a, b');
      assert (a + b)[..|a + b| - 1] == a + b';
      assert (a + b)[|a + b| - 1] == b[|b| - 1];
      assert Positions(b) == Positions(b') + {b[|b| - 1].position};
    } else {
      assert a + b == a;
    }
  }

  /** Cells of nodes that all lie in `cells` lie in `cells`. */
  lemma {:induction false} PositionsWithin(nodes: seq<Node>, cells: set<Cell>)
    requires forall i :: 0 <= i < |nodes| ==> nodes[i].position in cells
    ensures Positions(nodes) <= cells
    decreases |nodes|
  {
    if nodes != [] {
      PositionsWithin(nodes[..|nodes| - 1], cells);
    }
  }

  /** The shape of the neighbour loop's result: the `k` new nodes' indices are pushed on top of
      the old stack, and the counters do not change. */
  ghost predicate ScanShaped(s: DlsState, r: DlsState) {
    && |s.arena| <= |r.arena|
    && |r.stack| == |s.stack| + (|r.arena| - |s.arena|) && r.stack[..|s.stack|] == s.stack
    && (forall j :: |s.stack| <= j < |r.stack| ==> r.stack[j] == |s.arena| + (j - |s.stack|))
    && r.nodesVisited == s.nodesVisited && r.maxFrontier == s.maxFrontier
  }

  lemma {:induction false} ScanShape(grid: array2<int>, s: DlsState, top: nat, d: nat)
    requires Shaped(grid) && top < |s.arena| && d <= |DIRECTIONS|
    ensures ScanShaped(s, Scan(grid, s, top, d))
    decreases d
  {
    if d > 0 {
      ScanShape(grid, s, top, d - 1);
    }
  }

  /** The new nodes are children of `top`, at valid cells adjacent to it that were not visited. */
  ghost predicate ScanChildren(grid: array2<int>, s: DlsState, top: nat, r: DlsState)
    requires Shaped(grid) && top < |s.arena| && |s.arena| <= |r.arena|
    reads grid
  {
    forall i :: |s.arena| <= i < |r.arena| ==>
      && r.arena[i].parent == Some(top) && r.arena[i].position !in s.visited
      && Adjacent(s.arena[top].position, r.arena[i].position)
      && IsValid(grid, r.arena[i].position.0, r.arena[i].position.1)
  }

  lemma {:induction false} ScanNodes(grid: array2<int>, s: DlsState, top: nat, d: nat)
    requires Shaped(grid) && top < |s.arena| && d <= |DIRECTIONS|
    ensures ScanChildren(grid, s, top, Scan(grid, s, top, d))
    ensures Scan(grid, s, top, d).visited >= s.visited
    decreases d
  {
    if d > 0 {
      ScanNodes(grid, s, top, d - 1);
      var m := Scan(grid, s, top, d - 1);
      var r := Scan(grid, s, top, d);
      var n := Neighbor(m.arena[top].position, d - 1);
      assert m.arena[top] == s.arena[top];
      NeighborIsAdjacent(s.arena[top].position, d - 1);
      forall i | |s.arena| <= i < |m.arena| ensures r.arena[i] == m.arena[i] {}
    }
  }

  /** Exactly the new nodes' cells are marked visited: cells of the grid, not visited before,
      one new cell per new node. */
  ghost predicate ScanMarks(s: DlsState, r: DlsState)
    requires |s.arena| <= |r.arena|
  {
    var added := Positions(r.arena[|s.arena|..]);
    && r.visited == s.visited + added
    && added <= AllCells() && added !! s.visited && |added| == |r.arena| - |s.arena|
  }

  lemma {:induction false} ScanCells(grid: array2<int>, s: DlsState, top: nat, d: nat)
    requires Shaped(grid) && top < |s.arena| && d <= |DIRECTIONS|
    ensures ScanMarks(s, Scan(grid, s, top, d))
    decreases d
  {
    if d > 0 {
      ScanCells(grid, s, top, d - 1);
      var m := Scan(grid, s, top, d - 1);
      var r := Scan(grid, s, top, d);
      var n := Neighbor(m.arena[top].position, d - 1);
      if IsValid(grid, n.0, n.1) && n !in m.visited {
        var old_ := m.arena[|s.arena|..];
        assert r.arena[|s.arena|..] == old_ + [Node(n, Some(top))];
        assert (old_ + [Node(n, Some(top))])[..|old_|] == old_;
        assert n in AllCells();
      }
    }
  }

  /** Popping the top of the stack: one more node visited, the frontier size recorded first. */
  function Pop(s: DlsState): (r: DlsState)
    requires |s.stack| > 0
  {
    s.(stack := s.stack[..|s.stack| - 1], nodesVisited := s.nodesVisited + 1,
       maxFrontier := Max(s.maxFrontier, |s.stack|))
  }

  /** After popping `top` and scanning its neighbours the state is still well formed, and
      either fewer cells of the grid are unvisited or no cell was pushed and the stack shrank. */
  lemma ScanProgress(grid: array2<int>, s: DlsState, top: nat)
    requires Shaped(grid) && Wf(s) && |s.stack| > 0 && top == s.stack[|s.stack| - 1]
    ensures var r := Scan(grid, Pop(s), top, |DIRECTIONS|);
      && Wf(r)
      && |AllCells() - r.visited| + |r.arena| == |AllCells() - s.visited| + |s.arena|
      && |r.stack| + 1 == |s.stack| + |r.arena| - |s.arena|
  {
    var p := Pop(s);
    var r := Scan(grid, p, top, |DIRECTIONS|);
    ScanShape(grid, p, top, |DIRECTIONS|);
    ScanNodes(grid, p, top, |DIRECTIONS|);
    ScanCells(grid, p, top, |DIRECTIONS|);
    Progress(p, r);
    assert Linked(r.arena) by {
      forall i | 0 <= i < |r.arena| && r.arena[i].parent.Some? ensures r.arena[i].parent.value < i {
        if i < |s.arena| { assert r.arena[i] == s.arena[i]; }
      }
    }
    forall k | 0 <= k < |r.stack| ensures r.stack[k] < |r.arena| {
      if k < |p.stack| { assert r.stack[k] == s.stack[k]; }
    }
  }

  /** The count behind `ScanProgress`: every new cell was an unvisited cell of the grid. */
  lemma Progress(s: DlsState, r: DlsState)
    requires |s.arena| <= |r.arena| && ScanMarks(s, r)
    ensures |AllCells() - r.visited| + |r.arena| == |AllCells() - s.visited| + |s.arena|
  {
    var added := Positions(r.arena[|s.arena|..]);
    assert AllCells() - s.visited == (AllCells() - r.visited) + added;
    assert (AllCells() - r.visited) !! added;
  }

  /** The rest of one depth-limited iteration from state `s` (the `while (stack.Count > 0)` loop
      of IDS): pop the top node, count it, stop if its cell is the goal, and otherwise expand it
      when its parent-chain length is below `limit`. */
  function Run(grid: array2<int>, goal: Cell, limit: nat, s: DlsState): (r: DlsOutcome)
    requires Shaped(grid) && Wf(s)
    reads grid
    ensures |s.arena| <= |r.arena| && r.arena[..|s.arena|] == s.arena && Linked(r.arena)
    ensures r.found.Some? ==> r.found.value < |r.arena| && r.arena[r.found.value].position == goal
    decreases |AllCells() - s.visited|, |s.stack|
  {
    if |s.stack| == 0 then DlsOutcome(None, s.arena, s.nodesVisited, s.maxFrontier)
    else
      var top := s.stack[|s.stack| - 1];
      var p := Pop(s);
      if s.arena[top].position == goal then DlsOutcome(Some(top), s.arena, p.nodesVisited, p.maxFrontier)
      else if Depth(s.arena, top) < limit then
        ScanProgress(grid, s, top);
        Run(grid, goal, limit, Scan(grid, p, top, |DIRECTIONS|))
      else
        Run(grid, goal, limit, p)
  }

  /** The state an iteration starts from: the root node alone on the stack, `start` visited. */
  function Init(start: Cell): DlsState {
    DlsState([Node(start, None)], [0], {start}, 0, 0)
  }

  /** One whole depth-limited iteration with limit `limit`. */
  function Dls(grid: array2<int>, start: Cell, goal: Cell, limit: nat): (r: DlsOutcome)
    requires Shaped(grid)
    reads grid
  {
    Run(grid, goal, limit, Init(start))
  }

  /** What IDS returns: the path (none when no iteration found the goal), the nodes visited
      and the largest frontier over all iterations run, and the number of iterations. */
  datatype IdsResult = IdsResult(path: Option<seq<Cell>>, nodesVisited: nat, maxFrontier: nat, iterations: nat)

  /** The outer loop of IDS from depth limit `limit` on, with the totals so far. */
  function Sweep(grid: array2<int>, start: Cell, goal: Cell, limit: nat, iterations: nat, total: nat, overall: nat)
    : (r: IdsResult)
    requires Shaped(grid)
    reads grid
    decreases ROWS * COLS + 1 - limit
  {
    if limit > ROWS * COLS then IdsResult(None, total, overall, iterations)
    else
      var o := Dls(grid, start, goal, limit);
      if o.found.Some? then
        IdsResult(Some(Chain(o.arena, o.found.value)), total + o.nodesVisited, Max(overall, o.maxFrontier), iterations + 1)
      else
        Sweep(grid, start, goal, limit + 1, iterations + 1, total + o.nodesVisited, Max(overall, o.maxFrontier))
  }

  /** What IDS computes: depth limits 0 to ROWS * COLS, from zero totals. */
  function Ids(grid: array2<int>, start: Cell, goal: Cell): IdsResult
    requires Shaped(grid)
    reads grid
  {
    Sweep(grid, start, goal, 0, 0, 0, 0)
  }

  /** Nodes visited by the first `n` iterations together. */
  function NodesUpTo(grid: array2<int>, start: Cell, goal: Cell, n: nat): nat
    requires Shaped(grid)
    reads grid
  {
    if n == 0 then 0 else NodesUpTo(grid, start, goal, n - 1) + Dls(grid, start, goal, n - 1).nodesVisited
  }

  /** The largest frontier over the first `n` iterations (0 for none). */
  function FrontierUpTo(grid: array2<int>, start: Cell, goal: Cell, n: nat): nat
    requires Shaped(grid)
    reads grid
  {
    if n == 0 then 0 else Max(FrontierUpTo(grid, start, goal, n - 1), Dls(grid, start, goal, n - 1).maxFrontier)
  }

  /** The outer loop's totals, from any depth limit on: the iteration count is one more than the
      last limit tried, and the totals are the sum and the maximum over every iteration run. */
  lemma {:induction false} SweepTotals(grid: array2<int>, start: Cell, goal: Cell, limit: nat)
    requires Shaped(grid) && limit <= ROWS * COLS + 1
    ensures var r := Sweep(grid, start, goal, limit, limit, NodesUpTo(grid, start, goal, limit),
                           FrontierUpTo(grid, start, goal, limit));
      && limit <= r.iterations <= ROWS * COLS + 1
      && r.nodesVisited == NodesUpTo(grid, start, goal, r.iterations)
      && r.maxFrontier == FrontierUpTo(grid, start, goal, r.iterations)
    decreases ROWS * COLS + 1 - limit
  {
    if limit <= ROWS * COLS && Dls(grid, start, goal, limit).found.None? {
      SweepTotals(grid, start, goal, limit + 1);
    }
  }

  /** The outer loop's outcome, from any depth limit on: it stops at the first limit whose
      iteration pops the goal, returning that node's chain, or fails after limit ROWS * COLS. */
  lemma {:induction false} SweepOutcome(grid: array2<int>, start: Cell, goal: Cell, limit: nat, total: nat, overall: nat)
    requires Shaped(grid) && limit <= ROWS * COLS + 1
    ensures var r := Sweep(grid, start, goal, limit, limit, total, overall);
      && limit <= r.iterations <= ROWS * COLS + 1
      && (forall k :: limit <= k < r.iterations - 1 ==> Dls(grid, start, goal, k).found.None?)
      && (r.path.Some? ==> r.iterations >= 1 && var o := Dls(grid, start, goal, r.iterations - 1);
            o.found.Some? && r.path.value == Chain(o.arena, o.found.value))
      && (r.path.None? ==> r.iterations == ROWS * COLS + 1)
      && (r.path.None? && limit <= ROWS * COLS ==> Dls(grid, start, goal, ROWS * COLS).found.None?)
    decreases ROWS * COLS + 1 - limit
  {
    if limit <= ROWS * COLS {
      var o := Dls(grid, start, goal, limit);
      if o.found.None? {
        SweepOutcome(grid, start, goal, limit + 1, total + o.nodesVisited, Max(overall, o.maxFrontier));
      }
    }
  }

  /** IDS's accounting: the reported node count and frontier are the sum and the maximum over
      the iterations run, every iteration before the last failed, success is decided by the last
      one, and a search that never pops the goal runs all ROWS * COLS + 1 iterations. */
  lemma IdsAccounting(grid: array2<int>, start: Cell, goal: Cell)
    requires Shaped(grid)
    ensures var r := Ids(grid, start, goal);
      && 1 <= r.iterations <= ROWS * COLS + 1
      && r.nodesVisited == NodesUpTo(grid, start, goal, r.iterations)
      && r.maxFrontier == FrontierUpTo(grid, start, goal, r.iterations)
      && (forall k :: 0 <= k < r.iterations - 1 ==> Dls(grid, start, goal, k).found.None?)
      && (r.path.Some? <==> Dls(grid, start, goal, r.iterations - 1).found.Some?)
      && (r.path.None? <==> r.iterations == ROWS * COLS + 1 && Dls(grid, start, goal, ROWS * COLS).found.None?)
  {
    SweepTotals(grid, start, goal, 0);
    SweepOutcome(grid, start, goal, 0, 0, 0);
  }

  /** What holds of every state of an iteration with limit `limit` from `start`: the arena is a
      search tree of depth at most max(1, limit); the visited cells are exactly the arena's cells,
      one node each; popped plus stacked nodes are all the nodes; and once a node has been popped
      the frontier maximum is at least 1. */
  ghost predicate DlsInv(grid: array2<int>, start: Cell, limit: nat, s: DlsState)
    requires Shaped(grid)
    reads grid
  {
    && Wf(s) && Tree(grid, start, s.arena)
    && (forall i :: 0 <= i < |s.arena| ==> Depth(s.arena, i) <= Max(1, limit))
    && s.visited == Positions(s.arena) && |s.visited| == |s.arena|
    && s.nodesVisited + |s.stack| == |s.arena|
    && (s.nodesVisited > 0 ==> s.maxFrontier >= 1)
  }

  lemma InitInv(grid: array2<int>, start: Cell, limit: nat)
    requires Shaped(grid)
    ensures DlsInv(grid, start, limit, Init(start))
  {
    var s := Init(start);
    assert Positions(s.arena) == {start} by {
      assert s.arena[0].position == start;
    }
  }

  /** Expanding the popped node `top`, whose depth is below `limit`, keeps the invariant; the
      new state has counted one more node and recorded the stack size before the pop. */
  lemma ExpandInv(grid: array2<int>, start: Cell, limit: nat, s: DlsState, top: nat)
    requires Shaped(grid) && DlsInv(grid, start, limit, s)
    requires |s.stack| > 0 && top == s.stack[|s.stack| - 1] && Depth(s.arena, top) < limit
    ensures var r := Scan(grid, Pop(s), top, |DIRECTIONS|);
      && DlsInv(grid, start, limit, r)
      && r.nodesVisited == s.nodesVisited + 1 && r.maxFrontier == Max(s.maxFrontier, |s.stack|)
  {
    var p := Pop(s);
    var r := Scan(grid, p, top, |DIRECTIONS|);
    ScanProgress(grid, s, top);
    ScanShape(grid, p, top, |DIRECTIONS|);
    ScanNodes(grid, p, top, |DIRECTIONS|);
    ScanCells(grid, p, top, |DIRECTIONS|);
    var more := r.arena[|s.arena|..];
    assert r.arena == s.arena + more;
    ExpandDepth(grid, start, limit, s, top, r, more);
    ExpandTree(grid, start, s, top, r);
    PositionsAppend(s.arena, more);
  }

  /** The new children of `top` sit one level below it, so no node gets deeper than max(1, limit). */
  lemma ExpandDepth(grid: array2<int>, start: Cell, limit: nat, s: DlsState, top: nat, r: DlsState, more: seq<Node>)
    requires Shaped(grid) && Wf(s) && Linked(r.arena) && top < |s.arena| && Depth(s.arena, top) < limit
    requires forall i :: 0 <= i < |s.arena| ==> Depth(s.arena, i) <= Max(1, limit)
    requires r.arena == s.arena + more && ScanChildren(grid, s, top, r)
    ensures forall i :: 0 <= i < |r.arena| ==> Depth(r.arena, i) <= Max(1, limit)
  {
    forall i | 0 <= i < |r.arena| ensures Depth(r.arena, i) <= Max(1, limit) {
      if i < |s.arena| {
        ChainStable(s.arena, more, i);
      } else {
        ChainStable(s.arena, more, top);
      }
    }
  }

  /** The new children of `top` keep the arena a search tree rooted at `start`. */
  lemma ExpandTree(grid: array2<int>, start: Cell, s: DlsState, top: nat, r: DlsState)
    requires Shaped(grid) && Tree(grid, start, s.arena) && top < |s.arena| && Linked(r.arena)
    requires |s.arena| <= |r.arena| && r.arena[..|s.arena|] == s.arena && ScanChildren(grid, s, top, r)
    ensures Tree(grid, start, r.arena)
  {
    forall i | 0 < i < |r.arena|
      ensures r.arena[i].parent.Some?
      ensures var q := r.arena[i].parent.value;
        q < |r.arena| && Adjacent(r.arena[q].position, r.arena[i].position)
        && IsValid(grid, r.arena[i].position.0, r.arena[i].position.1)
    {
      if i < |s.arena| {
        assert r.arena[i] == s.arena[i];
        assert r.arena[s.arena[i].parent.value] == s.arena[s.arena[i].parent.value];
      } else {
        assert r.arena[top] == s.arena[top];
      }
    }
  }

  /** Whatever an iteration ends with, from a state that keeps the invariant: the arena is still a
      search tree with one distinct cell per node; a found node's chain is a valid path from
      `start` to `goal` of at most max(1, limit) cells; no more nodes were popped than the arena
      holds; the frontier maximum only grows, and is at least 1 once a node was popped. */
  lemma {:induction false} RunFacts(grid: array2<int>, start: Cell, goal: Cell, limit: nat, s: DlsState)
    requires Shaped(grid) && DlsInv(grid, start, limit, s)
    ensures var r := Run(grid, goal, limit, s);
      && Tree(grid, start, r.arena) && |r.arena| == |Positions(r.arena)|
      && (r.found.Some? ==> ValidPath(grid, Chain(r.arena, r.found.value), start, goal)
                            && |Chain(r.arena, r.found.value)| <= Max(1, limit))
      && s.nodesVisited <= r.nodesVisited <= |r.arena|
      && (|s.stack| > 0 ==> r.nodesVisited >= 1 && r.maxFrontier >= 1)
      && s.maxFrontier <= r.maxFrontier
    decreases |AllCells() - s.visited|, |s.stack|
  {
    if |s.stack| > 0 {
      var top := s.stack[|s.stack| - 1];
      if s.arena[top].position == goal {
        ChainIsPath(grid, start, s.arena, top);
        ChainDepth(s.arena, top);
      } else if Depth(s.arena, top) < limit {
        ScanProgress(grid, s, top);
        ExpandInv(grid, start, limit, s, top);
        RunFacts(grid, start, goal, limit, Scan(grid, Pop(s), top, |DIRECTIONS|));
      } else {
        RunFacts(grid, start, goal, limit, Pop(s));
      }
    }
  }

  /** One iteration from the initial state: a found path is valid and has at most max(1, limit)
      cells; when `start` is in the grid at most ROWS * COLS nodes are popped; at least one node
      is popped and the frontier maximum is at least 1. */
  lemma DlsFacts(grid: array2<int>, start: Cell, goal: Cell, limit: nat)
    requires Shaped(grid)
    ensures var o := Dls(grid, start, goal, limit);
      && (o.found.Some? ==> ValidPath(grid, Chain(o.arena, o.found.value), start, goal)
                            && |Chain(o.arena, o.found.value)| <= Max(1, limit))
      && 1 <= o.nodesVisited && 1 <= o.maxFrontier
      && (InBounds(start) ==> o.nodesVisited <= ROWS * COLS)
  {
    InitInv(grid, start, limit);
    RunFacts(grid, start, goal, limit, Init(start));
    var o := Dls(grid, start, goal, limit);
    if InBounds(start) {
      forall i | 0 <= i < |o.arena| ensures o.arena[i].position in AllCells() {
        var c := o.arena[i].position;
        assert InBounds(c) && c == (c.0, c.1);
      }
      PositionsWithin(o.arena, AllCells());
      CellCountBound(Positions(o.arena));
    }
  }

  /** When `start` is the goal, every iteration pops the root first and returns it. */
  lemma DlsAtGoal(grid: array2<int>, start: Cell, limit: nat)
    requires Shaped(grid)
    ensures Dls(grid, start, start, limit) == DlsOutcome(Some(0), [Node(start, None)], 1, 1)
  {
  }

  /** A path IDS returns is valid, has at most max(1, iterations - 1) cells (its nodes' depths
      stay within the successful limit, iterations - 1), and is just `[start]` when `start` is the
      goal, found by the first iteration. */
  lemma IdsPath(grid: array2<int>, start: Cell, goal: Cell)
    requires Shaped(grid)
    ensures var r := Ids(grid, start, goal);
      && (r.path.Some? ==> ValidPath(grid, r.path.value, start, goal) && |r.path.value| <= Max(1, r.iterations - 1))
      && (start == goal ==> r == IdsResult(Some([start]), 1, 1, 1))
  {
    var r := Ids(grid, start, goal);
    SweepOutcome(grid, start, goal, 0, 0, 0);
    if r.path.Some? {
      DlsFacts(grid, start, goal, r.iterations - 1);
    }
    if start == goal {
      DlsAtGoal(grid, start, 0);
    }
  }

  /** The loop of IDS that computes `pathLength`: follow parent indices from `node` to the root,
      counting the nodes passed. */
  method ParentChainLength(arena: seq<Node>, node: nat) returns (pathLength: nat)
    requires Linked(arena) && node < |arena|
    ensures pathLength == Depth(arena, node)
  {
    pathLength := 0;
    var temp: Option<nat> := Some(node);
    while temp.Some?
      invariant temp.Some? ==> temp.value < |arena| && pathLength + Depth(arena, temp.value) == Depth(arena, node)
      invariant temp.None? ==> pathLength == Depth(arena, node)
      decreases if temp.Some? then temp.value + 1 else 0
    {
      pathLength := pathLength + 1;
      temp := arena[temp.value].parent;
    }
  }

  lemma ReverseSnoc(s: seq<Cell>, x: Cell)
    ensures Reverse(s + [x]) == [x] + Reverse(s)
  {
    var l, r := Reverse(s + [x]), [x] + Reverse(s);
    assert |l| == |r|;
    forall i | 0 <= i < |l| ensures l[i] == r[i] {
      if i > 0 { assert l[i] == (s + [x])[|s| - i] == s[|s| - i]; }
    }
  }

  /** `ReconstructPath(Node)`: collect the cells from `node` up to the root, then reverse; the
      result is the node's chain from the root. */
  method ReconstructPath(arena: seq<Node>, node: nat) returns (path: seq<Cell>)
    requires Linked(arena) && node < |arena|
    ensures path == Chain(arena, node)
  {
    var walked: seq<Cell> := [];
    var temp: Option<nat> := Some(node);
    while temp.Some?
      invariant temp.Some? ==> temp.value < |arena| && Chain(arena, node) == Chain(arena, temp.value) + Reverse(walked)
      invariant temp.None? ==> Chain(arena, node) == Reverse(walked)
      decreases if temp.Some? then temp.value + 1 else 0
    {
      ReverseSnoc(walked, arena[temp.value].position);
      walked := walked + [arena[temp.value].position];
      temp := arena[temp.value].parent;
    }
    path := Reverse(walked);
  }

  /** `IsInPath`: whether `position` is the cell of `node` or of one of its ancestors. */
  method IsInPath(arena: seq<Node>, node: nat, position: Cell) returns (found: bool)
    requires Linked(arena) && node < |arena|
    ensures found <==> position in Chain(arena, node)
  {
    var temp: Option<nat> := Some(node);
    while temp.Some?
      invariant temp.Some? ==> temp.value < |arena|
      invariant position in Chain(arena, node) <==> temp.Some? && position in Chain(arena, temp.value)
      decreases if temp.Some? then temp.value + 1 else 0
    {
      if arena[temp.value].position == position {
        return true;
      }
      temp := arena[temp.value].parent;
    }
    return false;
  }

  /** One iteration of IDS's outer loop with depth limit `limit`: a fresh arena holding the root,
      a fresh visited set, and the stack loop; a node is expanded only when its parent-chain
      length is below `limit`. It computes exactly `Dls`. */
  method DepthLimitedSearch(grid: array2<int>, start: Cell, goal: Cell, limit: nat)
    returns (found: Option<nat>, arena: seq<Node>, nodesVisited: nat, maxFrontier: nat)
    requires Shaped(grid)
    ensures DlsOutcome(found, arena, nodesVisited, maxFrontier) == Dls(grid, start, goal, limit)
  {
    arena := [Node(start, None)];
    var stack: seq<nat> := [0];
    var visited: set<Cell> := {start};
    nodesVisited, maxFrontier := 0, 0;
    while |stack| > 0
      invariant Wf(DlsState(arena, stack, visited, nodesVisited, maxFrontier))
      invariant Run(grid, goal, limit, DlsState(arena, stack, visited, nodesVisited, maxFrontier))
                == Dls(grid, start, goal, limit)
      decreases |AllCells() - visited|, |stack|
    {
      ghost var s := DlsState(arena, stack, visited, nodesVisited, maxFrontier);
      maxFrontier := Max(maxFrontier, |stack|);
      var current := stack[|stack| - 1];
      stack := stack[..|stack| - 1];
      nodesVisited := nodesVisited + 1;

      if arena[current].position == goal {
        return Some(current), arena, nodesVisited, maxFrontier;
      }

      var pathLength := ParentChainLength(arena, current);
      assert DlsState(arena, stack, visited, nodesVisited, maxFrontier) == Pop(s);
      if pathLength < limit {
        arena, stack, visited := Expand(grid, arena, stack, visited, current, nodesVisited, maxFrontier);
      }
      RunStep(grid, goal, limit, s);
      assert DlsState(arena, stack, visited, nodesVisited, maxFrontier) == Next(grid, limit, s);
    }
    found := None;
  }

  /** The state after popping a node that is not the goal: expanded when its parent-chain
      length is below `limit`, merely popped otherwise. */
  function Next(grid: array2<int>, limit: nat, s: DlsState): DlsState
    requires Shaped(grid) && Wf(s) && |s.stack| > 0
    reads grid
  {
    var top := s.stack[|s.stack| - 1];
    if Depth(s.arena, top) < limit then Scan(grid, Pop(s), top, |DIRECTIONS|) else Pop(s)
  }

  /** Unfolding `Run` once for a popped node that is not the goal: the next state is well formed,
      the rest of the run is the run from it, and the termination measure drops. */
  lemma RunStep(grid: array2<int>, goal: Cell, limit: nat, s: DlsState)
    requires Shaped(grid) && Wf(s) && |s.stack| > 0 && s.arena[s.stack[|s.stack| - 1]].position != goal
    ensures var n := Next(grid, limit, s);
      && Wf(n) && Run(grid, goal, limit, s) == Run(grid, goal, limit, n)
      && (|AllCells() - n.visited| < |AllCells() - s.visited|
          || (|AllCells() - n.visited| == |AllCells() - s.visited| && |n.stack| < |s.stack|))
  {
    ScanProgress(grid, s, s.stack[|s.stack| - 1]);
  }

  /** The neighbour loop of IDS for node `current`: in direction order, every valid unvisited
      neighbour becomes a new child node of `current`, is pushed and is marked visited. */
  method Expand(grid: array2<int>, arena: seq<Node>, stack: seq<nat>, visited: set<Cell>, current: nat,
                ghost nodesVisited: nat, ghost maxFrontier: nat)
    returns (arena': seq<Node>, stack': seq<nat>, visited': set<Cell>)
    requires Shaped(grid) && current < |arena|
    ensures DlsState(arena', stack', visited', nodesVisited, maxFrontier)
            == Scan(grid, DlsState(arena, stack, visited, nodesVisited, maxFrontier), current, |DIRECTIONS|)
  {
    ghost var s := DlsState(arena, stack, visited, nodesVisited, maxFrontier);
    arena', stack', visited' := arena, stack, visited;
    for d := 0 to |DIRECTIONS|
      invariant DlsState(arena', stack', visited', nodesVisited, maxFrontier) == Scan(grid, s, current, d)
    {
      var neighbor := (arena'[current].position.0 + DIRECTIONS[d].0, arena'[current].position.1 + DIRECTIONS[d].1);
      if IsValid(grid, neighbor.0, neighbor.1) && neighbor !in visited' {
        stack' := stack' + [|arena'|];
        arena' := arena' + [Node(neighbor, Some(current))];
        visited' := visited' + {neighbor};
      }
    }
  }

  /** `IDS`: depth limits 0 to ROWS * COLS, one fresh depth-limited search each, node counts
      summed and frontier maxima combined across iterations; on success the goal node's parent
      chain is the path. It computes exactly `Ids`, whose path is valid and at most
      max(1, iterations - 1) cells long. */
  method IDS(grid: array2<int>, start: Cell, goal: Cell) returns (r: IdsResult)
    requires Shaped(grid)
    ensures r == Ids(grid, start, goal)
    ensures r.path.Some? ==> ValidPath(grid, r.path.value, start, goal) && |r.path.value| <= Max(1, r.iterations - 1)
    ensures r.path.None? ==> r.iterations == ROWS * COLS + 1
    ensures 1 <= r.iterations <= ROWS * COLS + 1
    ensures start == goal ==> r.path == Some([start])
  {
    var totalNodesVisited: nat, overallMaxFrontier: nat, iterations: nat := 0, 0, 0;
    for depthLimit := 0 to ROWS * COLS + 1
      invariant iterations == depthLimit
      invariant Sweep(grid, start, goal, depthLimit, iterations, totalNodesVisited, overallMaxFrontier)
                == Ids(grid, start, goal)
    {
      iterations := iterations + 1;
      var found, arena, nodesVisited, maxFrontier := DepthLimitedSearch(grid, start, goal, depthLimit);
      if found.Some? {
        var path := ReconstructPath(arena, found.value);
        r := IdsResult(Some(path), totalNodesVisited + nodesVisited, Max(overallMaxFrontier, maxFrontier), iterations);
        IdsAccounting(grid, start, goal);
        IdsPath(grid, start, goal);
        return;
      }
      totalNodesVisited := totalNodesVisited + nodesVisited;
      overallMaxFrontier := Max(overallMaxFrontier, maxFrontier);
    }
    r := IdsResult(None, totalNodesVisited, overallMaxFrontier, iterations);
    IdsAccounting(grid, start, goal);
    IdsPath(grid, start, goal);
  }
}
