/** Cells of the 20 x 20 map, the four moves, the `is_valid` predicate and what a path is. */
module Grid {

  datatype Option<T> = None | Some(value: T)

  /** A coordinate (row, column); the application uses the tuple (int, int). */
  type Cell = (int, int)

  const ROWS: int := 20
  const COLS: int := 20

  /** The fixed expansion order of every search: up, down, left, right. */
  const DIRECTIONS: seq<Cell> := [(-1, 0), (1, 0), (0, -1), (0, 1)]

  function Max(a: int, b: int): int { if a < b then b else a }

  function Abs(n: int): nat { if n < 0 then -n else n }

  /** The cell one move from `c` in direction number `d`. */
  function Neighbor(c: Cell, d: nat): Cell
    requires d < |DIRECTIONS|
  {
    (c.0 + DIRECTIONS[d].0, c.1 + DIRECTIONS[d].1)
  }

  predicate InBounds(c: Cell) {
    0 <= c.0 < ROWS && 0 <= c.1 < COLS
  }

  /** The grid has the application's fixed shape, so `is_valid` can index it. */
  predicate Shaped(grid: array2<int>) {
    grid.Length0 == ROWS && grid.Length1 == COLS
  }

  /** `is_valid`: inside the grid and open (0 is open, 1 is a wall). */
  predicate IsValid(grid: array2<int>, x: int, y: int): (valid: bool)
    requires Shaped(grid)
    reads grid
    ensures valid ==> InBounds((x, y))
  {
    0 <= x < ROWS && 0 <= y < COLS && grid[x, y] == 0
  }

  /** Two cells differ by exactly one of the four moves. */
  predicate Adjacent(a: Cell, b: Cell) {
    Abs(a.0 - b.0) + Abs(a.1 - b.1) == 1
  }

  function Manhattan(a: Cell, b: Cell): nat {
    Abs(a.0 - b.0) + Abs(a.1 - b.1)
  }

  /** A path as the searches return it: from `start` to `goal`, one move per step,
      every cell after the first valid (the start cell itself is never tested). */
  ghost predicate ValidPath(grid: array2<int>, p: seq<Cell>, start: Cell, goal: Cell)
    requires Shaped(grid)
    reads grid
  {
    && |p| > 0 && p[0] == start && p[|p| - 1] == goal
    && (forall i :: 0 <= i < |p| - 1 ==> Adjacent(p[i], p[i + 1]))
    && (forall i :: 0 < i < |p| ==> IsValid(grid, p[i].0, p[i].1))
  }

  predicate NoDuplicates(s: seq<Cell>) {
    forall i, j :: 0 <= i < j < |s| ==> s[i] != s[j]
  }

  function CellSet(s: seq<Cell>): set<Cell> {
    set c | c in s
  }

  /** `List.Reverse`. */
  function Reverse(s: seq<Cell>): (r: seq<Cell>)
    ensures |r| == |s|
    ensures forall i :: 0 <= i < |s| ==> r[i] == s[|s| - 1 - i]
  {
    if s == [] then [] else Reverse(s[1..]) + [s[0]]
  }

  lemma NeighborIsAdjacent(c: Cell, d: nat)
    requires d < |DIRECTIONS|
    ensures Adjacent(c, Neighbor(c, d)) && Manhattan(c, Neighbor(c, d)) == 1
  {
  }

  /** Every adjacent cell is reached by one of the four directions. */
  lemma AdjacentDirection(a: Cell, b: Cell) returns (d: nat)
    requires Adjacent(a, b)
    ensures d < |DIRECTIONS| && Neighbor(a, d) == b
  {
    if b.0 == a.0 - 1 {
      d := 0;
    } else if b.0 == a.0 + 1 {
      d := 1;
    } else if b.1 == a.1 - 1 {
      d := 2;
    } else {
      d := 3;
    }
  }

  /** The valid, not yet visited neighbours of `c` among the first `d` directions, in
      direction order: what one pass of a search's `foreach (var direction in directions)` adds. */
  function Fresh(grid: array2<int>, c: Cell, visited: set<Cell>, d: nat): seq<Cell>
    requires Shaped(grid) && d <= |DIRECTIONS|
    reads grid
  {
    if d == 0 then []
    else
      var n := Neighbor(c, d - 1);
      Fresh(grid, c, visited, d - 1) + (if IsValid(grid, n.0, n.1) && n !in visited then [n] else [])
  }

  /** A neighbour in a direction not yet scanned is not among the cells `Fresh` has yielded. */
  lemma {:induction false} FreshAvoids(grid: array2<int>, c: Cell, visited: set<Cell>, d: nat, e: nat)
    requires Shaped(grid) && d <= e < |DIRECTIONS|
    ensures Neighbor(c, e) !in Fresh(grid, c, visited, d)
  {
    if d > 0 {
      FreshAvoids(grid, c, visited, d - 1, e);
    }
  }

  /** The cells `Fresh` yields are valid, unvisited, adjacent to `c` and pairwise distinct, and
      every valid unvisited neighbour among the first `d` directions is yielded. */
  lemma {:induction false} FreshFacts(grid: array2<int>, c: Cell, visited: set<Cell>, d: nat)
    requires Shaped(grid) && d <= |DIRECTIONS|
    ensures var f := Fresh(grid, c, visited, d);
      && NoDuplicates(f)
      && (forall k :: 0 <= k < |f| ==> f[k] !in visited && IsValid(grid, f[k].0, f[k].1) && Adjacent(c, f[k]))
      && (forall e :: 0 <= e < d && IsValid(grid, Neighbor(c, e).0, Neighbor(c, e).1) && Neighbor(c, e) !in visited
            ==> Neighbor(c, e) in f)
  {
    if d > 0 {
      FreshFacts(grid, c, visited, d - 1);
      FreshAvoids(grid, c, visited, d - 1, d - 1);
      NeighborIsAdjacent(c, d - 1);
    }
  }

  /** What the searches rely on about the cells one neighbour scan adds: pairwise distinct,
      unvisited, valid and adjacent to `c`, and every valid unvisited neighbour among them. */
  ghost predicate FreshSet(grid: array2<int>, c: Cell, visited: set<Cell>, f: seq<Cell>)
    requires Shaped(grid)
    reads grid
  {
    && NoDuplicates(f)
    && (forall k :: 0 <= k < |f| ==> f[k] !in visited && IsValid(grid, f[k].0, f[k].1) && Adjacent(c, f[k]))
    && (forall e :: 0 <= e < |DIRECTIONS| && IsValid(grid, Neighbor(c, e).0, Neighbor(c, e).1) && Neighbor(c, e) !in visited
          ==> Neighbor(c, e) in f)
  }

  lemma FreshIsFreshSet(grid: array2<int>, c: Cell, visited: set<Cell>)
    requires Shaped(grid)
    ensures FreshSet(grid, c, visited, Fresh(grid, c, visited, |DIRECTIONS|))
  {
    FreshFacts(grid, c, visited, |DIRECTIONS|);
  }

  lemma {:induction false} DistinctCount(s: seq<Cell>)
    requires NoDuplicates(s)
    ensures |CellSet(s)| == |s|
  {
    if s != [] {
      var t := s[..|s| - 1];
      DistinctCount(t);
      assert CellSet(s) == CellSet(t) + {s[|s| - 1]};
    }
  }

  /** All cells of the grid. */
  function AllCells(): set<Cell> {
    set x, y | 0 <= x < ROWS && 0 <= y < COLS :: (x, y)
  }

  function RowCells(x: int, n: int): set<Cell> {
    set y | 0 <= y < n :: (x, y)
  }

  function RowsCells(m: int): set<Cell> {
    set x, y | 0 <= x < m && 0 <= y < COLS :: (x, y)
  }

  lemma {:induction false} RowCellsCount(x: int, n: nat)
    ensures |RowCells(x, n)| == n
  {
    if n > 0 {
      RowCellsCount(x, n - 1);
      assert RowCells(x, n) == RowCells(x, n - 1) + {(x, n - 1)};
    }
  }

  lemma {:induction false} RowsCellsCount(m: nat)
    ensures |RowsCells(m)| == m * COLS
  {
    if m > 0 {
      RowsCellsCount(m - 1);
      RowCellsCount(m - 1, COLS);
      assert RowsCells(m) == RowsCells(m - 1) + RowCells(m - 1, COLS);
      assert RowsCells(m - 1) !! RowCells(m - 1, COLS);
    }
  }

  lemma SubsetCount(a: set<Cell>, b: set<Cell>)
    requires a <= b
    ensures |a| <= |b| && |b - a| == |b| - |a|
  {
    assert b == a + (b - a);
  }

  /** A set of in-bounds cells has at most ROWS * COLS members. */
  lemma CellCountBound(s: set<Cell>)
    requires forall c :: c in s ==> InBounds(c)
    ensures |s| <= ROWS * COLS
  {
    RowsCellsCount(ROWS);
    assert AllCells() == RowsCells(ROWS);
    SubsetCount(s, AllCells());
  }

  /** Any path needs at least one cell per unit of Manhattan distance, plus the first. */
  lemma {:induction false} PathAtLeastManhattan(grid: array2<int>, p: seq<Cell>, start: Cell, goal: Cell)
    requires Shaped(grid) && ValidPath(grid, p, start, goal)
    ensures |p| >= Manhattan(start, goal) + 1
  {
    if |p| > 1 {
      var q := p[..|p| - 1];
      assert ValidPath(grid, q, start, q[|q| - 1]);
      PathAtLeastManhattan(grid, q, start, q[|q| - 1]);
    }
  }

  /** Every cell of the grid is open. */
  ghost predicate AllOpen(grid: array2<int>)
    requires Shaped(grid)
    reads grid
  {
    forall x, y :: 0 <= x < ROWS && 0 <= y < COLS ==> grid[x, y] == 0
  }

  /** Rows first, then columns, straight towards `goal`. */
  function Staircase(c: Cell, goal: Cell): seq<Cell>
    decreases Manhattan(c, goal)
  {
    if c.0 < goal.0 then [c] + Staircase((c.0 + 1, c.1), goal)
    else if c.0 > goal.0 then [c] + Staircase((c.0 - 1, c.1), goal)
    else if c.1 < goal.1 then [c] + Staircase((c.0, c.1 + 1), goal)
    else if c.1 > goal.1 then [c] + Staircase((c.0, c.1 - 1), goal)
    else [c]
  }

  lemma {:induction false} StaircaseFacts(grid: array2<int>, c: Cell, goal: Cell)
    requires Shaped(grid) && AllOpen(grid) && InBounds(c) && InBounds(goal)
    ensures ValidPath(grid, Staircase(c, goal), c, goal)
    ensures |Staircase(c, goal)| == Manhattan(c, goal) + 1
    decreases Manhattan(c, goal)
  {
    if c != goal {
      var n := if c.0 < goal.0 then (c.0 + 1, c.1)
               else if c.0 > goal.0 then (c.0 - 1, c.1)
               else if c.1 < goal.1 then (c.0, c.1 + 1)
               else (c.0, c.1 - 1);
      StaircaseFacts(grid, n, goal);
      assert Staircase(c, goal) == [c] + Staircase(n, goal);
      PrependStep(grid, c, Staircase(n, goal), goal);
    }
  }

  /** A step onto the first cell of a valid path gives a valid path one cell longer. */
  lemma PrependStep(grid: array2<int>, c: Cell, p: seq<Cell>, goal: Cell)
    requires Shaped(grid) && |p| > 0 && ValidPath(grid, p, p[0], goal)
    requires Adjacent(c, p[0]) && IsValid(grid, p[0].0, p[0].1)
    ensures ValidPath(grid, [c] + p, c, goal)
  {
    var q := [c] + p;
    forall i | 0 <= i < |q| - 1 ensures Adjacent(q[i], q[i + 1]) {
      if i > 0 { assert q[i] == p[i - 1] && q[i + 1] == p[i]; }
    }
    forall i | 0 < i < |q| ensures IsValid(grid, q[i].0, q[i].1) {
      assert q[i] == p[i - 1];
    }
  }

  /** On a wall-free grid a path of minimum length between two in-bounds cells has exactly
      Manhattan distance + 1 cells (39 from (0, 0) to (19, 19)), and such a path exists. */
  lemma ShortestOnOpenGrid(grid: array2<int>, p: seq<Cell>, start: Cell, goal: Cell)
    requires Shaped(grid) && AllOpen(grid) && InBounds(start) && InBounds(goal)
    requires ValidPath(grid, p, start, goal)
    requires forall q :: ValidPath(grid, q, start, goal) ==> |p| <= |q|
    ensures |p| == Manhattan(start, goal) + 1
  {
    StaircaseFacts(grid, start, goal);
    PathAtLeastManhattan(grid, p, start, goal);
  }
}
