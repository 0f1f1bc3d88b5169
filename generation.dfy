/** Grid generation: the random start-to-goal walk and the wall placement around it.
    `System.Random` is replaced by two oracles: `choose(k)` is the value behind the k-th
    `Next(n)` of the walk (the move taken is `choose(k) % n`), and `wall(k)` is the outcome of
    the k-th wall draw `NextDouble() < wallProbability`. */
module Generation {
  import opened Grid

  /** How a walk ends: it reaches the goal with a path, runs past the step budget `fuel`
      (the application's loop has no bound), or removes from an empty list, which throws. */
  datatype Walk = Reached(path: seq<Cell>) | OutOfFuel | EmptyBacktrack

  /** The moves proposed before the bounds filter: down and right only towards the goal, up
      and left whenever the row or column is above 0. */
  function Candidates(current: Cell, goal: Cell): (moves: seq<Cell>)
    ensures forall i :: 0 <= i < |moves| ==> Adjacent(current, moves[i])
  {
    (if current.0 < goal.0 then [(current.0 + 1, current.1)] else [])
    + (if current.1 < goal.1 then [(current.0, current.1 + 1)] else [])
    + (if current.0 > 0 then [(current.0 - 1, current.1)] else [])
    + (if current.1 > 0 then [(current.0, current.1 - 1)] else [])
  }

  /** The `Where` filter that keeps the moves inside the grid, in their order. */
  function WithinBounds(moves: seq<Cell>): (r: seq<Cell>)
    ensures forall i :: 0 <= i < |r| ==> InBounds(r[i]) && r[i] in moves
    ensures forall m :: m in moves && InBounds(m) ==> m in r
  {
    if moves == [] then []
    else (if InBounds(moves[0]) then [moves[0]] else []) + WithinBounds(moves[1..])
  }

  /** `possibleMoves`: every move is one step from `current` and inside the grid. */
  function Moves(current: Cell, goal: Cell): (moves: seq<Cell>)
    ensures forall i :: 0 <= i < |moves| ==> InBounds(moves[i]) && Adjacent(current, moves[i])
  {
    WithinBounds(Candidates(current, goal))
  }

  /** With both ends inside the grid there is always a move from a cell that is not the goal:
      down or right towards it when it lies beyond, otherwise up or left. */
  lemma MovesExist(current: Cell, goal: Cell)
    requires InBounds(current) && InBounds(goal) && current != goal
    ensures |Moves(current, goal)| > 0
  {
    var c := Candidates(current, goal);
    var m: Cell;
    if current.0 < goal.0 {
      m := (current.0 + 1, current.1);
    } else if current.1 < goal.1 {
      m := (current.0, current.1 + 1);
    } else if current.0 > 0 {
      m := (current.0 - 1, current.1);
    } else {
      m := (current.0, current.1 - 1);
    }
    assert m in c;
    assert InBounds(m);
  }

  /** `GenerateRandomPath`. A cell is appended only if it is not yet on the path; on a
      revisit `current` moves to the revisited cell while the LAST cell is removed, so the
      list need not stay a chain of neighbouring cells. */
  method GenerateRandomPath(start: Cell, goal: Cell, choose: nat -> nat, fuel: nat)
    returns (w: Walk)
    ensures w.Reached? ==> |w.path| > 0 && w.path[|w.path| - 1] == goal
    ensures w.Reached? ==> NoDuplicates(w.path)
    ensures w.Reached? && InBounds(start) ==> forall i :: 0 <= i < |w.path| ==> InBounds(w.path[i])
    ensures InBounds(start) && InBounds(goal) ==> !w.EmptyBacktrack?
    ensures start == goal ==> w == Reached([start])
  {
    var path := [start];
    var current := start;
    var draws := 0;
    var steps := 0;
    while current != goal
      invariant NoDuplicates(path)
      invariant current != goal ==> goal !in path
      invariant current == goal ==> |path| > 0 && path[|path| - 1] == goal
      invariant InBounds(start) ==> InBounds(current)
      invariant InBounds(start) ==> forall i :: 0 <= i < |path| ==> InBounds(path[i])
      invariant start == goal ==> current == start && path == [start]
      invariant steps <= fuel
      decreases fuel - steps
    {
      if steps == fuel {
        return OutOfFuel;
      }
      steps := steps + 1;
      var moves := Moves(current, goal);
      if |moves| > 0 {
        current := moves[choose(draws) % |moves|];
        draws := draws + 1;
        if current !in path {
          path := path + [current];
        } else {
          path := path[..|path| - 1];
        }
      } else {
        if InBounds(start) && InBounds(goal) {
          MovesExist(current, goal);
          assert false;
        }
        if |path| == 0 {
          return EmptyBacktrack;
        }
        path := path[..|path| - 1];
        if |path| == 0 {
          current := start;
          path := [current];
        } else {
          current := path[|path| - 1];
        }
      }
    }
    return Reached(path);
  }

  /** Whether the wall loop draws for cell (x, y): every cell except start, goal and the walk. */
  predicate Draws(start: Cell, goal: Cell, path: seq<Cell>, x: int, y: int) {
    (x, y) != start && (x, y) != goal && (x, y) !in path
  }

  /** How many wall draws the row-major loop makes before it reaches (x, y). */
  function DrawsBefore(start: Cell, goal: Cell, path: seq<Cell>, x: nat, y: nat): nat
    requires y <= COLS
    decreases x, y
  {
    if y == 0 then
      (if x == 0 then 0 else DrawsBefore(start, goal, path, x - 1, COLS))
    else
      DrawsBefore(start, goal, path, x, y - 1) + (if Draws(start, goal, path, x, y - 1) then 1 else 0)
  }

  /** The value the generator leaves in cell (x, y): open on start, goal and the walk,
      otherwise a wall exactly when that cell's draw says so. */
  function Planned(start: Cell, goal: Cell, path: seq<Cell>, wall: nat -> bool, x: nat, y: nat): int
    requires y < COLS
  {
    if !Draws(start, goal, path, x, y) then 0
    else if wall(DrawsBefore(start, goal, path, x, y)) then 1 else 0
  }

  /** Every planned cell is open or a wall, and start, goal and every walk cell are open. */
  lemma PlannedFacts(start: Cell, goal: Cell, path: seq<Cell>, wall: nat -> bool, x: nat, y: nat)
    requires y < COLS
    ensures Planned(start, goal, path, wall, x, y) in {0, 1}
    ensures (x, y) == start || (x, y) == goal || (x, y) in path ==> Planned(start, goal, path, wall, x, y) == 0
  {
  }

  /** Draw numbers grow along the row-major order, so no draw is used for two cells. */
  lemma {:induction false} DrawsMonotone(start: Cell, goal: Cell, path: seq<Cell>, x: nat, y: nat, x': nat, y': nat)
    requires y <= COLS && y' <= COLS
    requires x < x' || (x == x' && y <= y')
    ensures DrawsBefore(start, goal, path, x, y) <= DrawsBefore(start, goal, path, x', y')
    decreases x', y'
  {
    if x == x' && y == y' {
    } else if y' == 0 {
      DrawsMonotone(start, goal, path, x, y, x' - 1, COLS);
    } else {
      DrawsMonotone(start, goal, path, x, y, x', y' - 1);
    }
  }

  /** Two different drawing cells never share a draw: each wall draw decides one cell. */
  lemma DrawsDistinct(start: Cell, goal: Cell, path: seq<Cell>, x: nat, y: nat, x': nat, y': nat)
    requires y < COLS && y' < COLS
    requires Draws(start, goal, path, x, y)
    requires x < x' || (x == x' && y < y')
    ensures DrawsBefore(start, goal, path, x, y) < DrawsBefore(start, goal, path, x', y')
  {
    DrawsMonotone(start, goal, path, x, y + 1, x', y');
  }

  /** The grid-building part of `GenerateGrid`: clear the grid, carve the walk, then draw a wall or an
      opening for every other cell in row-major order. When the walk does not reach the goal
      within `fuel` steps the application would still be walking; the grid is then all open. */
  method GenerateGrid(grid: array2<int>, start: Cell, goal: Cell, choose: nat -> nat, wall: nat -> bool, fuel: nat)
    returns (walk: Walk)
    requires Shaped(grid) && InBounds(start) && InBounds(goal)
    modifies grid
    ensures !walk.EmptyBacktrack?
    ensures walk.Reached? ==> forall x, y :: 0 <= x < ROWS && 0 <= y < COLS ==>
      grid[x, y] == Planned(start, goal, walk.path, wall, x, y)
    ensures !walk.Reached? ==> forall x, y :: 0 <= x < ROWS && 0 <= y < COLS ==> grid[x, y] == 0
    ensures forall x, y :: 0 <= x < ROWS && 0 <= y < COLS ==> grid[x, y] in {0, 1}
    ensures grid[start.0, start.1] == 0 && grid[goal.0, goal.1] == 0
    ensures walk.Reached? ==> forall i :: 0 <= i < |walk.path| ==>
      InBounds(walk.path[i]) && grid[walk.path[i].0, walk.path[i].1] == 0
  {
    for x := 0 to ROWS
      invariant forall i, j :: 0 <= i < x && 0 <= j < COLS ==> grid[i, j] == 0
    {
      for y := 0 to COLS
        invariant forall i, j :: 0 <= i < x && 0 <= j < COLS ==> grid[i, j] == 0
        invariant forall j :: 0 <= j < y ==> grid[x, j] == 0
      {
        grid[x, y] := 0;
      }
    }
    walk := GenerateRandomPath(start, goal, choose, fuel);
    if !walk.Reached? {
      return;
    }
    var path := walk.path;
    for i := 0 to |path|
      invariant forall i, j :: 0 <= i < ROWS && 0 <= j < COLS ==> grid[i, j] == 0
    {
      grid[path[i].0, path[i].1] := 0;
    }
    PlaceWalls(grid, start, goal, path, wall);
    forall i | 0 <= i < |path|
      ensures grid[path[i].0, path[i].1] == 0
    {
      PlannedFacts(start, goal, path, wall, path[i].0, path[i].1);
    }
    forall x, y | 0 <= x < ROWS && 0 <= y < COLS
      ensures grid[x, y] in {0, 1}
    {
      PlannedFacts(start, goal, path, wall, x, y);
    }
  }

  /** The wall-drawing part of `GenerateGrid`: the row-major wall loop over an all-open grid. */
  method PlaceWalls(grid: array2<int>, start: Cell, goal: Cell, path: seq<Cell>, wall: nat -> bool)
    requires Shaped(grid)
    requires forall x, y :: 0 <= x < ROWS && 0 <= y < COLS ==> grid[x, y] == 0
    modifies grid
    ensures forall x, y :: 0 <= x < ROWS && 0 <= y < COLS ==> grid[x, y] == Planned(start, goal, path, wall, x, y)
  {
    var k := 0;
    for x := 0 to ROWS
      invariant k == DrawsBefore(start, goal, path, x, 0)
      invariant forall i, j :: 0 <= i < x && 0 <= j < COLS ==> grid[i, j] == Planned(start, goal, path, wall, i, j)
      invariant forall i, j :: x <= i < ROWS && 0 <= j < COLS ==> grid[i, j] == 0
    {
      for y := 0 to COLS
        invariant k == DrawsBefore(start, goal, path, x, y)
        invariant forall i, j :: 0 <= i < x && 0 <= j < COLS ==> grid[i, j] == Planned(start, goal, path, wall, i, j)
        invariant forall j :: 0 <= j < y ==> grid[x, j] == Planned(start, goal, path, wall, x, j)
        invariant forall j :: y <= j < COLS ==> grid[x, j] == 0
        invariant forall i, j :: x < i < ROWS && 0 <= j < COLS ==> grid[i, j] == 0
      {
        if (x, y) == start || (x, y) == goal {
          grid[x, y] := 0;
        } else if (x, y) !in path {
          grid[x, y] := if wall(k) then 1 else 0;
          k := k + 1;
        }
      }
    }
  }
}
