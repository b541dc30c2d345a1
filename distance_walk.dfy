/**
 * The distance-guided random walk (`archief/ant_random_walk_with_return_better.py`).
 * The maze is a float grid with walls of 4, the colony -1 and the food 1;
 * a flood fill from the food and one from the colony give two distance
 * maps.  A foraging ant walks at random, but with chance 0.3 takes the
 * neighbour nearest the food; a returning ant always takes the neighbour
 * nearest the colony.
 *
 * The random numbers are parameters: `draw` is the `np.random.random()`
 * value of one move and `randint` answers `np.random.randint(n)`.
 */
module DistanceWalk {
  import opened Wrappers
  import opened Arrays
  import opened Cells
  import WalkbackRules

  /** Cell values of the maze. */
  const Colony: real := -1.0
  const Food: real := 1.0
  const Wall: real := 4.0

  /** `np.random.random() < food_bias` sends a foraging ant toward the food. */
  const FoodBias: real := 0.3
  /** `move_cost`: 1.4 for a diagonal step, 1 for an orthogonal one. */
  const DiagonalCost: real := 1.4
  const StraightCost: real := 1.0

  /** A cell of a distance map: a float or `np.inf`. */
  datatype Distance = Finite(d: real) | Infinite

  /** `a < b` between two entries of a distance map. */
  predicate Below(a: Distance, b: Distance) {
    a.Finite? && (b.Infinite? || a.d < b.d)
  }

  /** `current_distance + move_cost`: infinity absorbs the cost. */
  function Plus(a: Distance, cost: real): (r: Distance)
    ensures r.Finite? <==> a.Finite?
    ensures r.Finite? ==> r.d == a.d + cost
  {
    match a
    case Finite(d) => Finite(d + cost)
    case Infinite => Infinite
  }

  /** The cost of the step from p to one of the cells around it. */
  function StepCost(p: Cell, c: Cell): real {
    if Diagonal(p, c) then DiagonalCost else StraightCost
  }

  /** The directions of the flood, (dx, dy) for dx in [-1, 0, 1] then dy in [-1, 0, 1], without (0, 0). */
  const Directions: seq<Cell> := [(-1, -1), (-1, 0), (-1, 1), (0, -1), (0, 1), (1, -1), (1, 0), (1, 1)]

  /** The cell in direction k from p. */
  function Toward(p: Cell, k: nat): (c: Cell)
    requires k < |Directions|
    ensures Around(p, c) && (Diagonal(p, c) <==> Directions[k].0 != 0 && Directions[k].1 != 0)
  {
    (p.0 + Directions[k].0, p.1 + Directions[k].1)
  }

  /** Every cell around p lies in one of the eight directions. */
  lemma AroundIsToward(p: Cell, c: Cell)
    requires Around(p, c)
    ensures exists k :: 0 <= k < |Directions| && Toward(p, k) == c
  {
    var k := 3 * (c.0 - p.0 + 1) + (c.1 - p.1 + 1);
    var k' := if k > 4 then k - 1 else k;
    assert Toward(p, k') == c;
  }

  /** The cells of a rows × cols grid. */
  function Box(rows: int, cols: int): (s: set<Cell>)
    ensures forall c :: c in s <==> InBounds(rows, cols, c)
  {
    var s := set i, j | 0 <= i < rows && 0 <= j < cols :: (i, j);
    assert forall c :: InBounds(rows, cols, c) ==> c in s by {
      forall c | InBounds(rows, cols, c)
        ensures c in s
      {
        var (i, j) := c;
        assert (i, j) in s;
      }
    }
    s
  }

  /** The cells of row i of a grid of cols columns. */
  function RowCells(i: int, cols: int): (s: set<Cell>)
    ensures forall c: Cell :: c in s <==> c.0 == i && 0 <= c.1 < cols
  {
    var s := set j | 0 <= j < cols :: (i, j);
    assert forall c: Cell :: c.0 == i && 0 <= c.1 < cols ==> c in s by {
      forall c: Cell | c.0 == i && 0 <= c.1 < cols
        ensures c in s
      {
        var (a, j) := c;
        assert (i, j) in s;
      }
    }
    s
  }

  lemma {:induction false} RowSize(i: int, cols: nat)
    ensures |RowCells(i, cols)| == cols
  {
    if cols == 0 {
      assert RowCells(i, 0) == {};
    } else {
      RowSize(i, cols - 1);
      assert RowCells(i, cols) == RowCells(i, cols - 1) + {(i, cols - 1)};
    }
  }

  lemma {:induction false} BoxSize(rows: nat, cols: nat)
    ensures |Box(rows, cols)| == rows * cols
  {
    if rows == 0 {
      assert Box(0, cols) == {};
    } else {
      BoxSize(rows - 1, cols);
      BoxGrows(rows - 1, cols);
      assert (rows - 1) * cols + cols == rows * cols;
    }
  }

  /** One more row adds cols cells. */
  lemma BoxGrows(rows: nat, cols: nat)
    ensures |Box(rows + 1, cols)| == |Box(rows, cols)| + cols
  {
    RowSize(rows, cols);
    assert Box(rows + 1, cols) == Box(rows, cols) + RowCells(rows, cols);
    assert Box(rows, cols) * RowCells(rows, cols) == {};
  }

  /** A set of cells of a rows × cols grid has at most rows · cols members. */
  lemma WithinBox(s: set<Cell>, rows: nat, cols: nat)
    requires forall c :: c in s ==> InBounds(rows, cols, c)
    ensures |s| <= rows * cols
  {
    BoxSize(rows, cols);
    var b := Box(rows, cols);
    assert b == s + (b - s);
  }

  /**
   * What `calculate_distance_map(target)` promises: the target is at 0,
   * every distance is at least 0, walls other than the target stay at
   * infinity, every finite cell other than the target is one step (of
   * cost 1 or 1.4) further than a finite cell around it, and the finite
   * cells are closed under steps to cells around them that are in the
   * grid and not walls.
   */
  ghost predicate DistanceMap(grid: array2<real>, target: Cell, dm: array2<Distance>)
    reads grid, dm
  {
    && dm.Length0 == grid.Length0 && dm.Length1 == grid.Length1
    && InBounds(dm.Length0, dm.Length1, target) && dm[target.0, target.1] == Finite(0.0)
    && (forall i, j :: 0 <= i < dm.Length0 && 0 <= j < dm.Length1 && dm[i, j].Finite? ==> dm[i, j].d >= 0.0)
    && (forall i, j :: 0 <= i < dm.Length0 && 0 <= j < dm.Length1 && (i, j) != target && grid[i, j] == Wall ==>
          dm[i, j].Infinite?)
    && (forall i, j :: 0 <= i < dm.Length0 && 0 <= j < dm.Length1 && (i, j) != target && dm[i, j].Finite? ==>
          exists p :: InBounds(dm.Length0, dm.Length1, p) && Around(p, (i, j)) && dm[p.0, p.1].Finite? &&
                      dm[i, j].d == dm[p.0, p.1].d + StepCost(p, (i, j)))
    && (forall c, n :: InBounds(dm.Length0, dm.Length1, c) && dm[c.0, c.1].Finite? && Around(c, n) &&
                       InBounds(dm.Length0, dm.Length1, n) && grid[n.0, n.1] != Wall
                       ==> dm[n.0, n.1].Finite?)
  }

  /**
   * The flood part-way: the visited cells are exactly the finite ones, in
   * the grid, not walls (but for the target), at least 0, and each other
   * than the target was reached from its `parent`, a visited cell around
   * it, at that cell's distance plus the step cost.
   */
  ghost predicate Flood(grid: array2<real>, dm: array2<Distance>, target: Cell, visited: set<Cell>, parent: map<Cell, Cell>)
    reads grid, dm
  {
    && dm.Length0 == grid.Length0 && dm.Length1 == grid.Length1
    && InBounds(dm.Length0, dm.Length1, target) && target in visited && dm[target.0, target.1] == Finite(0.0)
    && (forall c :: c in visited ==> 0 <= c.0 < dm.Length0 && 0 <= c.1 < dm.Length1)
    && (forall i, j :: 0 <= i < dm.Length0 && 0 <= j < dm.Length1 ==> ((i, j) in visited <==> dm[i, j].Finite?))
    && (forall i, j :: 0 <= i < dm.Length0 && 0 <= j < dm.Length1 && dm[i, j].Finite? ==> dm[i, j].d >= 0.0)
    && (forall c :: c in visited && c != target ==> grid[c.0, c.1] != Wall)
    && (forall c :: c in visited && c != target ==> Reached(grid, dm, visited, parent, c))
  }

  ghost predicate Reached(grid: array2<real>, dm: array2<Distance>, visited: set<Cell>, parent: map<Cell, Cell>, c: Cell)
    reads grid, dm
    requires dm.Length0 == grid.Length0 && dm.Length1 == grid.Length1
    requires forall x :: x in visited ==> 0 <= x.0 < dm.Length0 && 0 <= x.1 < dm.Length1
    requires c in visited
  {
    && c in parent && parent[c] in visited && Around(parent[c], c)
    && dm[c.0, c.1].Finite? && dm[parent[c].0, parent[c].1].Finite?
    && dm[c.0, c.1].d == dm[parent[c].0, parent[c].1].d + StepCost(parent[c], c)
  }

  /**
   * From (`queue`, `visited`) to (`queue'`, `visited'`) only cells were
   * enqueued, each visited as it was enqueued.
   */
  ghost predicate Grew(queue: seq<Cell>, visited: set<Cell>, queue': seq<Cell>, visited': set<Cell>) {
    && visited <= visited' && |visited'| - |visited| == |queue'| - |queue|
    && |queue| <= |queue'| && queue'[..|queue|] == queue
    && (forall c :: c in queue' ==> c in queue || c in visited')
    && (forall c :: c in visited' ==> c in visited || c in queue')
  }

  lemma GrewByOne(queue: seq<Cell>, visited: set<Cell>, queue': seq<Cell>, visited': set<Cell>, c: Cell)
    requires Grew(queue, visited, queue', visited') && c !in visited'
    ensures Grew(queue, visited, queue' + [c], visited' + {c})
  {
    assert (queue' + [c])[..|queue|] == queue'[..|queue|];
  }

  /** The first k cells around `current` that are in the grid and not walls are visited. */
  ghost predicate Covered(grid: array2<real>, current: Cell, visited: set<Cell>, k: nat)
    reads grid
  {
    forall m :: 0 <= m < k && m < |Directions| && InBounds(grid.Length0, grid.Length1, Toward(current, m)) &&
                grid[Toward(current, m).0, Toward(current, m).1] != Wall
                ==> Toward(current, m) in visited
  }

  lemma CoveredStep(grid: array2<real>, current: Cell, visited: set<Cell>, visited': set<Cell>, k: nat)
    requires k < |Directions| && Covered(grid, current, visited, k) && visited <= visited'
    requires InBounds(grid.Length0, grid.Length1, Toward(current, k)) && grid[Toward(current, k).0, Toward(current, k).1] != Wall
             ==> Toward(current, k) in visited'
    ensures Covered(grid, current, visited', k + 1)
  {
  }

  /**
   * The loop `for dx, dy in directions` of `calculate_distance_map` for
   * one dequeued cell: each cell around it that is in the grid, not a
   * wall and not yet visited gets `current_distance + move_cost`, is
   * enqueued and visited.
   */
  method Relax(grid: array2<real>, dm: array2<Distance>, height: int, width: int, current: Cell,
               queue: seq<Cell>, visited: set<Cell>, ghost target: Cell, ghost parent: map<Cell, Cell>)
    returns (queue': seq<Cell>, visited': set<Cell>, ghost parent': map<Cell, Cell>)
    requires grid.Length0 == height && grid.Length1 == width
    requires Flood(grid, dm, target, visited, parent) && current in visited
    modifies dm
    ensures Flood(grid, dm, target, visited', parent') && Grew(queue, visited, queue', visited')
    ensures forall n :: Around(current, n) && InBounds(height, width, n) && grid[n.0, n.1] != Wall ==> n in visited'
  {
    var currentDistance := dm[current.0, current.1];
    queue', visited', parent' := queue, visited, parent;
    for k := 0 to |Directions|
      invariant Flood(grid, dm, target, visited', parent') && current in visited'
      invariant dm[current.0, current.1] == currentDistance
      invariant Grew(queue, visited, queue', visited') && Covered(grid, current, visited', k)
    {
      var (dx, dy) := Directions[k];
      var nx, ny := current.0 + dx, current.1 + dy;
      assert (nx, ny) == Toward(current, k);
      ghost var before := visited';
      if 0 <= nx < height && 0 <= ny < width && grid[nx, ny] != Wall && (nx, ny) !in visited' {
        var moveCost := if dx != 0 && dy != 0 then DiagonalCost else StraightCost;
        var newDistance := Plus(currentDistance, moveCost);
        assert moveCost == StepCost(current, (nx, ny));
        assert dm[nx, ny].Infinite?;
        if Below(newDistance, dm[nx, ny]) {
          Discover(grid, dm, target, visited', parent', current, (nx, ny), newDistance);
          GrewByOne(queue, visited, queue', visited', (nx, ny));
          queue' := queue' + [(nx, ny)];
          visited' := visited' + {(nx, ny)};
          parent' := parent'[(nx, ny) := current];
        }
      }
      CoveredStep(grid, current, before, visited', k);
    }
    forall n | Around(current, n) && InBounds(height, width, n) && grid[n.0, n.1] != Wall
      ensures n in visited'
    {
      AroundIsToward(current, n);
    }
  }

  /** `distance_map[next_x, next_y] = new_distance` for a fresh cell around a visited one keeps the flood. */
  method Discover(grid: array2<real>, dm: array2<Distance>, ghost target: Cell, ghost visited: set<Cell>,
                  ghost parent: map<Cell, Cell>, ghost current: Cell, n: Cell, newDistance: Distance)
    requires Flood(grid, dm, target, visited, parent) && current in visited && Around(current, n)
    requires InBounds(dm.Length0, dm.Length1, n) && grid[n.0, n.1] != Wall && n !in visited
    requires newDistance == Plus(dm[current.0, current.1], StepCost(current, n))
    modifies dm
    ensures dm[n.0, n.1] == newDistance
    ensures forall i, j :: 0 <= i < dm.Length0 && 0 <= j < dm.Length1 && (i, j) != n ==> dm[i, j] == old(dm[i, j])
    ensures Flood(grid, dm, target, visited + {n}, parent[n := current])
  {
    dm[n.0, n.1] := newDistance;
    var visited', parent' := visited + {n}, parent[n := current];
    forall c | c in visited' && c != target
      ensures Reached(grid, dm, visited', parent', c)
    {
      if c != n {
        assert old(Reached(grid, dm, visited, parent, c));
      }
    }
  }

  /** Every cell around a cell of `done` that is in the grid and not a wall is visited. */
  ghost predicate Closed(grid: array2<real>, done: set<Cell>, visited: set<Cell>)
    reads grid
  {
    forall c, n :: c in done && Around(c, n) && InBounds(grid.Length0, grid.Length1, n) && grid[n.0, n.1] != Wall
                   ==> n in visited
  }

  /** `distance_map = np.full(..., np.inf)` and `distance_map[target] = 0`: the flood before any step. */
  method StartFlood(grid: array2<real>, height: int, width: int, target: Cell) returns (dm: array2<Distance>)
    requires grid.Length0 == height && grid.Length1 == width && InBounds(height, width, target)
    ensures fresh(dm) && Flood(grid, dm, target, {target}, map[])
  {
    dm := new Distance[height, width]((i, j) => Infinite);
    dm[target.0, target.1] := Finite(0.0);
  }

  /** One round of the `while queue` loop: dequeue the head and relax the cells around it. */
  method Visit(grid: array2<real>, dm: array2<Distance>, height: int, width: int, queue: seq<Cell>, visited: set<Cell>,
               ghost target: Cell, ghost parent: map<Cell, Cell>, ghost done: set<Cell>)
    returns (queue': seq<Cell>, visited': set<Cell>, ghost parent': map<Cell, Cell>, ghost done': set<Cell>)
    requires grid.Length0 == height && grid.Length1 == width && queue != []
    requires Flood(grid, dm, target, visited, parent)
    requires (forall c :: c in queue ==> c in visited) && (forall c :: c in visited ==> c in done || c in queue)
    requires Closed(grid, done, visited)
    modifies dm
    ensures Flood(grid, dm, target, visited', parent')
    ensures (forall c :: c in queue' ==> c in visited') && (forall c :: c in visited' ==> c in done' || c in queue')
    ensures Closed(grid, done', visited')
    ensures visited <= visited' && |queue| - 1 <= |queue'| && |visited'| - |visited| == |queue'| - |queue| + 1
  {
    var current := queue[0];
    queue', visited', parent' := Relax(grid, dm, height, width, current, queue[1..], visited, target, parent);
    DequeueKeepsClosed(grid, queue, visited, done, queue', visited');
    done' := done + {current};
  }

  /**
   * Dequeuing the head of the queue and relaxing the cells around it keeps
   * the queue inside the visited cells, every visited cell done or queued,
   * and the done cells, now with the head, closed.
   */
  lemma DequeueKeepsClosed(grid: array2<real>, queue: seq<Cell>, visited: set<Cell>, done: set<Cell>,
                           queue': seq<Cell>, visited': set<Cell>)
    requires queue != [] && (forall c :: c in queue ==> c in visited) && (forall c :: c in visited ==> c in done || c in queue)
    requires Closed(grid, done, visited) && Grew(queue[1..], visited, queue', visited')
    requires forall n :: Around(queue[0], n) && InBounds(grid.Length0, grid.Length1, n) && grid[n.0, n.1] != Wall ==> n in visited'
    ensures forall c :: c in queue' ==> c in visited'
    ensures forall c :: c in visited' ==> c in done + {queue[0]} || c in queue'
    ensures Closed(grid, done + {queue[0]}, visited')
  {
    forall c | c in visited'
      ensures c in done + {queue[0]} || c in queue'
    {
      if c in visited && c != queue[0] && c !in done {
        assert c in queue[1..] by {
          var k :| 0 <= k < |queue| && queue[k] == c;
          assert k > 0 && queue[1..][k - 1] == c;
        }
        assert queue'[..|queue[1..]|] == queue[1..];
      }
    }
  }

  /**
   * `calculate_distance_map(target)`: a breadth-first flood from the
   * target over the cells around each dequeued cell, eight directions,
   * cost 1 straight and 1.4 diagonal.  A cell is visited when it is first
   * enqueued and never enqueued again, so the loop runs at most
   * height · width times (`steps`).
   */
  method CalculateDistanceMap(grid: array2<real>, height: int, width: int, target: Cell)
    returns (dm: array2<Distance>, ghost steps: nat)
    requires grid.Length0 == height && grid.Length1 == width && InBounds(height, width, target)
    ensures fresh(dm) && DistanceMap(grid, target, dm) && steps <= height * width
  {
    dm := StartFlood(grid, height, width, target);
    var queue := [target];
    var visited := {target};
    ghost var parent: map<Cell, Cell> := map[];
    ghost var done: set<Cell> := {};
    steps := 0;
    ghost var area := height * width;
    while queue != []
      invariant Flood(grid, dm, target, visited, parent)
      invariant forall c :: c in queue ==> c in visited
      invariant forall c :: c in visited ==> c in done || c in queue
      invariant Closed(grid, done, visited)
      invariant steps + |queue| == |visited| && |visited| <= area
      decreases area - |visited|, |queue|
    {
      queue, visited, parent, done := Visit(grid, dm, height, width, queue, visited, target, parent, done);
      steps := steps + 1;
      WithinBox(visited, height, width);
    }
    FloodIsDistanceMap(grid, dm, target, visited, parent, done);
  }

  /** A finished flood, every visited cell dequeued, is a distance map. */
  lemma FloodIsDistanceMap(grid: array2<real>, dm: array2<Distance>, target: Cell, visited: set<Cell>,
                           parent: map<Cell, Cell>, done: set<Cell>)
    requires Flood(grid, dm, target, visited, parent) && Closed(grid, done, visited) && visited <= done
    ensures DistanceMap(grid, target, dm)
  {
    forall i, j | 0 <= i < dm.Length0 && 0 <= j < dm.Length1 && (i, j) != target && dm[i, j].Finite?
      ensures exists p :: InBounds(dm.Length0, dm.Length1, p) && Around(p, (i, j)) && dm[p.0, p.1].Finite? &&
                          dm[i, j].d == dm[p.0, p.1].d + StepCost(p, (i, j))
    {
      assert Reached(grid, dm, visited, parent, (i, j));
      var p := parent[(i, j)];
      assert InBounds(dm.Length0, dm.Length1, p);
    }
  }

  /**
   * A path from the target through cells around each other, in the grid
   * and not walls, ends on a finite cell: the finite cells of a distance
   * map hold everything the flood can reach.
   */
  lemma {:induction false} ReachableIsFinite(grid: array2<real>, target: Cell, dm: array2<Distance>, path: seq<Cell>, k: nat)
    requires DistanceMap(grid, target, dm) && k < |path| && path[0] == target
    requires forall i :: 0 < i < |path| ==> Around(path[i - 1], path[i])
    requires forall i :: 0 < i < |path| ==> InBounds(dm.Length0, dm.Length1, path[i]) && grid[path[i].0, path[i].1] != Wall
    ensures InBounds(dm.Length0, dm.Length1, path[k]) && dm[path[k].0, path[k].1].Finite?
  {
    if k > 0 {
      ReachableIsFinite(grid, target, dm, path, k - 1);
      assert Around(path[k - 1], path[k]);
    }
  }

  // ----- initialize_maze -----

  /** Python's reading of a slice bound k on a row of n cells (a negative k counts from the end). */
  function SliceBound(k: int, n: nat): (b: nat)
    ensures b <= n
    ensures 0 <= k <= n ==> b == k
    ensures k < 0 ==> b == if n + k < 0 then 0 else n + k
  {
    if k < 0 then (if n + k < 0 then 0 else n + k) else if k > n then n else k
  }

  /** `(self.height - 5, self.width // 2)`, the colony in every case. */
  function ColonyPosition(height: int, width: int): Cell {
    (height - 5, width / 2)
  }

  /** `(4, self.width // 2)`, the food in every case. */
  function FoodPosition(width: int): Cell {
    (4, width / 2)
  }

  /** `wall_positions` and `gap_positions` of case 3. */
  function WallRows(height: int): seq<int> {
    [height / 4, height / 2, (3 * height) / 4]
  }

  function GapColumns(width: int): seq<int> {
    [width / 4, width / 2, (3 * width) / 4]
  }

  /** `grid[wall_y, :gap_x-5] = 4` and `grid[wall_y, gap_x+5:] = 4` cover (i, j). */
  predicate GapWall(width: nat, wallY: int, gapX: int, i: int, j: int) {
    i == wallY && 0 <= j < width && (j < SliceBound(gapX - 5, width) || SliceBound(gapX + 5, width) <= j)
  }

  /** The first n wall rows of case 3 cover (i, j). */
  predicate GapWalls(height: int, width: nat, n: nat, i: int, j: int)
    requires n <= 3
  {
    n > 0 && (GapWalls(height, width, n - 1, i, j) || GapWall(width, WallRows(height)[n - 1], GapColumns(width)[n - 1], i, j))
  }

  /** `initialize_maze(case)` writes a wall at (i, j), before the colony and the food are marked. */
  predicate WallAt(height: int, width: nat, mazeCase: int, i: int, j: int) {
    if mazeCase == 2 then
      i == height / 2 && SliceBound(width / 4, width) <= j < SliceBound((3 * width) / 4, width)
    else if mazeCase == 3 then GapWalls(height, width, 3, i, j)
    else false
  }

  /** Cell (i, j) of the grid `initialize_maze(case)` returns: food over colony over walls over 0. */
  function MazeCell(height: int, width: nat, mazeCase: int, c: Cell): real {
    if c == FoodPosition(width) then Food
    else if c == ColonyPosition(height, width) then Colony
    else if WallAt(height, width, mazeCase, c.0, c.1) then Wall
    else 0.0
  }

  /** `grid[i, lo:hi] = 4`, with lo and hi already read as slice bounds. */
  method FillRow(grid: array2<real>, i: int, lo: nat, hi: nat)
    requires 0 <= i < grid.Length0 && hi <= grid.Length1
    modifies grid
    ensures forall a, b :: 0 <= a < grid.Length0 && 0 <= b < grid.Length1 ==>
              grid[a, b] == if a == i && lo <= b < hi then Wall else old(grid[a, b])
  {
    for j := lo to if hi < lo then lo else hi
      invariant forall a, b :: 0 <= a < grid.Length0 && 0 <= b < grid.Length1 ==>
                  grid[a, b] == if a == i && lo <= b < j then Wall else old(grid[a, b])
    {
      grid[i, j] := Wall;
    }
  }

  /**
   * `initialize_maze(case)`: a zero grid with the walls of the case, then
   * -1 at the colony and 1 at the food.  A case other than 1, 2 or 3 sets
   * no positions, and reading `self.colony_position` raises
   * `AttributeError`.
   */
  method InitializeMaze(height: int, width: int, mazeCase: int) returns (grid: array2<real>, r: Result<(Cell, Cell)>)
    requires 5 <= height && 1 <= width
    ensures fresh(grid) && grid.Length0 == height && grid.Length1 == width
    ensures r == if 1 <= mazeCase <= 3 then Ok((ColonyPosition(height, width), FoodPosition(width))) else Raise(AttributeError)
    ensures r.Ok? ==> forall i, j {:trigger MazeCell(height, width, mazeCase, (i, j))} :: 0 <= i < height && 0 <= j < width ==>
                        grid[i, j] == MazeCell(height, width, mazeCase, (i, j))
  {
    grid := new real[height, width]((i, j) => 0.0);
    if mazeCase == 1 {
    } else if mazeCase == 2 {
      var wallY := height / 2;
      var wallStart := width / 4;
      var wallEnd := (3 * width) / 4;
      FillRow(grid, wallY, SliceBound(wallStart, width), SliceBound(wallEnd, width));
    } else if mazeCase == 3 {
      var wallPositions := WallRows(height);
      var gapPositions := GapColumns(width);
      for t := 0 to 3
        invariant forall i, j :: 0 <= i < height && 0 <= j < width ==>
                    grid[i, j] == if GapWalls(height, width, t, i, j) then Wall else 0.0
      {
        FillRow(grid, wallPositions[t], 0, SliceBound(gapPositions[t] - 5, width));
        FillRow(grid, wallPositions[t], SliceBound(gapPositions[t] + 5, width), width);
      }
    } else {
      return grid, Raise(AttributeError);
    }
    var colony := ColonyPosition(height, width);
    var food := FoodPosition(width);
    grid[colony.0, colony.1] := Colony;
    grid[food.0, food.1] := Food;
    r := Ok((colony, food));
  }

  /** In case 1 the maze has no walls. */
  lemma OpenFieldHasNoWalls(height: int, width: nat, c: Cell)
    ensures MazeCell(height, width, 1, c) != Wall
  {
  }

  /**
   * Every cell of the maze holds 1, -1, 4 or 0; the food cell holds 1 and
   * the colony cell -1 unless the food is on it, so neither is a wall.
   */
  lemma MazeMarks(height: int, width: nat, mazeCase: int, c: Cell)
    ensures var v := MazeCell(height, width, mazeCase, c); v == Food || v == Colony || v == Wall || v == 0.0
    ensures MazeCell(height, width, mazeCase, FoodPosition(width)) == Food
    ensures ColonyPosition(height, width) != FoodPosition(width) ==>
              MazeCell(height, width, mazeCase, ColonyPosition(height, width)) == Colony
    ensures !WallAt(height, width, mazeCase, c.0, c.1) && c != FoodPosition(width)
              && c != ColonyPosition(height, width)
            ==> MazeCell(height, width, mazeCase, c) == 0.0
  {
  }

  /** Case 3 has a wall at (i, j) exactly when one of its three gap walls covers it. */
  lemma ThreeGapWalls(height: int, width: nat, i: int, j: int)
    ensures WallAt(height, width, 3, i, j) <==>
              || GapWall(width, WallRows(height)[0], GapColumns(width)[0], i, j)
              || GapWall(width, WallRows(height)[1], GapColumns(width)[1], i, j)
              || GapWall(width, WallRows(height)[2], GapColumns(width)[2], i, j)
  {
    assert GapWalls(height, width, 1, i, j) <==> GapWall(width, WallRows(height)[0], GapColumns(width)[0], i, j);
    assert GapWalls(height, width, 2, i, j) <==>
             GapWalls(height, width, 1, i, j) || GapWall(width, WallRows(height)[1], GapColumns(width)[1], i, j);
    assert GapWalls(height, width, 3, i, j) <==>
             GapWalls(height, width, 2, i, j) || GapWall(width, WallRows(height)[2], GapColumns(width)[2], i, j);
  }

  /** At the default size 80 × 80, each wall of case 3 leaves the ten cells from gap_x - 5 to gap_x + 4 open. */
  lemma DefaultGaps(j: int)
    requires 0 <= j < 80
    ensures WallAt(80, 80, 3, 20, j) <==> j < 15 || 25 <= j
    ensures WallAt(80, 80, 3, 40, j) <==> j < 35 || 45 <= j
    ensures WallAt(80, 80, 3, 60, j) <==> j < 55 || 65 <= j
  {
    ThreeGapWalls(80, 80, 20, j);
    ThreeGapWalls(80, 80, 40, j);
    ThreeGapWalls(80, 80, 60, j);
  }

  /**
   * On a grid 16 wide, `gap_x - 5` is -1 for the first wall, which Python
   * reads as "all but the last cell", so that wall row has no gap at all.
   */
  lemma NarrowFirstWallIsSolid(height: int, j: int)
    requires 5 <= height && 0 <= j < 16
    ensures WallAt(height, 16, 3, height / 4, j)
  {
  }

  // ----- the ants -----

  /** `state`: 'foraging' or 'returning'. */
  datatype State = Foraging | Returning

  /** The state of one ant: its position, its state and whether it carries food. */
  datatype AntView = AntView(position: Cell, state: State, hasFood: bool)

  /** `np.random.randint(n)`: given n > 0, an index below n. */
  type RandInt = nat -> nat

  ghost predicate IsRandInt(randint: RandInt) {
    forall n :: n > 0 ==> randint(n) < n
  }

  /** c is in the first height rows and width columns and not a wall. */
  predicate Open(grid: array2<real>, height: int, width: int, c: Cell)
    reads grid
    requires height <= grid.Length0 && width <= grid.Length1
  {
    InBounds(height, width, c) && grid[c.0, c.1] != Wall
  }

  /** The open cells of `cells`, in order. */
  function Legal(grid: array2<real>, height: int, width: int, cells: seq<Cell>): (r: seq<Cell>)
    reads grid
    requires height <= grid.Length0 && width <= grid.Length1
    ensures |r| <= |cells|
  {
    if cells == [] then []
    else
      var last := cells[|cells| - 1];
      Legal(grid, height, width, cells[..|cells| - 1]) + if Open(grid, height, width, last) then [last] else []
  }

  /** `Legal` keeps exactly the open cells, each of them inside the first height rows and width columns. */
  lemma {:induction false} LegalExact(grid: array2<real>, height: int, width: int, cells: seq<Cell>)
    requires height <= grid.Length0 && width <= grid.Length1
    ensures var r := Legal(grid, height, width, cells);
            && (forall c :: c in r <==> c in cells && Open(grid, height, width, c))
            && (forall k :: 0 <= k < |r| ==> 0 <= r[k].0 < height && 0 <= r[k].1 < width)
  {
    if cells != [] {
      LegalExact(grid, height, width, cells[..|cells| - 1]);
      assert cells == cells[..|cells| - 1] + [cells[|cells| - 1]];
    }
  }

  /** Taking one more cell c into `Legal` appends c exactly when the test of `valid_moves` admits it. */
  lemma LegalStep(grid: array2<real>, height: int, width: int, cells: seq<Cell>, n: nat, c: Cell)
    requires height <= grid.Length0 && width <= grid.Length1 && n < |cells| && cells[n] == c
    ensures Legal(grid, height, width, cells[..n + 1])
         == Legal(grid, height, width, cells[..n])
            + if 0 <= c.0 < height && 0 <= c.1 < width && grid[c.0, c.1] != Wall then [c] else []
  {
    assert cells[..n + 1][..n] == cells[..n];
  }

  /** What `valid_moves` returns: the open cells around p, in the order of the offsets. */
  function OpenAround(grid: array2<real>, height: int, width: int, p: Cell): (moves: seq<Cell>)
    reads grid
    requires height <= grid.Length0 && width <= grid.Length1
    ensures forall k :: 0 <= k < |moves| ==> 0 <= moves[k].0 < height && 0 <= moves[k].1 < width
  {
    LegalExact(grid, height, width, Neighbours8(p));
    Legal(grid, height, width, Neighbours8(p))
  }

  /** The moves are exactly the open cells around p, at most eight, never p itself. */
  lemma OpenAroundExact(grid: array2<real>, height: int, width: int, p: Cell)
    requires height <= grid.Length0 && width <= grid.Length1
    ensures var moves := OpenAround(grid, height, width, p);
            && |moves| <= 8 && p !in moves
            && forall c :: c in moves <==> Around(p, c) && Open(grid, height, width, c)
  {
    Neighbours8Exact(p);
    LegalExact(grid, height, width, Neighbours8(p));
  }

  /** An entry of a distance map at each cell. */
  function DistancesAt(dm: array2<Distance>, cells: seq<Cell>): (ds: seq<Distance>)
    reads dm
    requires forall k :: 0 <= k < |cells| ==> 0 <= cells[k].0 < dm.Length0 && 0 <= cells[k].1 < dm.Length1
    ensures |ds| == |cells| && forall k :: 0 <= k < |cells| ==> ds[k] == dm[cells[k].0, cells[k].1]
  {
    if cells == [] then []
    else DistancesAt(dm, cells[..|cells| - 1]) + [dm[cells[|cells| - 1].0, cells[|cells| - 1].1]]
  }

  /**
   * The index `get_best_move` keeps after the first i moves: the earliest
   * one with the strictly smallest finite distance, or none while every
   * distance is infinite.
   */
  function FirstMin(ds: seq<Distance>, i: nat): (r: Option<nat>)
    requires i <= |ds|
    ensures r.Some? ==> r.value < i
  {
    if i == 0 then None
    else
      match FirstMin(ds, i - 1)
      case None => if ds[i - 1].Finite? then Some(i - 1) else None
      case Some(b) => if Below(ds[i - 1], ds[b]) then Some(i - 1) else Some(b)
  }

  /**
   * `FirstMin` finds nothing exactly when the first i distances are all
   * infinite, and otherwise a finite distance none of the first i is
   * strictly below, strictly below every one before it.
   */
  lemma {:induction false} FirstMinIsFirstMinimum(ds: seq<Distance>, i: nat)
    requires i <= |ds|
    ensures var r := FirstMin(ds, i);
            && (r.None? <==> forall j :: 0 <= j < i ==> ds[j].Infinite?)
            && (r.Some? ==> && ds[r.value].Finite?
                            && (forall j :: 0 <= j < i ==> !Below(ds[j], ds[r.value]))
                            && (forall j :: 0 <= j < r.value ==> Below(ds[r.value], ds[j])))
  {
    if i > 0 {
      FirstMinIsFirstMinimum(ds, i - 1);
    }
  }

  /** Index b holds a distance no other is strictly below, and every earlier one is strictly above it. */
  predicate Nearest(ds: seq<Distance>, b: nat) {
    && b < |ds|
    && (forall j :: 0 <= j < |ds| ==> !Below(ds[j], ds[b]))
    && (forall j :: 0 <= j < b ==> Below(ds[b], ds[j]))
  }

  /** At most one index is the nearest. */
  lemma NearestIsUnique(ds: seq<Distance>, b: nat, b': nat)
    requires Nearest(ds, b) && Nearest(ds, b')
    ensures b == b'
  {
    assert Below(ds[b'], ds[b]) || b' <= b;
    assert Below(ds[b], ds[b']) || b <= b';
  }

  /**
   * What `get_best_move(moves, distance_map)` returns: the earliest move
   * strictly nearest on the map, or `moves[0]` when every move is at
   * infinity (which is then the nearest too); an empty list raises
   * `IndexError`.
   */
  function BestMove(dm: array2<Distance>, moves: seq<Cell>): (r: Result<Cell>)
    reads dm
    requires forall k :: 0 <= k < |moves| ==> 0 <= moves[k].0 < dm.Length0 && 0 <= moves[k].1 < dm.Length1
    ensures r.Ok? <==> |moves| > 0
    ensures r.Raise? ==> r.error == IndexError
  {
    match FirstMin(DistancesAt(dm, moves), |moves|)
    case Some(b) => Ok(moves[b])
    case None => if moves == [] then Raise(IndexError) else Ok(moves[0])
  }

  /** The move `BestMove` picks is the nearest one. */
  lemma BestMoveIsNearest(dm: array2<Distance>, moves: seq<Cell>)
    requires forall k :: 0 <= k < |moves| ==> 0 <= moves[k].0 < dm.Length0 && 0 <= moves[k].1 < dm.Length1
    ensures var r := BestMove(dm, moves);
            r.Ok? ==> exists b :: 0 <= b < |moves| && moves[b] == r.value && Nearest(DistancesAt(dm, moves), b)
  {
    var ds := DistancesAt(dm, moves);
    FirstMinIsFirstMinimum(ds, |moves|);
    if FirstMin(ds, |moves|).None? && moves != [] {
      assert Nearest(ds, 0);
    }
  }

  /**
   * Where `move` puts an ant: nowhere new without valid moves; a
   * returning ant on the best move on the colony map; a foraging ant on
   * the best move on the food map when the draw is below 0.3, and on a
   * random valid move otherwise.
   */
  function MoveTo(a: AntView, grid: array2<real>, height: int, width: int, dmFood: array2<Distance>,
                  dmColony: array2<Distance>, draw: real, randint: RandInt): Cell
    reads grid, dmFood, dmColony
    requires height <= grid.Length0 && width <= grid.Length1
    requires height <= dmFood.Length0 && width <= dmFood.Length1 && height <= dmColony.Length0 && width <= dmColony.Length1
    requires IsRandInt(randint)
  {
    var moves := OpenAround(grid, height, width, a.position);
    if moves == [] then a.position
    else if a.state == Returning then BestMove(dmColony, moves).value
    else if draw < FoodBias then BestMove(dmFood, moves).value
    else moves[randint(|moves|)]
  }

  /**
   * A move stays put only without valid moves and otherwise ends on an
   * open cell around the ant; no valid move is strictly nearer the colony
   * than where a returning ant goes, nor strictly nearer the food than
   * where a biased foraging ant goes.
   */
  lemma MoveStaysOpen(a: AntView, grid: array2<real>, height: int, width: int, dmFood: array2<Distance>,
                      dmColony: array2<Distance>, draw: real, randint: RandInt)
    requires height <= grid.Length0 && width <= grid.Length1
    requires height <= dmFood.Length0 && width <= dmFood.Length1 && height <= dmColony.Length0 && width <= dmColony.Length1
    requires IsRandInt(randint)
    ensures var p := MoveTo(a, grid, height, width, dmFood, dmColony, draw, randint);
            var moves := OpenAround(grid, height, width, a.position);
            && (moves == [] ==> p == a.position)
            && (moves != [] ==> Around(a.position, p) && Open(grid, height, width, p))
            && (moves != [] && a.state == Returning ==>
                  forall m :: m in moves ==> !Below(dmColony[m.0, m.1], dmColony[p.0, p.1]))
            && (moves != [] && a.state == Foraging && draw < FoodBias ==>
                  forall m :: m in moves ==> !Below(dmFood[m.0, m.1], dmFood[p.0, p.1]))
  {
    var p := MoveTo(a, grid, height, width, dmFood, dmColony, draw, randint);
    var moves := OpenAround(grid, height, width, a.position);
    OpenAroundExact(grid, height, width, a.position);
    if moves != [] {
      if a.state == Returning || draw < FoodBias {
        var dm := if a.state == Returning then dmColony else dmFood;
        BestMoveIsNearest(dm, moves);
        var b :| 0 <= b < |moves| && moves[b] == p && Nearest(DistancesAt(dm, moves), b);
        forall m | m in moves
          ensures !Below(dm[m.0, m.1], dm[p.0, p.1])
        {
          var j :| 0 <= j < |moves| && moves[j] == m;
          assert DistancesAt(dm, moves)[j] == dm[m.0, m.1];
        }
      }
    }
  }

  /** `has_food` and `state` agree: an ant carries food exactly when it is returning. */
  predicate Consistent(a: AntView) {
    a.hasFood <==> a.state == Returning
  }

  /**
   * The checks of `update` after a move: an ant on the food without food
   * picks it up and returns; otherwise an ant on the colony with food
   * drops it and forages again.
   */
  function Arrive(a: AntView, colony: Cell, food: Cell): (b: AntView)
    ensures b.position == a.position
    ensures Consistent(a) ==> Consistent(b)
    ensures b.position == food && food != colony && Consistent(a) ==> b.hasFood && b.state == Returning
    ensures b.position == colony && colony != food && Consistent(a) ==> !b.hasFood && b.state == Foraging
    ensures b.position != food && b.position != colony ==> b == a
  {
    if a.position == food && !a.hasFood then a.(hasFood := true, state := Returning)
    else if a.position == colony && a.hasFood then a.(hasFood := false, state := Foraging)
    else a
  }

  class Ant {
    var position: Cell
    const colonyPos: Cell
    const foodPos: Cell
    var state: State
    var hasFood: bool
    const foodBias: real := FoodBias

    function View(): AntView
      reads this
    {
      AntView(position, state, hasFood)
    }

    /** `Ant(x, y, colony_pos, food_pos)`: a foraging ant at [x, y] without food. */
    constructor (x: int, y: int, colonyPos: Cell, foodPos: Cell)
      ensures View() == AntView((x, y), Foraging, false)
      ensures this.colonyPos == colonyPos && this.foodPos == foodPos
    {
      position := (x, y);
      this.colonyPos := colonyPos;
      this.foodPos := foodPos;
      state := Foraging;
      hasFood := false;
    }

    /** `valid_moves(height, width, grid)`, as `OpenAround` says. */
    method ValidMoves(height: int, width: int, grid: array2<real>) returns (moves: seq<Cell>)
      requires height <= grid.Length0 && width <= grid.Length1
      ensures moves == OpenAround(grid, height, width, position)
    {
      ghost var around := Neighbours8(position);
      moves := [];
      for dx := -1 to 2
        invariant moves == Legal(grid, height, width, around[..Passed(dx + 1, 0)])
      {
        for dy := -1 to 2
          invariant moves == Legal(grid, height, width, around[..Passed(dx + 1, dy + 1)])
        {
          ghost var n := Passed(dx + 1, dy + 1);
          OffsetIsNeighbour(position, dx + 1, dy + 1);
          if dx != 0 || dy != 0 {
            var newX := position.0 + dx;
            var newY := position.1 + dy;
            LegalStep(grid, height, width, around, n, (newX, newY));
            if 0 <= newX < height && 0 <= newY < width && grid[newX, newY] != Wall {
              moves := moves + [(newX, newY)];
            }
          }
        }
      }
      assert around[..Passed(3, 0)] == around;
    }

    /** `get_best_move(moves, distance_map)`, as `BestMove` says. */
    method GetBestMove(moves: seq<Cell>, distanceMap: array2<Distance>) returns (r: Result<Cell>)
      requires forall k :: 0 <= k < |moves| ==> 0 <= moves[k].0 < distanceMap.Length0 && 0 <= moves[k].1 < distanceMap.Length1
      ensures r == BestMove(distanceMap, moves)
    {
      ghost var ds := DistancesAt(distanceMap, moves);
      var bestMove: Option<Cell> := None;
      var minDistance := Infinite;
      for k := 0 to |moves|
        invariant match FirstMin(ds, k)
                  case None => bestMove.None? && minDistance == Infinite
                  case Some(b) => bestMove == Some(moves[b]) && minDistance == ds[b]
      {
        var distance := distanceMap[moves[k].0, moves[k].1];
        if Below(distance, minDistance) {
          minDistance := distance;
          bestMove := Some(moves[k]);
        }
      }
      if bestMove.Some? {
        return Ok(bestMove.value);
      }
      if |moves| == 0 {
        return Raise(IndexError);
      }
      r := Ok(moves[0]);
    }

    /** `move(...)`: the new position is what `MoveTo` says; nothing else changes. */
    method Move(height: int, width: int, grid: array2<real>, distanceMapFood: array2<Distance>,
                distanceMapColony: array2<Distance>, draw: real, randint: RandInt)
      requires height <= grid.Length0 && width <= grid.Length1
      requires height <= distanceMapFood.Length0 && width <= distanceMapFood.Length1
      requires height <= distanceMapColony.Length0 && width <= distanceMapColony.Length1
      requires IsRandInt(randint)
      modifies this
      ensures View() == old(View()).(position := MoveTo(old(View()), grid, height, width, distanceMapFood,
                                                       distanceMapColony, draw, randint))
    {
      var moves := ValidMoves(height, width, grid);
      if |moves| == 0 {
        return;
      }
      OpenAroundExact(grid, height, width, position);
      if state == Returning {
        var bestMove := GetBestMove(moves, distanceMapColony);
        position := bestMove.value;
      } else {
        if draw < foodBias {
          var bestMove := GetBestMove(moves, distanceMapFood);
          position := bestMove.value;
        } else {
          position := moves[randint(|moves|)];
        }
      }
    }
  }

  /** One ant's turn in `update`: its move, then the food and colony checks. */
  function Tick(a: AntView, grid: array2<real>, height: int, width: int, dmFood: array2<Distance>,
                dmColony: array2<Distance>, colony: Cell, food: Cell, draw: real, randint: RandInt): AntView
    reads grid, dmFood, dmColony
    requires height <= grid.Length0 && width <= grid.Length1
    requires height <= dmFood.Length0 && width <= dmFood.Length1 && height <= dmColony.Length0 && width <= dmColony.Length1
    requires IsRandInt(randint)
  {
    Arrive(a.(position := MoveTo(a, grid, height, width, dmFood, dmColony, draw, randint)), colony, food)
  }

  /** A turn keeps an ant consistent and on an open cell. */
  lemma TickKeepsAnt(a: AntView, grid: array2<real>, height: int, width: int, dmFood: array2<Distance>,
                     dmColony: array2<Distance>, colony: Cell, food: Cell, draw: real, randint: RandInt)
    requires height <= grid.Length0 && width <= grid.Length1
    requires height <= dmFood.Length0 && width <= dmFood.Length1 && height <= dmColony.Length0 && width <= dmColony.Length1
    requires IsRandInt(randint)
    requires Consistent(a) && Open(grid, height, width, a.position)
    ensures var b := Tick(a, grid, height, width, dmFood, dmColony, colony, food, draw, randint);
            Consistent(b) && Open(grid, height, width, b.position)
  {
    MoveStaysOpen(a, grid, height, width, dmFood, dmColony, draw, randint);
  }

  class Model {
    const width: int
    const height: int
    const nAnts: nat
    const mazeCase: int
    const grid: array2<real>
    const colonyPosition: Cell
    const foodPosition: Cell
    const distanceMapFood: array2<Distance>
    const distanceMapColony: array2<Distance>
    const ants: seq<Ant>

    /**
     * The grid is the maze of `mazeCase`, both distance maps are distance
     * maps of that grid to the food and to the colony, and the ants are
     * nAnts different objects that know the colony and the food.
     */
    /** The grid and both distance maps are height × width. */
    predicate Dims()
      reads this
    {
      && grid.Length0 == height && grid.Length1 == width
      && distanceMapFood.Length0 == height && distanceMapFood.Length1 == width
      && distanceMapColony.Length0 == height && distanceMapColony.Length1 == width
    }

    ghost predicate Shape()
      reads this, grid, distanceMapFood, distanceMapColony
    {
      && Dims()
      && (forall i, j {:trigger MazeCell(height, width, mazeCase, (i, j))} :: 0 <= i < height && 0 <= j < width ==>
            grid[i, j] == MazeCell(height, width, mazeCase, (i, j)))
      && DistanceMap(grid, foodPosition, distanceMapFood)
      && DistanceMap(grid, colonyPosition, distanceMapColony)
      && |ants| == nAnts && Distinct()
      && (forall k :: 0 <= k < |ants| ==> ants[k].colonyPos == colonyPosition && ants[k].foodPos == foodPosition)
    }

    /** The ants are different objects. */
    predicate Distinct() {
      forall i, j :: 0 <= i < j < |ants| ==> ants[i] != ants[j]
    }

    /** Every ant carries food exactly when it is returning and stands on an open cell. */
    ghost predicate AntsOk()
      reads this, grid, ants
      requires grid.Length0 == height && grid.Length1 == width
    {
      forall k :: 0 <= k < |ants| ==> Consistent(ants[k].View()) && Open(grid, height, width, ants[k].position)
    }

    ghost predicate Valid()
      reads this, grid, distanceMapFood, distanceMapColony, ants
    {
      Shape() && AntsOk()
    }

    /**
     * `Model(width, height, nAnts, case)`: the maze of the case, the two
     * distance maps and nAnts foraging ants at the colony.
     */
    constructor (width: int, height: int, nAnts: nat, mazeCase: int)
      requires 1 <= mazeCase <= 3 && 5 <= height && 1 <= width
      ensures Valid()
      ensures this.width == width && this.height == height && this.nAnts == nAnts && this.mazeCase == mazeCase
      ensures colonyPosition == ColonyPosition(height, width) && foodPosition == FoodPosition(width)
      ensures forall k :: 0 <= k < |ants| ==> fresh(ants[k]) && ants[k].View() == AntView(colonyPosition, Foraging, false)
    {
      var g, toFood, toColony := Build(height, width, mazeCase);
      var created := Spawn(nAnts, ColonyPosition(height, width), FoodPosition(width));
      this.width, this.height, this.nAnts, this.mazeCase := width, height, nAnts, mazeCase;
      grid, distanceMapFood, distanceMapColony, ants := g, toFood, toColony, created;
      colonyPosition, foodPosition := ColonyPosition(height, width), FoodPosition(width);
    }

    /** One ant's turn of `update`, as `Tick` says. */
    method Turn(ant: Ant, draw: real, randint: RandInt)
      requires Dims() && IsRandInt(randint)
      modifies ant
      ensures ant.View() == Tick(old(ant.View()), grid, height, width, distanceMapFood, distanceMapColony,
                                 colonyPosition, foodPosition, draw, randint)
    {
      ant.Move(height, width, grid, distanceMapFood, distanceMapColony, draw, randint);
      assert ant.View() == old(ant.View()).(position := ant.position);
      if ant.position == foodPosition && !ant.hasFood {
        ant.hasFood := true;
        ant.state := Returning;
      } else if ant.position == colonyPosition && ant.hasFood {
        ant.hasFood := false;
        ant.state := Foraging;
      }
    }

    /**
     * `update()`: every ant in turn takes its move, using `draws[k]` for
     * its `np.random.random()` and `randints[k]` for its
     * `np.random.randint`, and then the food and colony checks, as `Tick`
     * says; the model stays valid.
     */
    method Update(draws: seq<real>, randints: seq<RandInt>)
      requires Valid() && |draws| == |ants| && |randints| == |ants|
      requires forall k :: 0 <= k < |randints| ==> IsRandInt(randints[k])
      modifies ants
      ensures Valid()
      ensures forall k :: 0 <= k < |ants| ==>
                ants[k].View() == Tick(old(ants[k].View()), grid, height, width, distanceMapFood, distanceMapColony,
                                       colonyPosition, foodPosition, draws[k], randints[k])
    {
      MoveAnts(draws, randints);
      forall k | 0 <= k < |ants|
        ensures Consistent(ants[k].View()) && Open(grid, height, width, ants[k].position)
      {
        TickKeepsAnt(old(ants[k].View()), grid, height, width, distanceMapFood, distanceMapColony,
                     colonyPosition, foodPosition, draws[k], randints[k]);
      }
    }

    /** The loop of `update`; it needs of the model only its sizes and different ants. */
    method MoveAnts(draws: seq<real>, randints: seq<RandInt>)
      requires Dims() && Distinct() && |draws| == |ants| && |randints| == |ants|
      requires forall k :: 0 <= k < |randints| ==> IsRandInt(randints[k])
      modifies ants
      ensures forall k :: 0 <= k < |ants| ==>
                ants[k].View() == Tick(old(ants[k].View()), grid, height, width, distanceMapFood, distanceMapColony,
                                       colonyPosition, foodPosition, draws[k], randints[k])
    {
      ghost var after: seq<AntView> := [];
      for i := 0 to |ants|
        invariant |after| == i
        invariant forall k :: 0 <= k < i ==>
                    after[k] == old(Tick(ants[k].View(), grid, height, width, distanceMapFood, distanceMapColony,
                                         colonyPosition, foodPosition, draws[k], randints[k]))
        invariant forall k :: 0 <= k < i ==> ants[k].View() == after[k]
        invariant forall k :: i <= k < |ants| ==> ants[k].View() == old(ants[k].View())
      {
        var ant := ants[i];
        Turn(ant, draws[i], randints[i]);
        after := after + [ant.View()];
      }
    }
  }

  /** The grid and the two distance maps of `Model.__init__`; the colony cell is open. */
  method Build(height: int, width: int, mazeCase: int)
    returns (grid: array2<real>, toFood: array2<Distance>, toColony: array2<Distance>)
    requires 1 <= mazeCase <= 3 && 5 <= height && 1 <= width
    ensures fresh(grid) && fresh(toFood) && fresh(toColony)
    ensures grid.Length0 == height && grid.Length1 == width
    ensures forall i, j {:trigger MazeCell(height, width, mazeCase, (i, j))} :: 0 <= i < height && 0 <= j < width ==>
              grid[i, j] == MazeCell(height, width, mazeCase, (i, j))
    ensures DistanceMap(grid, FoodPosition(width), toFood) && DistanceMap(grid, ColonyPosition(height, width), toColony)
    ensures Open(grid, height, width, ColonyPosition(height, width))
  {
    var r;
    grid, r := InitializeMaze(height, width, mazeCase);
    var (colony, food) := r.value;
    toFood, toColony := DistanceMaps(grid, height, width, food, colony);
    assert grid[colony.0, colony.1] == MazeCell(height, width, mazeCase, colony);
  }

  /** The two calls of `calculate_distance_map` in `Model.__init__`, to the food and to the colony. */
  method DistanceMaps(grid: array2<real>, height: int, width: int, food: Cell, colony: Cell)
    returns (toFood: array2<Distance>, toColony: array2<Distance>)
    requires grid.Length0 == height && grid.Length1 == width && InBounds(height, width, food) && InBounds(height, width, colony)
    ensures fresh(toFood) && fresh(toColony)
    ensures DistanceMap(grid, food, toFood) && DistanceMap(grid, colony, toColony)
  {
    ghost var steps;
    toFood, steps := CalculateDistanceMap(grid, height, width, food);
    toColony, steps := CalculateDistanceMap(grid, height, width, colony);
  }

  /** `[Ant(*colony, colony, food) for _ in range(n)]`: n new foraging ants at the colony. */
  method Spawn(n: nat, colony: Cell, food: Cell) returns (ants: seq<Ant>)
    ensures |ants| == n && forall i, j :: 0 <= i < j < n ==> ants[i] != ants[j]
    ensures forall k :: 0 <= k < n ==> && fresh(ants[k]) && ants[k].View() == AntView(colony, Foraging, false)
                                       && ants[k].colonyPos == colony && ants[k].foodPos == food
  {
    ants := [];
    for m := 0 to n
      invariant |ants| == m
      invariant forall i, j :: 0 <= i < j < m ==> ants[i] != ants[j]
      invariant forall k :: 0 <= k < m ==> && fresh(ants[k]) && ants[k].View() == AntView(colony, Foraging, false)
                                           && ants[k].colonyPos == colony && ants[k].foodPos == food
    {
      var ant := new Ant(colony.0, colony.1, colony, food);
      ants := ants + [ant];
    }
  }
}
