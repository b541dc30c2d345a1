/**
 * The rules of the pheromone ant model (`ant_model_walkback.py`), on
 * values: a grid of cell types, a pheromone field, and a view of each ant.
 * An ant searches by a pheromone-weighted roulette over its unvisited open
 * neighbours, walks back along its own path once it carries food, lays
 * pheromone on the way back, and is counted and reset at the colony.
 *
 * Randomness is an explicit `Draw` per ant step: the outcome of the shuffle
 * (`np.random.shuffle`) as a permutation of whatever list it is given, and
 * the outcome of `np.random.uniform(0, t)` as a number between 0 and t.
 */
module WalkbackRules {
  import opened Wrappers
  import opened Arrays
  import opened Cells

  /** Cell types in the grid. */
  const Colony: int := -1
  const OpenSpace: int := 0
  const Food: int := 1
  const Wall: int := 2

  /** Simulation parameters. */
  const PathCount: int := 16
  const TimeSteps: int := 1000
  const MazeDimension: int := 13
  const MazeScale: int := 3
  const MazeSize: int := MazeDimension * MazeScale
  const AntCount: int := 100
  const PheromoneDeposit: real := 0.1
  const DecayRate: real := 0.01
  const MaxPheromone: real := 0.99
  /** The chance every open neighbour has on top of its pheromone. */
  const BaseChance: real := 0.1

  const ColonyPosition: Cell := (MazeScale, MazeScale)
  const FoodPosition: Cell := (MazeSize - MazeScale - 1, MazeSize - MazeScale - 1)

  type Grid = seq<seq<int>>
  type Field = seq<seq<real>>

  /** (i, j) indexes the grid value g. */
  predicate Within<T>(g: seq<seq<T>>, c: Cell) {
    0 <= c.0 < |g| && 0 <= c.1 < |g[c.0]|
  }

  predicate AllWithin<T>(g: seq<seq<T>>, cells: seq<Cell>) {
    forall k :: 0 <= k < |cells| ==> Within(g, cells[k])
  }

  /** The grid and the pheromone field are rectangles of the same size. */
  predicate Shaped(grid: Grid, field: Field) {
    |grid| > 0 && IsRect(grid, |grid|, |grid[0]|) && IsRect(field, |grid|, |grid[0]|)
  }

  /** Every cell on the outer border of the grid is a wall. */
  predicate BorderWalls(grid: Grid) {
    forall i, j :: 0 <= i < |grid| && 0 <= j < |grid[i]| && (i == 0 || i == |grid| - 1 || j == 0 || j == |grid[i]| - 1) ==>
      grid[i][j] == Wall
  }

  /** c is not on the border, so all four neighbours index the grid. */
  predicate Interior<T>(grid: seq<seq<T>>, c: Cell)
    requires |grid| > 0
  {
    0 < c.0 < |grid| - 1 && 0 < c.1 < |grid[0]| - 1
  }

  /** Every pheromone level lies in [0, max_pheromone]. */
  predicate FieldInRange(field: Field) {
    forall i, j :: 0 <= i < |field| && 0 <= j < |field[i]| ==> 0.0 <= field[i][j] <= MaxPheromone
  }

  /** A permutation oracle: whatever it is given, it returns a reordering. */
  ghost predicate IsShuffler(shuffle: seq<Cell> -> seq<Cell>) {
    forall s {:trigger multiset(shuffle(s))} :: multiset(shuffle(s)) == multiset(s)
  }

  /** The random outcomes one ant step may consume. */
  datatype Draw = Draw(shuffle: seq<Cell> -> seq<Cell>, uniform: real -> real)

  /** `uniform(t)` is the outcome of `np.random.uniform(0, t)`, a number between 0 and t. */
  ghost predicate ValidDraw(d: Draw) {
    IsShuffler(d.shuffle) && forall t :: 0.0 <= t ==> 0.0 <= d.uniform(t) <= t
  }

  /** What an ant is: its position, the cells it has visited, its path, and whether it carries food. */
  datatype AntView = AntView(position: Cell, visited: set<Cell>, path: seq<Cell>, hasfood: bool)

  /** An ant standing at the colony with nothing visited but the colony. */
  function Home(colony: Cell): (a: AntView)
    ensures a.position == colony && a.visited == {colony} && a.path == [colony] && !a.hasfood
  {
    AntView(colony, {colony}, [colony], false)
  }

  /** The first filter of `choose_cells_based_on_pheromones`: drop the walls. */
  function NonWalls(grid: Grid, cells: seq<Cell>): (r: seq<Cell>)
    requires AllWithin(grid, cells)
    ensures |r| <= |cells|
  {
    if cells == [] then []
    else (if grid[cells[0].0][cells[0].1] != Wall then [cells[0]] else []) + NonWalls(grid, cells[1..])
  }

  /** The first filter keeps exactly the listed cells that are not walls. */
  lemma {:induction false} NonWallsMembers(grid: Grid, cells: seq<Cell>)
    requires AllWithin(grid, cells)
    ensures forall c :: c in NonWalls(grid, cells) <==> c in cells && grid[c.0][c.1] != Wall
    decreases |cells|
  {
    if cells != [] {
      NonWallsMembers(grid, cells[1..]);
      assert cells == [cells[0]] + cells[1..];
    }
  }

  /** The second filter: drop the visited cells. */
  function Unvisited(cells: seq<Cell>, visited: set<Cell>): (r: seq<Cell>)
    ensures |r| <= |cells|
  {
    if cells == [] then []
    else (if cells[0] !in visited then [cells[0]] else []) + Unvisited(cells[1..], visited)
  }

  /** The second filter keeps exactly the listed cells not yet visited. */
  lemma {:induction false} UnvisitedMembers(cells: seq<Cell>, visited: set<Cell>)
    ensures forall c :: c in Unvisited(cells, visited) <==> c in cells && c !in visited
    decreases |cells|
  {
    if cells != [] {
      UnvisitedMembers(cells[1..], visited);
      assert cells == [cells[0]] + cells[1..];
    }
  }

  /** The cells an ant may move to: adjacent cells that are neither walls nor visited, in their listed order. */
  function Candidates(grid: Grid, visited: set<Cell>, adj: seq<Cell>): (r: seq<Cell>)
    requires AllWithin(grid, adj)
    ensures AllWithin(grid, r) && |r| <= |adj|
  {
    CandidatesMembers(grid, visited, adj);
    Unvisited(NonWalls(grid, adj), visited)
  }

  /** The candidates are exactly the listed cells that are neither walls nor visited. */
  lemma CandidatesMembers(grid: Grid, visited: set<Cell>, adj: seq<Cell>)
    requires AllWithin(grid, adj)
    ensures forall c :: c in Unvisited(NonWalls(grid, adj), visited) <==>
              c in adj && grid[c.0][c.1] != Wall && c !in visited
  {
    NonWallsMembers(grid, adj);
    UnvisitedMembers(NonWalls(grid, adj), visited);
  }

  /** The running sum of `pheromone + 0.1` over the first k cells. */
  function Accumulated(field: Field, cells: seq<Cell>, k: nat): real
    requires k <= |cells| && AllWithin(field, cells)
  {
    if k == 0 then 0.0
    else Accumulated(field, cells, k - 1) + field[cells[k - 1].0][cells[k - 1].1] + BaseChance
  }

  /**
   * The roulette loop, from index k on: the first index whose running sum
   * reaches the pick, or |cells| when none does.
   */
  function RouletteIndex(field: Field, cells: seq<Cell>, pick: real, k: nat): (i: nat)
    requires k <= |cells| && AllWithin(field, cells)
    ensures k <= i <= |cells|
    ensures i < |cells| ==> Accumulated(field, cells, i + 1) >= pick
    ensures forall j :: k < j <= i ==> Accumulated(field, cells, j) < pick
    decreases |cells| - k
  {
    if k == |cells| then k
    else if Accumulated(field, cells, k + 1) >= pick then k
    else RouletteIndex(field, cells, pick, k + 1)
  }

  /**
   * `choose_cells_based_on_pheromones`: None (the source's `False`) when no
   * candidate is left; the head of the shuffled candidates when the
   * running total equals `len * 0.1`; otherwise the roulette pick for
   * `uniform(0, total)`.
   */
  function Choose(grid: Grid, field: Field, visited: set<Cell>, adj: seq<Cell>, draw: Draw): (r: Option<Cell>)
    requires Shaped(grid, field) && AllWithin(grid, adj) && ValidDraw(draw)
    ensures r.Some? ==> r.value in adj && grid[r.value.0][r.value.1] != Wall && r.value !in visited
  {
    CandidatesMembers(grid, visited, adj);
    var cands := Candidates(grid, visited, adj);
    if |cands| == 0 then None
    else
      var total := Accumulated(field, cands, |cands|);
      if total == |cands| as real * BaseChance then
        var shuffled := draw.shuffle(cands);
        assert |shuffled| == |multiset(shuffled)| == |cands|;
        assert shuffled[0] in multiset(cands);
        Some(shuffled[0])
      else
        var i := RouletteIndex(field, cands, draw.uniform(total), 0);
        if i < |cands| then Some(cands[i]) else None
  }

  /** Every listed cell holds a non-negative pheromone level. */
  predicate NonNegativeOn(field: Field, cells: seq<Cell>)
    requires AllWithin(field, cells)
  {
    forall k :: 0 <= k < |cells| ==> field[cells[k].0][cells[k].1] >= 0.0
  }

  /** No listed cell holds any pheromone. */
  predicate ZeroOn(field: Field, cells: seq<Cell>)
    requires AllWithin(field, cells)
  {
    forall k :: 0 <= k < |cells| ==> field[cells[k].0][cells[k].1] == 0.0
  }

  /** Cells inside the grid are inside a field of its shape, where pheromone is non-negative. */
  lemma FieldOnCells(grid: Grid, field: Field, cells: seq<Cell>)
    requires Shaped(grid, field) && AllWithin(grid, cells) && FieldInRange(field)
    ensures AllWithin(field, cells) && NonNegativeOn(field, cells)
  {
    assert forall k :: 0 <= k < |cells| ==> Within(grid, cells[k]);
  }

  /**
   * With non-negative pheromones the running total is at least
   * `k * 0.1`, and equals it exactly when no counted cell has pheromone.
   */
  lemma {:induction false} AccumulatedFloor(field: Field, cells: seq<Cell>, k: nat)
    requires k <= |cells| && AllWithin(field, cells) && NonNegativeOn(field, cells)
    ensures Accumulated(field, cells, k) >= k as real * BaseChance
    ensures Accumulated(field, cells, k) == k as real * BaseChance <==>
              (forall j :: 0 <= j < k ==> field[cells[j].0][cells[j].1] == 0.0)
  {
    if k > 0 {
      AccumulatedFloor(field, cells, k - 1);
    }
  }

  /** With non-negative pheromones the running sums grow by at least 0.1 per cell. */
  lemma {:induction false} AccumulatedIncreasing(field: Field, cells: seq<Cell>, j: nat, k: nat)
    requires j < k <= |cells| && AllWithin(field, cells) && NonNegativeOn(field, cells)
    ensures Accumulated(field, cells, j) < Accumulated(field, cells, k)
    decreases k
  {
    if j < k - 1 {
      AccumulatedIncreasing(field, cells, j, k - 1);
    }
  }

  /**
   * The roulette gives cell i the interval of picks from the running sum
   * before it (exclusive) up to the running sum after it (inclusive): a
   * width equal to its weight `pheromone + 0.1`.
   */
  lemma RouletteInterval(field: Field, cells: seq<Cell>, pick: real, i: nat)
    requires i < |cells| && AllWithin(field, cells) && NonNegativeOn(field, cells)
    ensures RouletteIndex(field, cells, pick, 0) == i <==>
              (i == 0 || Accumulated(field, cells, i) < pick) && pick <= Accumulated(field, cells, i + 1)
  {
    var r := RouletteIndex(field, cells, pick, 0);
    if (i == 0 || Accumulated(field, cells, i) < pick) && pick <= Accumulated(field, cells, i + 1) {
      if r < i && r + 1 < i {
        AccumulatedIncreasing(field, cells, r + 1, i);
      }
    }
  }

  /** A pick no larger than the total always lands on a cell. */
  lemma RouletteLands(field: Field, cells: seq<Cell>, pick: real)
    requires 0 < |cells| && AllWithin(field, cells)
    requires pick <= Accumulated(field, cells, |cells|)
    ensures RouletteIndex(field, cells, pick, 0) < |cells|
  {
  }

  /**
   * With non-negative pheromones `choose_cells_based_on_pheromones`
   * returns nothing exactly when there is no candidate: the final
   * `return False` of the roulette is never reached.
   */
  lemma ChooseNoneIff(grid: Grid, field: Field, visited: set<Cell>, adj: seq<Cell>, draw: Draw)
    requires Shaped(grid, field) && AllWithin(grid, adj) && ValidDraw(draw)
    requires FieldInRange(field)
    ensures Choose(grid, field, visited, adj, draw) == None <==> Candidates(grid, visited, adj) == []
  {
    var cands := Candidates(grid, visited, adj);
    if |cands| > 0 {
      FieldOnCells(grid, field, cands);
      var total := Accumulated(field, cands, |cands|);
      AccumulatedFloor(field, cands, |cands|);
      RouletteLands(field, cands, draw.uniform(total));
    }
  }

  /**
   * Which branch `choose_cells_based_on_pheromones` takes: the shuffle when
   * no candidate carries pheromone, otherwise the roulette.
   */
  lemma ChooseBranches(grid: Grid, field: Field, visited: set<Cell>, adj: seq<Cell>, draw: Draw)
    requires Shaped(grid, field) && AllWithin(grid, adj) && ValidDraw(draw)
    requires FieldInRange(field)
    requires Candidates(grid, visited, adj) != []
    ensures AllWithin(field, Candidates(grid, visited, adj))
    ensures var cands := Candidates(grid, visited, adj);
            var i := RouletteIndex(field, cands, draw.uniform(Accumulated(field, cands, |cands|)), 0);
            if ZeroOn(field, cands)
            then Choose(grid, field, visited, adj, draw) == Some(draw.shuffle(cands)[0])
            else i < |cands| && Choose(grid, field, visited, adj, draw) == Some(cands[i])
  {
    var cands := Candidates(grid, visited, adj);
    FieldOnCells(grid, field, cands);
    AccumulatedFloor(field, cands, |cands|);
    ChooseNoneIff(grid, field, visited, adj, draw);
  }

  /** `min(p + pheromone_deposit, max_pheromone)` written at c. */
  function Deposit(field: Field, c: Cell): (f: Field)
    requires Within(field, c)
    ensures |f| == |field| && forall i :: 0 <= i < |f| ==> |f[i]| == |field[i]|
    ensures f[c.0][c.1] <= MaxPheromone
    ensures field[c.0][c.1] <= MaxPheromone ==> field[c.0][c.1] <= f[c.0][c.1] <= field[c.0][c.1] + PheromoneDeposit
    ensures forall i, j :: 0 <= i < |f| && 0 <= j < |f[i]| && (i, j) != c ==> f[i][j] == field[i][j]
  {
    var p := field[c.0][c.1] + PheromoneDeposit;
    SetCell(field, c.0, c.1, if p <= MaxPheromone then p else MaxPheromone)
  }

  /** `self.path.pop()` and then, if any path is left, stand on its last cell. */
  function Backtrack(a: AntView, field: Field): (r: Result<(AntView, Field)>)
    ensures r.Raise? <==> a.path == []
    ensures r.Raise? ==> r.error == IndexError
    ensures r.Ok? ==> BackShape(a, r.value.0) && r.value.0.hasfood == a.hasfood && r.value.1 == field
  {
    if a.path == [] then Raise(IndexError)
    else
      var p := a.path[..|a.path| - 1];
      Ok((a.(path := p, position := if p == [] then a.position else p[|p| - 1]), field))
  }

  /** The three ways a step that does not raise leaves an ant. */
  predicate StepShape(a: AntView, a': AntView, colony: Cell, grid: Grid) {
    ResetShape(a, a', colony) || ForwardShape(a, a', grid) || BackShape(a, a')
  }

  /** Back at the colony with food: the ant starts over. */
  predicate ResetShape(a: AntView, a': AntView, colony: Cell) {
    a.position == colony && a' == Home(colony)
  }

  /** One step forward, without food, onto an adjacent, open, unvisited cell. */
  predicate ForwardShape(a: AntView, a': AntView, grid: Grid) {
    && !a.hasfood && !a'.hasfood
    && Adjacent(a.position, a'.position) && Within(grid, a'.position) && grid[a'.position.0][a'.position.1] != Wall
    && a'.position !in a.visited
    && a'.visited == a.visited + {a'.position} && a'.path == a.path + [a'.position]
  }

  /** One step back along the path: its last cell is dropped and the ant stands on the new last cell. */
  predicate BackShape(a: AntView, a': AntView) {
    && a.path != [] && a'.path == a.path[..|a.path| - 1] && a'.visited == a.visited
    && a'.position == (if a'.path == [] then a.position else a'.path[|a'.path| - 1])
  }

  /**
   * `Ant.step`: pick up food on the food cell; at the colony with food,
   * reset; elsewhere with food, lay pheromone on a plain cell and step back;
   * without food, move to the chosen cell or, with nothing to choose, step
   * back.  Stepping back with an empty path raises IndexError.
   */
  function StepAnt(a: AntView, colony: Cell, grid: Grid, field: Field, draw: Draw): (r: Result<(AntView, Field)>)
    requires Shaped(grid, field) && ValidDraw(draw)
    ensures r.Raise? ==> r.error == IndexError && (a.path == [] || !Interior(grid, a.position))
    ensures r.Ok? ==> Interior(grid, a.position) && StepShape(a, r.value.0, colony, grid) && Shaped(grid, r.value.1)
    ensures r.Ok? && r.value.0.position != colony ==>
              (r.value.0.hasfood <==> a.hasfood || grid[a.position.0][a.position.1] == Food)
    ensures r.Ok? ==>
              || r.value.1 == field
              || (&& r.value.1 == Deposit(field, a.position) && a.position != colony
                  && 0 <= grid[a.position.0][a.position.1] < 1)
  {
    if !Interior(grid, a.position) then Raise(IndexError)
    else
      var hasfood := a.hasfood || grid[a.position.0][a.position.1] == Food;
      if hasfood && a.position == colony then
        Ok((Home(colony), field))
      else if hasfood then
        CarryFood(a, grid, field)
      else
        Explore(a, grid, field, draw)
  }

  /** The ant has food away from the colony: lay pheromone on a plain cell, then step back. */
  function CarryFood(a: AntView, grid: Grid, field: Field): (r: Result<(AntView, Field)>)
    requires Shaped(grid, field) && Interior(grid, a.position)
    ensures r.Raise? ==> r.error == IndexError && a.path == []
    ensures r.Ok? ==> && BackShape(a, r.value.0) && r.value.0.hasfood && Shaped(grid, r.value.1)
                      && (|| r.value.1 == field
                          || (r.value.1 == Deposit(field, a.position) && 0 <= grid[a.position.0][a.position.1] < 1))
  {
    var v := grid[a.position.0][a.position.1];
    var field' := if 0 <= v < 1 then Deposit(field, a.position) else field;
    Backtrack(a.(hasfood := true), field')
  }

  /** The ant has no food: move to the chosen cell or, with nothing to choose, step back. */
  function Explore(a: AntView, grid: Grid, field: Field, draw: Draw): (r: Result<(AntView, Field)>)
    requires Shaped(grid, field) && ValidDraw(draw) && Interior(grid, a.position) && !a.hasfood
    ensures r.Raise? ==> r.error == IndexError && a.path == []
    ensures r.Ok? ==> (ForwardShape(a, r.value.0, grid) || BackShape(a, r.value.0)) && !r.value.0.hasfood
    ensures r.Ok? ==> r.value.1 == field
  {
    match Choose(grid, field, a.visited, Neighbours4(a.position), draw)
    case Some(c) => Ok((AntView(c, a.visited + {c}, a.path + [c], false), field))
    case None => Backtrack(a, field)
  }

  /** What holds of every ant between steps. */
  predicate AntOk(grid: Grid, a: AntView) {
    && (forall c :: c in a.visited ==> Within(grid, c) && grid[c.0][c.1] != Wall)
    && a.position in a.visited
    && (forall k :: 0 <= k < |a.path| ==> a.path[k] in a.visited)
    && (a.path != [] ==> a.path[|a.path| - 1] == a.position)
    && (forall k :: 0 <= k < |a.path| ==> WalkStep(a.path, k))
    && (forall k, l :: 0 <= k < l < |a.path| ==> Apart(a.path, k, l))
  }

  /** Consecutive cells of the path at k are neighbours. */
  predicate WalkStep(path: seq<Cell>, k: int) {
    0 <= k < |path| - 1 ==> Adjacent(path[k], path[k + 1])
  }

  /** Two different positions of the path hold different cells. */
  predicate Apart(path: seq<Cell>, k: int, l: int) {
    0 <= k < l < |path| ==> path[k] != path[l]
  }

  /** An open cell of a grid with wall borders is interior. */
  lemma OpenIsInterior(grid: Grid, c: Cell)
    requires |grid| > 0 && IsRect(grid, |grid|, |grid[0]|) && BorderWalls(grid)
    requires Within(grid, c) && grid[c.0][c.1] != Wall
    ensures Interior(grid, c)
  {
  }

  /**
   * A step keeps the ant on visited open cells, keeps its path a walk
   * without repeats ending where it stands, and keeps the pheromone field
   * in range.
   */
  lemma StepKeepsAntOk(a: AntView, colony: Cell, grid: Grid, field: Field, draw: Draw)
    requires Shaped(grid, field) && BorderWalls(grid) && ValidDraw(draw)
    requires AntOk(grid, a) && FieldInRange(field)
    requires Within(grid, colony) && grid[colony.0][colony.1] != Wall
    ensures Interior(grid, a.position)
    ensures var r := StepAnt(a, colony, grid, field, draw);
            r.Ok? ==> AntOk(grid, r.value.0) && FieldInRange(r.value.1) && Shaped(grid, r.value.1)
  {
    OpenIsInterior(grid, a.position);
    var r := StepAnt(a, colony, grid, field, draw);
    if r.Ok? {
      ShapeKeepsAntOk(grid, colony, a, r.value.0);
      if r.value.1 != field {
        DepositKeepsRange(field, a.position);
      }
    }
  }

  /** Each of the three ways a step leaves an ant keeps the ant well formed. */
  lemma ShapeKeepsAntOk(grid: Grid, colony: Cell, a: AntView, a': AntView)
    requires AntOk(grid, a) && StepShape(a, a', colony, grid)
    requires Within(grid, colony) && grid[colony.0][colony.1] != Wall
    ensures AntOk(grid, a')
  {
    if ResetShape(a, a', colony) {
    } else if ForwardShape(a, a', grid) {
      ForwardKeepsAntOk(grid, a, a');
    } else {
      BackKeepsAntOk(grid, a, a');
    }
  }

  /** Depositing keeps the pheromone field in range. */
  lemma DepositKeepsRange(field: Field, c: Cell)
    requires Within(field, c) && FieldInRange(field)
    ensures FieldInRange(Deposit(field, c))
  {
    var f := Deposit(field, c);
    forall i, j | 0 <= i < |f| && 0 <= j < |f[i]| ensures 0.0 <= f[i][j] <= MaxPheromone {
      if (i, j) != c {
        assert f[i][j] == field[i][j];
      }
    }
  }

  /** A step forward onto an adjacent open cell not visited before keeps the ant well formed. */
  lemma ForwardKeepsAntOk(grid: Grid, a: AntView, a': AntView)
    requires AntOk(grid, a) && ForwardShape(a, a', grid)
    ensures AntOk(grid, a')
  {
    forall k | 0 <= k < |a'.path| ensures WalkStep(a'.path, k) {
      assert WalkStep(a.path, k);
    }
    forall k, l | 0 <= k < l < |a'.path| ensures Apart(a'.path, k, l) {
      if l == |a.path| {
        assert a.path[k] in a.visited;
      } else {
        assert Apart(a.path, k, l);
      }
    }
  }

  /** A step back along a non-empty path keeps the ant well formed. */
  lemma BackKeepsAntOk(grid: Grid, a: AntView, a': AntView)
    requires AntOk(grid, a) && BackShape(a, a')
    ensures AntOk(grid, a')
  {
    var p := a'.path;
    assert forall k :: 0 <= k < |p| ==> p[k] == a.path[k];
    forall k | 0 <= k < |p| ensures WalkStep(p, k) {
      assert WalkStep(a.path, k);
    }
    forall k, l | 0 <= k < l < |p| ensures Apart(p, k, l) {
      assert Apart(a.path, k, l);
    }
  }

  /** The per-ant check of `update`: an ant at the colony with food is counted and reset. */
  function Deliver(a: AntView, colony: Cell): (r: (AntView, bool))
    ensures r.1 <==> a.hasfood && a.position == colony
    ensures r.1 ==> r.0 == Home(colony)
    ensures !r.1 ==> r.0 == a
  {
    if a.hasfood && a.position == colony then (Home(colony), true) else (a, false)
  }

  /** `self.pheromones *= (1 - decay_rate)`. */
  function Decay(field: Field): (f: Field)
    ensures |f| == |field| && forall i :: 0 <= i < |f| ==> |f[i]| == |field[i]|
    ensures forall i, j :: 0 <= i < |f| && 0 <= j < |f[i]| ==> f[i][j] == field[i][j] * (1.0 - DecayRate)
  {
    seq(|field|, i requires 0 <= i < |field| =>
      seq(|field[i]|, j requires 0 <= j < |field[i]| => field[i][j] * (1.0 - DecayRate)))
  }

  /** Decay only lowers pheromone, never below zero. */
  lemma DecayKeepsRange(field: Field)
    requires FieldInRange(field)
    ensures FieldInRange(Decay(field))
    ensures forall i, j :: 0 <= i < |field| && 0 <= j < |field[i]| ==> Decay(field)[i][j] <= field[i][j]
  {
  }

  /** The model state `update` works on. */
  datatype World = World(ants: seq<AntView>, field: Field, foodFound: nat, foodDiscovered: bool)

  /** The state invariant: shapes, wall borders, well-formed ants, pheromone in range. */
  predicate WorldOk(w: World, colony: Cell, grid: Grid) {
    && Shaped(grid, w.field) && BorderWalls(grid) && FieldInRange(w.field)
    && Within(grid, colony) && grid[colony.0][colony.1] != Wall
    && forall k {:trigger AntOk(grid, w.ants[k])} :: 0 <= k < |w.ants| ==> AntOk(grid, w.ants[k])
  }

  /** `grid[colony_position] = colony` and `grid[food_position] = food`. */
  function MarkColonyAndFood(maze: Grid): (g: Grid)
    requires Within(maze, ColonyPosition) && Within(maze, FoodPosition)
    ensures |g| == |maze| && forall i :: 0 <= i < |g| ==> |g[i]| == |maze[i]|
    ensures g[ColonyPosition.0][ColonyPosition.1] == Colony && g[FoodPosition.0][FoodPosition.1] == Food
    ensures forall i, j :: 0 <= i < |g| && 0 <= j < |g[i]| && (i, j) != ColonyPosition && (i, j) != FoodPosition ==>
              g[i][j] == maze[i][j]
  {
    SetCell(SetCell(maze, ColonyPosition.0, ColonyPosition.1, Colony), FoodPosition.0, FoodPosition.1, Food)
  }

  /**
   * The start of a run satisfies the state invariant: in a wall-bordered
   * maze large enough for the food cell to lie off the border, with colony
   * and food marked, no pheromone and every ant at home.
   */
  lemma StartIsOk(maze: Grid, field: Field, ants: seq<AntView>)
    requires |maze| > FoodPosition.0 + 1 && IsRect(maze, |maze|, |maze[0]|) && |maze[0]| > FoodPosition.1 + 1
    requires BorderWalls(maze) && IsRect(field, |maze|, |maze[0]|)
    requires forall i, j :: 0 <= i < |field| && 0 <= j < |field[i]| ==> field[i][j] == 0.0
    requires forall k :: 0 <= k < |ants| ==> ants[k] == Home(ColonyPosition)
    ensures WorldOk(World(ants, field, 0, false), ColonyPosition, MarkColonyAndFood(maze))
  {
    var g := MarkColonyAndFood(maze);
    assert |g[0]| == |maze[0]|;
    assert Shaped(g, field);
    forall k | 0 <= k < |ants| ensures AntOk(g, ants[k]) {
      assert ants[k].visited == {ColonyPosition};
    }
  }

  /**
   * How one ant steps inside `update`: given the ant, the field and the
   * ant's index in the list, the outcome of its step.
   */
  type AntStepper = (AntView, Field, nat) -> Result<(AntView, Field)>

  /**
   * The step of `update` for the ants of one tick: ant k calls `step` with
   * the k-th draw.  The guard is never false where the step is used (see
   * `TickStepIsStep`); it only makes the step total.
   */
  ghost function TickStep(colony: Cell, grid: Grid, draws: seq<Draw>): AntStepper {
    (a: AntView, f: Field, k: nat) =>
      if k < |draws| && Shaped(grid, f) && ValidDraw(draws[k]) then StepAnt(a, colony, grid, f, draws[k])
      else Raise(IndexError)
  }

  /** On a field of the grid's shape, the step of ant k is `Ant.step` with the k-th draw. */
  lemma TickStepIsStep(colony: Cell, grid: Grid, draws: seq<Draw>, k: nat)
    requires k < |draws| && ValidDraw(draws[k])
    ensures forall a: AntView, f: Field | Shaped(grid, f) ::
              TickStep(colony, grid, draws)(a, f, k) == StepAnt(a, colony, grid, f, draws[k])
  {
  }

  /** `step` agrees everywhere with the step of a tick. */
  ghost predicate StepsAsTick(step: AntStepper, colony: Cell, grid: Grid, draws: seq<Draw>) {
    forall a, f, k {:trigger TickStep(colony, grid, draws)(a, f, k)} ::
      step(a, f, k) == TickStep(colony, grid, draws)(a, f, k)
  }

  /** What a run of the ants needs: `step` is the tick's stand-in and the starting state keeps the invariant. */
  ghost predicate Planned(step: AntStepper, colony: Cell, grid: Grid, draws: seq<Draw>, views0: seq<AntView>, field0: Field) {
    StepsAsTick(step, colony, grid, draws) && WorldOk(World(views0, field0, 0, false), colony, grid)
  }

  /** On fields of the grid's shape, `step` moves ant k as `StepAnt` does with `draw`. */
  ghost predicate StepsAsDraw(step: AntStepper, colony: Cell, grid: Grid, draw: Draw, k: nat) {
    ValidDraw(draw) &&
    forall a: AntView, f: Field {:trigger StepAnt(a, colony, grid, f, draw)} | Shaped(grid, f) ::
      step(a, f, k) == StepAnt(a, colony, grid, f, draw)
  }

  /**
   * The loop of `update` over its first n ants: each steps (a raise stops
   * everything) and is then checked for delivery.  Returns the ants, the
   * field and how many delivered.
   */
  function RunAnts(ants: seq<AntView>, colony: Cell, field: Field, step: AntStepper, n: nat)
    : (r: Result<(seq<AntView>, Field, nat)>)
    requires n <= |ants|
    ensures r.Ok? ==> |r.value.0| == |ants| && r.value.2 <= n
    decreases n
  {
    if n == 0 then Ok((ants, field, 0))
    else
      match RunAnts(ants, colony, field, step, n - 1)
      case Raise(e) => Raise(e)
      case Ok((vs, f, d)) =>
        match step(vs[n - 1], f, n - 1)
        case Raise(e) => Raise(e)
        case Ok((a, f')) =>
          var (a', delivered) := Deliver(a, colony);
          Ok((vs[n - 1 := a'], f', d + if delivered then 1 else 0))
  }

  /** One more ant in the loop of `update`: its step, then the delivery check. */
  lemma RunAntsNext(ants: seq<AntView>, colony: Cell, field: Field, step: AntStepper, n: nat,
                    vs: seq<AntView>, f: Field, d: nat)
    requires n < |ants| && RunAnts(ants, colony, field, step, n) == Ok((vs, f, d))
    ensures n < |vs|
    ensures RunAnts(ants, colony, field, step, n + 1) ==
              match step(vs[n], f, n)
              case Raise(e) => Raise(e)
              case Ok((a, f')) =>
                Ok((vs[n := Deliver(a, colony).0], f', d + if Deliver(a, colony).1 then 1 else 0))
  {
  }

  /**
   * One more ant in the loop of `update`, for a step function that is
   * `StepAnt` with a known draw at that index: the ant stands inside the
   * border, the run raises exactly when that step does, and otherwise the
   * state invariant carries over.
   */
  lemma RunAntsAdvance(ants: seq<AntView>, colony: Cell, grid: Grid, field: Field, step: AntStepper, draw: Draw,
                       n: nat, vs: seq<AntView>, f: Field, d: nat)
    requires n < |ants| && RunAnts(ants, colony, field, step, n) == Ok((vs, f, d))
    requires StepsAsDraw(step, colony, grid, draw, n) && WorldOk(World(vs, f, 0, false), colony, grid)
    ensures n < |vs| && Interior(grid, vs[n].position) && Shaped(grid, f)
    ensures var s := step(vs[n], f, n);
            var t := RunAnts(ants, colony, field, step, n + 1);
            && (t.Ok? <==> s.Ok?)
            && (s.Ok? ==> var (a, delivered) := Deliver(s.value.0, colony);
                            && t == Ok((vs[n := a], s.value.1, d + if delivered then 1 else 0))
                            && WorldOk(World(vs[n := a], s.value.1, 0, false), colony, grid))
  {
    RunAntsNext(ants, colony, field, step, n, vs, f, d);
    OneAntKeepsWorldOk(vs, colony, grid, f, draw, n);
    assert step(vs[n], f, n) == StepAnt(vs[n], colony, grid, f, draw);
  }

  /** Once the loop of `update` has raised, it stays raised with the same error. */
  lemma {:induction false} RaiseStops(ants: seq<AntView>, colony: Cell, field: Field, step: AntStepper, m: nat, n: nat)
    requires m <= n <= |ants| && RunAnts(ants, colony, field, step, m).Raise?
    ensures RunAnts(ants, colony, field, step, n) == RunAnts(ants, colony, field, step, m)
    decreases n - m
  {
    if m < n {
      RaiseStops(ants, colony, field, step, m, n - 1);
    }
  }

  /** Two step functions that agree everywhere run the loop of `update` alike. */
  lemma {:induction false} RunAntsSameSteps(ants: seq<AntView>, colony: Cell, field: Field, s1: AntStepper,
                                            s2: AntStepper, n: nat)
    requires n <= |ants| && forall a, f, k {:trigger s2(a, f, k)} :: s1(a, f, k) == s2(a, f, k)
    ensures RunAnts(ants, colony, field, s1, n) == RunAnts(ants, colony, field, s2, n)
    decreases n
  {
    if n > 0 {
      RunAntsSameSteps(ants, colony, field, s1, s2, n - 1);
    }
  }

  /** The loop of `update` leaves no ant it has reached at the colony with food: each such ant was counted and reset. */
  lemma {:induction false} RunAntsDelivers(ants: seq<AntView>, colony: Cell, field: Field, step: AntStepper, n: nat)
    requires n <= |ants|
    ensures var r := RunAnts(ants, colony, field, step, n);
            r.Ok? ==> forall k :: 0 <= k < n ==> !(r.value.0[k].hasfood && r.value.0[k].position == colony)
    decreases n
  {
    if n > 0 {
      RunAntsDelivers(ants, colony, field, step, n - 1);
      var prev := RunAnts(ants, colony, field, step, n - 1);
      if prev.Ok? {
        var (vs, f, d) := prev.value;
        RunAntsNext(ants, colony, field, step, n - 1, vs, f, d);
      }
    }
  }

  /** The loop of `update` over its first n ants leaves the other ants alone. */
  lemma {:induction false} RunAntsLeavesRest(ants: seq<AntView>, colony: Cell, field: Field, step: AntStepper, n: nat)
    requires n <= |ants|
    ensures var r := RunAnts(ants, colony, field, step, n);
            r.Ok? ==> forall k :: n <= k < |ants| ==> r.value.0[k] == ants[k]
    decreases n
  {
    if n > 0 {
      RunAntsLeavesRest(ants, colony, field, step, n - 1);
    }
  }

  /** Stepping and delivering any one ant keeps the state invariant, and the ant is not left home with food. */
  lemma OneAntKeepsWorldOk(vs: seq<AntView>, colony: Cell, grid: Grid, field: Field, draw: Draw, k: nat)
    requires k < |vs| && ValidDraw(draw) && WorldOk(World(vs, field, 0, false), colony, grid)
    ensures Interior(grid, vs[k].position)
    ensures var r := StepAnt(vs[k], colony, grid, field, draw);
            r.Ok? ==> var a := Deliver(r.value.0, colony).0;
                      && WorldOk(World(vs[k := a], r.value.1, 0, false), colony, grid)
                      && !(a.hasfood && a.position == colony)
  {
    StepKeepsAntOk(vs[k], colony, grid, field, draw);
    var r := StepAnt(vs[k], colony, grid, field, draw);
    if r.Ok? {
      var a := Deliver(r.value.0, colony).0;
      assert AntOk(grid, a);
      var vs' := vs[k := a];
      assert forall i :: 0 <= i < |vs'| ==> AntOk(grid, vs'[i]);
    }
  }

  /** A step function under which stepping and delivering any one ant keeps the state invariant. */
  ghost predicate KeepsWorldOk(step: AntStepper, colony: Cell, grid: Grid) {
    forall vs: seq<AntView>, f: Field, k: nat | k < |vs| && WorldOk(World(vs, f, 0, false), colony, grid) ::
      var r := step(vs[k], f, k);
      r.Ok? ==> WorldOk(World(vs[k := Deliver(r.value.0, colony).0], r.value.1, 0, false), colony, grid)
  }

  /** The step of a tick keeps the state invariant. */
  lemma TickStepKeepsWorldOk(colony: Cell, grid: Grid, draws: seq<Draw>)
    requires forall k :: 0 <= k < |draws| ==> ValidDraw(draws[k])
    ensures KeepsWorldOk(TickStep(colony, grid, draws), colony, grid)
  {
    forall vs: seq<AntView>, f: Field, k: nat | k < |vs| && WorldOk(World(vs, f, 0, false), colony, grid)
      ensures var r := TickStep(colony, grid, draws)(vs[k], f, k);
              r.Ok? ==> WorldOk(World(vs[k := Deliver(r.value.0, colony).0], r.value.1, 0, false), colony, grid)
    {
      if k < |draws| {
        OneAntKeepsWorldOk(vs, colony, grid, f, draws[k], k);
      }
    }
  }

  /** The loop of `update` keeps the state invariant when every single step does. */
  lemma {:induction false} RunAntsKeepsWorldOk(ants: seq<AntView>, colony: Cell, grid: Grid, field: Field,
                                               step: AntStepper, n: nat)
    requires n <= |ants| && KeepsWorldOk(step, colony, grid)
    requires WorldOk(World(ants, field, 0, false), colony, grid)
    ensures var r := RunAnts(ants, colony, field, step, n);
            r.Ok? ==> WorldOk(World(r.value.0, r.value.1, 0, false), colony, grid)
    decreases n
  {
    if n > 0 {
      RunAntsKeepsWorldOk(ants, colony, grid, field, step, n - 1);
      var prev := RunAnts(ants, colony, field, step, n - 1);
      if prev.Ok? {
        var (vs, f, d) := prev.value;
        assert WorldOk(World(vs, f, 0, false), colony, grid);
        assert n - 1 < |vs|;
      }
    }
  }

  /** The first n ants of a tick, run by any stepper that agrees with the tick's own, keep the state invariant. */
  lemma RunByTickKeepsWorldOk(ants: seq<AntView>, colony: Cell, grid: Grid, field: Field, step: AntStepper,
                              draws: seq<Draw>, n: nat, vs: seq<AntView>, f: Field, d: nat)
    requires n <= |ants| && forall k :: 0 <= k < |draws| ==> ValidDraw(draws[k])
    requires StepsAsTick(step, colony, grid, draws)
    requires WorldOk(World(ants, field, 0, false), colony, grid)
    requires RunAnts(ants, colony, field, step, n) == Ok((vs, f, d))
    ensures WorldOk(World(vs, f, 0, false), colony, grid)
  {
    var tick := TickStep(colony, grid, draws);
    TickStepKeepsWorldOk(colony, grid, draws);
    RunAntsSameSteps(ants, colony, field, step, tick, n);
    RunAntsKeepsWorldOk(ants, colony, grid, field, tick, n);
  }

  /** Decaying the field keeps the state invariant. */
  lemma DecayKeepsWorldOk(w: World, colony: Cell, grid: Grid)
    requires WorldOk(w, colony, grid)
    ensures WorldOk(World(w.ants, Decay(w.field), 0, false), colony, grid)
  {
    DecayKeepsRange(w.field);
  }

  /**
   * `Model.update`: decay the field once, then step every ant in order.
   * Every delivery adds one to `food_found` and sets `food_discovered`.
   */
  ghost function Tick(w: World, colony: Cell, grid: Grid, draws: seq<Draw>): (r: Result<World>)
    ensures r.Ok? ==> && |r.value.ants| == |w.ants|
                      && w.foodFound <= r.value.foodFound <= w.foodFound + |w.ants|
                      && (r.value.foodDiscovered <==> w.foodDiscovered || r.value.foodFound > w.foodFound)
  {
    TickWith(w, colony, TickStep(colony, grid, draws))
  }

  /** A tick in which each ant steps by `step`: the loop of `update` over the decayed field, then the counters. */
  function TickWith(w: World, colony: Cell, step: AntStepper): (r: Result<World>)
    ensures r.Ok? ==> && |r.value.ants| == |w.ants|
                      && w.foodFound <= r.value.foodFound <= w.foodFound + |w.ants|
                      && (r.value.foodDiscovered <==> w.foodDiscovered || r.value.foodFound > w.foodFound)
  {
    var r := RunAnts(w.ants, colony, Decay(w.field), step, |w.ants|);
    if r.Raise? then Raise(r.error)
    else Ok(World(r.value.0, r.value.1, w.foodFound + r.value.2, w.foodDiscovered || r.value.2 > 0))
  }

  /** Ticks with two step functions that agree everywhere end alike. */
  lemma TickWithSameSteps(w: World, colony: Cell, s1: AntStepper, s2: AntStepper)
    requires forall a, f, k {:trigger s2(a, f, k)} :: s1(a, f, k) == s2(a, f, k)
    ensures TickWith(w, colony, s1) == TickWith(w, colony, s2)
  {
    RunAntsSameSteps(w.ants, colony, Decay(w.field), s1, s2, |w.ants|);
  }

  /** A tick is the tick with any step function that agrees with its own. */
  lemma TickByStep(w: World, colony: Cell, grid: Grid, draws: seq<Draw>, step: AntStepper)
    requires StepsAsTick(step, colony, grid, draws)
    ensures Tick(w, colony, grid, draws) == TickWith(w, colony, step)
  {
    TickWithSameSteps(w, colony, step, TickStep(colony, grid, draws));
  }

  /**
   * A tick from a good state ends, if it does not raise, in a good state
   * where no ant stands at the colony with food.
   */
  lemma TickKeepsWorldOk(w: World, colony: Cell, grid: Grid, draws: seq<Draw>)
    requires forall k :: 0 <= k < |draws| ==> ValidDraw(draws[k])
    requires WorldOk(w, colony, grid)
    ensures var r := Tick(w, colony, grid, draws);
            r.Ok? ==> && WorldOk(r.value, colony, grid)
                      && forall k :: 0 <= k < |w.ants| ==> !(r.value.ants[k].hasfood && r.value.ants[k].position == colony)
  {
    var step := TickStep(colony, grid, draws);
    DecayKeepsWorldOk(w, colony, grid);
    TickStepKeepsWorldOk(colony, grid, draws);
    RunAntsKeepsWorldOk(w.ants, colony, grid, Decay(w.field), step, |w.ants|);
    RunAntsDelivers(w.ants, colony, Decay(w.field), step, |w.ants|);
  }
}
