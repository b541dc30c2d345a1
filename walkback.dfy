/**
 * The objects of `ant_model_walkback.py`: the `Ant` whose fields `step`
 * updates and the `Model` whose `update` decays the shared pheromone array
 * and steps every ant.  Each method is proved against the value-level rules
 * in `WalkbackRules`: after a call, the object's view is what the rules say.
 */
module AntModelWalkback {
  import opened Wrappers
  import opened Arrays
  import opened Cells
  import opened WalkbackRules

  class Ant {
    var position: Cell
    var visited: set<Cell>
    var path: seq<Cell>
    var hasfood: bool
    const colonyPosition: Cell
    const grid: array2<int>
    const pheromones: array2<real>

    /** The ant as a value. */
    function View(): AntView
      reads this
    {
      AntView(position, visited, path, hasfood)
    }

    /** A new ant stands on the colony, which is all it has visited and all its path. */
    constructor (maze: array2<int>, pheromones: array2<real>, colonyPosition: Cell)
      ensures View() == Home(colonyPosition)
      ensures grid == maze && this.pheromones == pheromones && this.colonyPosition == colonyPosition
    {
      position := colonyPosition;
      this.colonyPosition := colonyPosition;
      grid := maze;
      visited := {colonyPosition};
      path := [colonyPosition];
      hasfood := false;
      this.pheromones := pheromones;
    }

    /** `get_adjacent_cells`: the four orthogonal neighbours of the ant's position. */
    method GetAdjacentCells() returns (cells: seq<Cell>)
      ensures |cells| == 4 && forall c :: c in cells <==> Adjacent(position, c)
      ensures cells == Neighbours4(position)
    {
      var (x, y) := position;
      cells := [(x, y + 1), (x + 1, y), (x, y - 1), (x - 1, y)];
    }

    /**
     * `choose_cells_based_on_pheromones`: the two filters, the uniform case
     * when the summed weights are exactly `len * 0.1`, and otherwise the
     * roulette for `uniform(0, total)`.
     */
    method ChooseCellsBasedOnPheromones(adjCells: seq<Cell>, draw: Draw) returns (cell: Option<Cell>)
      requires Shaped(Snapshot(grid), Snapshot(pheromones)) && AllWithin(Snapshot(grid), adjCells)
      requires ValidDraw(draw)
      ensures cell == Choose(Snapshot(grid), Snapshot(pheromones), visited, adjCells, draw)
    {
      var cands := Candidates(Snapshot(grid), visited, adjCells);
      if |cands| == 0 {
        return None;
      }
      assert AllWithin(Snapshot(pheromones), cands);
      var total := TotalChance(cands);
      if total == |cands| as real * BaseChance {
        var shuffled := draw.shuffle(cands);
        assert |shuffled| == |multiset(shuffled)| == |cands|;
        return Some(shuffled[0]);
      }
      cell := Roulette(cands, draw.uniform(total));
    }

    /** The loop at lines 130-131: the sum of `pheromone + 0.1` over the cells. */
    method TotalChance(cells: seq<Cell>) returns (total: real)
      requires AllWithin(Snapshot(pheromones), cells)
      ensures total == Accumulated(Snapshot(pheromones), cells, |cells|)
    {
      ghost var field := Snapshot(pheromones);
      total := 0.0;
      for k := 0 to |cells|
        invariant total == Accumulated(field, cells, k)
      {
        total := total + pheromones[cells[k].0, cells[k].1] + BaseChance;
      }
    }

    /**
     * The roulette loop: the first cell whose running sum of weights
     * reaches the pick, or nothing.
     */
    method Roulette(cells: seq<Cell>, pick: real) returns (cell: Option<Cell>)
      requires AllWithin(Snapshot(pheromones), cells)
      ensures var i := RouletteIndex(Snapshot(pheromones), cells, pick, 0);
              cell == if i < |cells| then Some(cells[i]) else None
    {
      ghost var field := Snapshot(pheromones);
      var current := 0.0;
      for k := 0 to |cells|
        invariant current == Accumulated(field, cells, k)
        invariant forall j :: 0 < j <= k ==> Accumulated(field, cells, j) < pick
      {
        current := current + pheromones[cells[k].0, cells[k].1] + BaseChance;
        if current >= pick {
          RouletteStopsAt(field, cells, pick, 0, k);
          return Some(cells[k]);
        }
      }
      RouletteStopsAt(field, cells, pick, 0, |cells|);
      return None;
    }

    /**
     * `step`: the ant's new fields and the pheromone array are what
     * `StepAnt` gives, and the step raises exactly when `StepAnt` does.
     */
    method Step(draw: Draw) returns (r: Result<()>)
      requires Shaped(Snapshot(grid), Snapshot(pheromones)) && Interior(Snapshot(grid), position)
      requires ValidDraw(draw)
      modifies this, pheromones
      ensures var s := StepAnt(old(View()), colonyPosition, Snapshot(grid), old(Snapshot(pheromones)), draw);
              && (r.Ok? <==> s.Ok?) && (r.Raise? ==> r.error == s.error)
              && (s.Ok? ==> View() == s.value.0 && Snapshot(pheromones) == s.value.1)
    {
      ghost var a := View();
      ghost var field := Snapshot(pheromones);
      ghost var g := Snapshot(grid);
      var (x, y) := position;
      if grid[x, y] == Food {
        hasfood := true;
      }
      if hasfood {
        if position == colonyPosition {
          hasfood := false;
          visited := {position};
          path := [position];
          assert StepAnt(a, colonyPosition, g, field, draw) == Ok((View(), field));
          return Ok(());
        }
        assert StepAnt(a, colonyPosition, g, field, draw) == CarryFood(a, g, field);
        r := CarryFoodBack(a);
      } else {
        assert StepAnt(a, colonyPosition, g, field, draw) == WalkbackRules.Explore(a, g, field, draw);
        ExploreCases(a, g, field, draw);
        r := ExploreOrBack(draw);
      }
    }

    /** Lines 166-167 and 179-183: with food away from the colony, lay pheromone on a plain cell and step back. */
    method CarryFoodBack(ghost a: AntView) returns (r: Result<()>)
      requires Shaped(Snapshot(grid), Snapshot(pheromones)) && Interior(Snapshot(grid), position)
      requires hasfood && View() == a.(hasfood := true)
      modifies this, pheromones
      ensures var s := CarryFood(a, Snapshot(grid), old(Snapshot(pheromones)));
              && (r.Ok? <==> s.Ok?) && (r.Raise? ==> r.error == s.error)
              && (s.Ok? ==> View() == s.value.0 && Snapshot(pheromones) == s.value.1)
    {
      ghost var field := Snapshot(pheromones);
      SameShape(grid, pheromones);
      var (x, y) := position;
      var value := grid[x, y];
      if 0 <= value < 1 {
        var p := pheromones[x, y] + PheromoneDeposit;
        Assign(pheromones, x, y, if p <= MaxPheromone then p else MaxPheromone);
      }
      ghost var field' := Snapshot(pheromones);
      assert field' == if 0 <= value < 1 then Deposit(field, a.position) else field;
      assert CarryFood(a, Snapshot(grid), field) == Backtrack(View(), field');
      r := WalkBack();
    }

    /** Lines 169-177 and 179-183: without food, move to the chosen cell or, with nothing to choose, step back. */
    method ExploreOrBack(draw: Draw) returns (r: Result<()>)
      requires Shaped(Snapshot(grid), Snapshot(pheromones)) && Interior(Snapshot(grid), position)
      requires ValidDraw(draw) && !hasfood
      modifies this
      ensures var c := old(Choose(Snapshot(grid), Snapshot(pheromones), visited, Neighbours4(position), draw));
              && (c.Some? ==> r.Ok? && View() == AntView(c.value, old(visited) + {c.value}, old(path) + [c.value], false))
              && (c.None? ==> var b := Backtrack(old(View()), old(Snapshot(pheromones)));
                                && (r.Ok? <==> b.Ok?) && (r.Raise? ==> r.error == b.error)
                                && (b.Ok? ==> View() == b.value.0))
    {
      var adjCells := GetAdjacentCells();
      var cell := ChooseCellsBasedOnPheromones(adjCells, draw);
      if cell.Some? {
        var c := cell.value;
        position, visited, path := c, visited + {c}, path + [c];
        return Ok(());
      }
      r := WalkBack();
    }

    /** The reset in `update` (lines 84-88): the ant is home again, with nothing visited but where it stands. */
    method ReturnHome()
      modifies this
      ensures View() == Home(old(position))
    {
      hasfood := false;
      visited := {position};
      path := [position];
    }

    /** Lines 179-183: pop the path and stand on its new last cell, if any; popping an empty path raises. */
    method WalkBack() returns (r: Result<()>)
      modifies this
      ensures var b := Backtrack(old(View()), Snapshot(pheromones));
              && (r.Ok? <==> b.Ok?) && (r.Raise? ==> r.error == b.error)
              && (b.Ok? ==> View() == b.value.0)
    {
      if path == [] {
        return Raise(IndexError);
      }
      path := path[..|path| - 1];
      if |path| > 0 {
        position := path[|path| - 1];
      }
      return Ok(());
    }
  }

  /** The two outcomes of `WalkbackRules.Explore`, by the choice made. */
  lemma ExploreCases(a: AntView, grid: Grid, field: Field, draw: Draw)
    requires Shaped(grid, field) && ValidDraw(draw) && Interior(grid, a.position) && !a.hasfood
    ensures var c := Choose(grid, field, a.visited, Neighbours4(a.position), draw);
            && (c.Some? ==> WalkbackRules.Explore(a, grid, field, draw) ==
                              Ok((AntView(c.value, a.visited + {c.value}, a.path + [c.value], false), field)))
            && (c.None? ==> WalkbackRules.Explore(a, grid, field, draw) == Backtrack(a, field))
  {
  }

  /**
   * The step of a tick under a name of its own: the proofs about the loop
   * of `update` then see only what they are told about it, here that it
   * agrees with `TickStep` everywhere.
   */
  lemma StandInStep(colony: Cell, grid: Grid, draws: seq<Draw>) returns (step: AntStepper)
    ensures StepsAsTick(step, colony, grid, draws)
  {
    step := TickStep(colony, grid, draws);
  }

  /** What the stand-in step does for ant k: `StepAnt` with the k-th draw. */
  lemma StandInStepAt(colony: Cell, grid: Grid, draws: seq<Draw>, step: AntStepper, k: nat)
    requires k < |draws| && ValidDraw(draws[k])
    requires StepsAsTick(step, colony, grid, draws)
    ensures StepsAsDraw(step, colony, grid, draws[k], k)
  {
    TickStepIsStep(colony, grid, draws, k);
  }

  /** A grid and a pheromone array of one shape have the same dimensions. */
  lemma SameShape(grid: array2<int>, pheromones: array2<real>)
    requires Shaped(Snapshot(grid), Snapshot(pheromones))
    ensures 0 < grid.Length0 == pheromones.Length0 && grid.Length1 == pheromones.Length1
  {
    var g, f := Snapshot(grid), Snapshot(pheromones);
    assert |g[0]| == grid.Length1 && |f| == pheromones.Length0 && |f[0]| == pheromones.Length1;
  }

  /**
   * The roulette started at m stops at k when every running sum from
   * m + 1 to k is below the pick and the next one (if any) reaches it.
   */
  lemma {:induction false} RouletteStopsAt(field: Field, cells: seq<Cell>, pick: real, m: nat, k: nat)
    requires m <= k <= |cells| && AllWithin(field, cells)
    requires forall j :: m < j <= k ==> Accumulated(field, cells, j) < pick
    requires k < |cells| ==> Accumulated(field, cells, k + 1) >= pick
    ensures RouletteIndex(field, cells, pick, m) == k
    decreases k - m
  {
    if m < k {
      RouletteStopsAt(field, cells, pick, m + 1, k);
    }
  }

  class Model {
    const width: int
    const height: int
    const grid: array2<int>
    const pheromones: array2<real>
    const colonyPosition: Cell
    const foodPosition: Cell
    var ants: seq<Ant>
    var foodFound: nat
    var foodDiscovered: bool

    /** The ants' views, in order. */
    function Views(): (vs: seq<AntView>)
      reads this, ants
      ensures |vs| == |ants| && forall k :: 0 <= k < |ants| ==> vs[k] == ants[k].View()
    {
      seq(|ants|, k reads this, ants requires 0 <= k < |ants| => ants[k].View())
    }

    /** The shared objects hold the values `g` (grid), `vs` (ants) and `f` (pheromones). */
    ghost predicate Holds(g: Grid, vs: seq<AntView>, f: Field)
      reads this, ants, grid, pheromones
    {
      Shared() && Snapshot(grid) == g && Views() == vs && Snapshot(pheromones) == f
    }

    /** Running the first i ants from `views0` and `field0` gives `vs`, `f` and d deliveries. */
    ghost predicate RanTo(views0: seq<AntView>, field0: Field, step: AntStepper, i: nat, g: Grid,
                          vs: seq<AntView>, f: Field, d: nat)
    {
      && i <= |views0|
      && RunAnts(views0, colonyPosition, field0, step, i) == Ok((vs, f, d))
    }

    function State(): World
      reads this, ants, pheromones
    {
      World(Views(), Snapshot(pheromones), foodFound, foodDiscovered)
    }

    /** Distinct ants sharing the model's grid, pheromone array and colony. */
    ghost predicate Shared()
      reads this
    {
      && (forall i, j :: 0 <= i < j < |ants| ==> ants[i] != ants[j])
      && (forall k :: 0 <= k < |ants| ==>
            ants[k].grid == grid && ants[k].pheromones == pheromones && ants[k].colonyPosition == colonyPosition)
    }

    /** The objects are shared as they should be, and the model's state keeps the value-level invariant. */
    ghost predicate Valid()
      reads this, ants, grid, pheromones
    {
      Shared() && WorldOk(State(), colonyPosition, Snapshot(grid))
    }

    /**
     * `Model.__init__`: mark the colony at (3, 3) and the food at (35, 35)
     * in the maze, start an all-zero pheromone array, and place 100 ants on
     * the colony.
     */
    constructor (maze: array2<int>, width: int, height: int)
      requires FoodPosition.0 + 1 < maze.Length0 && FoodPosition.1 + 1 < maze.Length1
      requires BorderWalls(Snapshot(maze))
      modifies maze
      ensures Valid() && grid == maze && fresh(pheromones)
      ensures this.width == width && this.height == height
      ensures colonyPosition == ColonyPosition && foodPosition == FoodPosition
      ensures Snapshot(maze) == MarkColonyAndFood(old(Snapshot(maze)))
      ensures pheromones.Length0 == maze.Length0 && pheromones.Length1 == maze.Length1
      ensures forall i, j :: 0 <= i < maze.Length0 && 0 <= j < maze.Length1 ==> pheromones[i, j] == 0.0
      ensures |ants| == AntCount && forall k :: 0 <= k < |ants| ==> fresh(ants[k]) && ants[k].View() == Home(ColonyPosition)
      ensures foodFound == 0 && !foodDiscovered
    {
      ghost var before := Snapshot(maze);
      this.width := width;
      this.height := height;
      grid := maze;
      colonyPosition := ColonyPosition;
      foodPosition := FoodPosition;
      Assign(maze, ColonyPosition.0, ColonyPosition.1, Colony);
      Assign(maze, FoodPosition.0, FoodPosition.1, Food);
      assert Snapshot(maze) == MarkColonyAndFood(before);
      var field := new real[maze.Length0, maze.Length1]((i, j) => 0.0);
      pheromones := field;
      var created: seq<Ant> := [];
      for k := 0 to AntCount
        invariant Snapshot(maze) == MarkColonyAndFood(before)
        invariant forall i, j :: 0 <= i < maze.Length0 && 0 <= j < maze.Length1 ==> field[i, j] == 0.0
        invariant |created| == k
        invariant forall i :: 0 <= i < k ==> fresh(created[i]) && created[i].View() == Home(ColonyPosition)
        invariant forall i :: 0 <= i < k ==>
                    created[i].grid == maze && created[i].pheromones == field && created[i].colonyPosition == ColonyPosition
        invariant forall i, j :: 0 <= i < j < k ==> created[i] != created[j]
      {
        var ant := new Ant(maze, field, ColonyPosition);
        created := created + [ant];
      }
      ants := created;
      foodFound := 0;
      foodDiscovered := false;
      new;
      assert |before[0]| == maze.Length1;
      StartIsOk(before, Snapshot(pheromones), Views());
    }

    /** `self.pheromones *= (1 - decay_rate)`. */
    method DecayPheromones()
      modifies pheromones
      ensures Snapshot(pheromones) == Decay(old(Snapshot(pheromones)))
    {
      for i := 0 to pheromones.Length0
        invariant forall a, b :: 0 <= a < pheromones.Length0 && 0 <= b < pheromones.Length1 ==>
                    pheromones[a, b] == if a < i then old(pheromones[a, b]) * (1.0 - DecayRate) else old(pheromones[a, b])
      {
        for j := 0 to pheromones.Length1
          invariant forall a, b :: 0 <= a < pheromones.Length0 && 0 <= b < pheromones.Length1 ==>
                      pheromones[a, b] == if a < i || (a == i && b < j) then old(pheromones[a, b]) * (1.0 - DecayRate)
                                          else old(pheromones[a, b])
        {
          pheromones[i, j] := pheromones[i, j] * (1.0 - DecayRate);
        }
      }
      ghost var decayed := Decay(old(Snapshot(pheromones)));
      ghost var now := Snapshot(pheromones);
      forall a | 0 <= a < pheromones.Length0
        ensures now[a] == decayed[a]
      {
      }
    }

    /**
     * One pass of the loop in `update`: step ant i, then count and reset it
     * when it stands on the colony with food.  `vs` and `f` are the ants'
     * views and the pheromone array before the pass.
     */
    method StepAntAt(i: nat, draw: Draw, ghost g: Grid, ghost vs: seq<AntView>, ghost f: Field, ghost step: AntStepper)
      returns (r: Result<()>)
      requires i < |ants| && StepsAsDraw(step, colonyPosition, g, draw, i) && Shared() && Snapshot(grid) == g
      requires Views() == vs && Snapshot(pheromones) == f && Shaped(g, f) && Interior(g, vs[i].position)
      modifies this, pheromones, ants[i]
      ensures ants == old(ants) && foodFound >= old(foodFound)
      ensures r.Raise? ==> foodFound == old(foodFound) && foodDiscovered == old(foodDiscovered)
      ensures var s := step(vs[i], f, i);
              && (r.Ok? <==> s.Ok?)
              && (s.Ok? ==> var (a, delivered) := Deliver(s.value.0, colonyPosition);
                              && Views() == vs[i := a] && Snapshot(pheromones) == s.value.1
                              && foodFound == old(foodFound) + (if delivered then 1 else 0)
                              && (foodDiscovered <==> old(foodDiscovered) || delivered))
    {
      var ant := ants[i];
      ghost var s := StepAnt(vs[i], colonyPosition, g, f, draw);
      assert step(vs[i], f, i) == s;
      r := ant.Step(draw);
      assert forall k :: 0 <= k < |ants| && k != i ==> ants[k].View() == vs[k];
      if r.Raise? {
        return;
      }
      ghost var stepped := Snapshot(pheromones);
      assert stepped == s.value.1 && ant.View() == s.value.0;
      if ant.hasfood && ant.position == colonyPosition {
        foodDiscovered := true;
        foodFound := foodFound + 1;
        ant.ReturnHome();
      }
      assert ant.View() == Deliver(s.value.0, colonyPosition).0;
      assert Views() == vs[i := ant.View()];
      assert Snapshot(pheromones) == stepped;
    }

    /**
     * One pass of the loop in `update`, read against `RunAnts`: after ant i
     * the ants' views and the pheromone array are `vs'` and `f'`, what
     * running the first i + 1 ants gives, or the run raises there too.
     */
    method TickAntAt(i: nat, draws: seq<Draw>, ghost g: Grid, ghost step: AntStepper, ghost views0: seq<AntView>,
                     ghost field0: Field, ghost found0: nat, ghost discovered0: bool,
                     ghost vs: seq<AntView>, ghost f: Field)
      returns (r: Result<()>, ghost vs': seq<AntView>, ghost f': Field)
      requires i < |ants| == |draws| && |views0| == |ants| && forall k :: 0 <= k < |draws| ==> ValidDraw(draws[k])
      requires Planned(step, colonyPosition, g, draws, views0, field0)
      requires Holds(g, vs, f) && foodFound >= found0
      requires RanTo(views0, field0, step, i, g, vs, f, foodFound - found0)
      requires foodDiscovered <==> discovered0 || foodFound > found0
      modifies this, pheromones, ants[i]
      ensures ants == old(ants) && Shared() && Snapshot(grid) == g && foodFound >= found0
      ensures foodDiscovered <==> discovered0 || foodFound > found0
      ensures r.Ok? ==> Holds(g, vs', f') && RanTo(views0, field0, step, i + 1, g, vs', f', foodFound - found0)
      ensures r.Raise? ==> RunAnts(views0, colonyPosition, field0, step, i + 1).Raise?
    {
      RunByTickKeepsWorldOk(views0, colonyPosition, g, field0, step, draws, i, vs, f, foodFound - found0);
      StandInStepAt(colonyPosition, g, draws, step, i);
      RunAntsAdvance(views0, colonyPosition, g, field0, step, draws[i], i, vs, f, foodFound - found0);
      ghost var s := step(vs[i], f, i);
      r := StepAntAt(i, draws[i], g, vs, f, step);
      if r.Ok? {
        vs', f' := vs[i := Deliver(s.value.0, colonyPosition).0], s.value.1;
      } else {
        vs', f' := vs, f;
      }
    }

    /**
     * The loop of `update` that steps every ant in order, read against
     * `RunAnts`: it ends where running all the ants from `views0` and
     * `field0` ends, or raises where that run raises.
     */
    method StepAnts(draws: seq<Draw>, ghost g: Grid, ghost step: AntStepper, ghost views0: seq<AntView>,
                    ghost field0: Field) returns (r: Result<()>)
      requires |draws| == |ants| && forall k :: 0 <= k < |draws| ==> ValidDraw(draws[k])
      requires Planned(step, colonyPosition, g, draws, views0, field0)
      requires Shared() && Snapshot(grid) == g && Views() == views0 && Snapshot(pheromones) == field0
      modifies this, pheromones, ants
      ensures ants == old(ants) && Shared() && Snapshot(grid) == g
      ensures foodFound >= old(foodFound) && (foodDiscovered <==> old(foodDiscovered) || foodFound > old(foodFound))
      ensures var t := RunAnts(views0, colonyPosition, field0, step, |ants|);
              && (r.Ok? <==> t.Ok?)
              && (t.Ok? ==> t.value == (Views(), Snapshot(pheromones), foodFound - old(foodFound)))
    {
      ghost var vs: seq<AntView>, f: Field := views0, field0;
      r := Ok(());
      var i := 0;
      while i < |ants| && r.Ok?
        invariant i <= |ants| && ants == old(ants) && Shared() && Snapshot(grid) == g && foodFound >= old(foodFound)
        invariant foodDiscovered <==> old(foodDiscovered) || foodFound > old(foodFound)
        invariant r.Ok? ==> Holds(g, vs, f) && RanTo(views0, field0, step, i, g, vs, f, foodFound - old(foodFound))
        invariant r.Raise? ==> RunAnts(views0, colonyPosition, field0, step, i).Raise?
        decreases |ants| - i
      {
        r, vs, f := TickAntAt(i, draws, g, step, views0, field0, old(foodFound), old(foodDiscovered), vs, f);
        i := i + 1;
      }
      if r.Raise? {
        RaiseStops(views0, colonyPosition, field0, step, i, |ants|);
      }
    }

    /**
     * `update`: the model's new state is what `Tick` gives, and the update
     * raises exactly when `Tick` does.
     */
    method Update(draws: seq<Draw>) returns (r: Result<()>)
      requires Valid() && |draws| == |ants| && forall k :: 0 <= k < |draws| ==> ValidDraw(draws[k])
      modifies this, pheromones, ants
      ensures ants == old(ants)
      ensures var t := Tick(old(State()), colonyPosition, Snapshot(grid), draws);
              && (r.Ok? <==> t.Ok?)
              && (t.Ok? ==> State() == t.value && Valid())
    {
      ghost var w := State();
      ghost var g := Snapshot(grid);
      ghost var step := StandInStep(colonyPosition, g, draws);
      r := UpdateBy(draws, g, step, w);
      TickByStep(w, colonyPosition, g, draws, step);
      if r.Ok? {
        TickKeepsWorldOk(w, colonyPosition, g, draws);
      }
    }

    /** The body of `update`, read against the tick with the stand-in step. */
    method UpdateBy(draws: seq<Draw>, ghost g: Grid, ghost step: AntStepper, ghost w: World) returns (r: Result<()>)
      requires Valid() && |draws| == |ants| && forall k :: 0 <= k < |draws| ==> ValidDraw(draws[k])
      requires StepsAsTick(step, colonyPosition, g, draws)
      requires Snapshot(grid) == g && State() == w
      modifies this, pheromones, ants
      ensures ants == old(ants) && Shared() && Snapshot(grid) == g
      ensures var t := TickWith(w, colonyPosition, step);
              && (r.Ok? <==> t.Ok?)
              && (t.Ok? ==> State() == t.value)
    {
      DecayKeepsRange(w.field);
      DecayPheromones();
      DecayKeepsWorldOk(w, colonyPosition, g);
      r := StepAnts(draws, g, step, w.ants, Decay(w.field));
    }
  }
}
