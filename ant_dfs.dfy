/**
 * The depth-first ant model of `antDFS.py`.  Each ant keeps a visited list
 * and a path stack.  A step shuffles the four neighbours, moves to the
 * first one that is neither a wall nor visited and marks it with -3 in the
 * shared maze, and otherwise steps back to the previous cell of its path.
 *
 * `shuffle` stands for the outcome of `np.random.shuffle` on the neighbour
 * list: some reordering of whatever list it is given.
 */
module AntDfs {
  import opened Wrappers
  import opened Arrays
  import opened Cells
  import opened Locations
  import WalkbackRules

  const Colony: int := -1
  const Food: int := 1
  const Wall: int := 2
  /** The mark an ant leaves on every cell it moves into. */
  const Trail: int := -3
  /** The time step `update` passes to every ant. */
  const Dt: real := 0.1
  const ColonyPosition: Cell := (1, 1)

  type Grid = seq<seq<int>>
  type Shuffler = seq<Cell> -> seq<Cell>

  /** A maze the ants can walk without leaving it: a rectangle of at least 3 by 3 whose border is wall. */
  predicate GridOk(g: Grid) {
    |g| >= 3 && |g[0]| >= 3 && IsRect(g, |g|, |g[0]|) && WalkbackRules.BorderWalls(g)
  }

  /** An inner cell of the maze that is not a wall. */
  predicate OnFloor(g: Grid, c: Cell)
    requires GridOk(g)
  {
    WalkbackRules.Interior(g, c) && g[c.0][c.1] != Wall
  }

  /** Two mazes of the same shape with walls in the same places. */
  predicate SameWalls(g1: Grid, g2: Grid) {
    && |g1| == |g2|
    && (forall i :: 0 <= i < |g1| ==> |g1[i]| == |g2[i]|)
    && (forall i, j :: 0 <= i < |g1| && 0 <= j < |g1[i]| ==> (g1[i][j] == Wall <==> g2[i][j] == Wall))
  }

  /** What an ant is: its position, its visited list, its path stack and the time since it last moved. */
  datatype DfsView = DfsView(position: Loc, visited: seq<Loc>, path: seq<Loc>, time: real)

  /** A new ant at (x, y): the creation-time list is its position and the one entry of its visited list and path. */
  function Start(x: int, y: int): (a: DfsView)
    ensures a.position.cell == (x, y) && a.visited == [a.position] && a.path == [a.position] && a.time == 0.0
  {
    DfsView(AsList(x, y), [AsList(x, y)], [AsList(x, y)], 0.0)
  }

  /** Cells k and k + 1 of the path are neighbours. */
  predicate Linked(path: seq<Loc>, k: int)
    requires 0 <= k < |path| - 1
  {
    Adjacent(path[k].cell, path[k + 1].cell)
  }

  /**
   * The ant invariant: the path stack is not empty and ends at the
   * position, it is a walk of neighbouring cells, and every cell on it is
   * an inner floor cell that is also in the visited list.
   */
  predicate AntOk(g: Grid, a: DfsView)
    requires GridOk(g)
  {
    && |a.path| >= 1 && a.path[|a.path| - 1] == a.position
    && (forall k :: 0 <= k < |a.path| ==> OnFloor(g, a.path[k].cell) && a.path[k] in a.visited)
    && (forall k :: 0 <= k < |a.path| - 1 ==> Linked(a.path, k))
  }

  lemma StartIsOk(g: Grid, x: int, y: int)
    requires GridOk(g) && OnFloor(g, (x, y))
    ensures AntOk(g, Start(x, y))
  {
  }

  /** The maze test of the loop in `step`: `grid[cell] != 2 and cell not in visited`, for a neighbour tuple. */
  predicate Fresh(g: Grid, visited: seq<Loc>, c: Cell)
    requires WalkbackRules.Within(g, c)
  {
    g[c.0][c.1] != Wall && AsTuple(c) !in visited
  }

  /** The index of the first fresh cell of the list, if there is one. */
  function FirstFresh(g: Grid, visited: seq<Loc>, cells: seq<Cell>): (r: Option<nat>)
    requires WalkbackRules.AllWithin(g, cells)
    ensures r.None? <==> forall k :: 0 <= k < |cells| ==> !Fresh(g, visited, cells[k])
    ensures r.Some? ==> && r.value < |cells| && Fresh(g, visited, cells[r.value])
                        && forall k :: 0 <= k < r.value ==> !Fresh(g, visited, cells[k])
  {
    if cells == [] then None
    else if Fresh(g, visited, cells[0]) then Some(0)
    else match FirstFresh(g, visited, cells[1..])
         case None => None
         case Some(k) => Some(k + 1)
  }

  /** Mazes with the same walls find the same first fresh cell. */
  lemma {:induction false} FirstFreshSeesWallsOnly(g1: Grid, g2: Grid, visited: seq<Loc>, cells: seq<Cell>)
    requires SameWalls(g1, g2) && WalkbackRules.AllWithin(g1, cells)
    ensures WalkbackRules.AllWithin(g2, cells) && FirstFresh(g1, visited, cells) == FirstFresh(g2, visited, cells)
    decreases |cells|
  {
    if cells != [] {
      FirstFreshSeesWallsOnly(g1, g2, visited, cells[1..]);
    }
  }

  /** A reordering of the four neighbours of p holds exactly those four cells. */
  lemma ShuffledNeighbours(p: Cell, shuffle: Shuffler)
    requires WalkbackRules.IsShuffler(shuffle)
    ensures |shuffle(Neighbours4(p))| == 4
    ensures forall c :: c in shuffle(Neighbours4(p)) <==> Adjacent(p, c)
    ensures forall k :: 0 <= k < |shuffle(Neighbours4(p))| ==> Adjacent(p, shuffle(Neighbours4(p))[k])
  {
    var n := Neighbours4(p);
    var s := shuffle(n);
    assert multiset(s) == multiset(n);
    assert |s| == |multiset(s)| == |multiset(n)| == 4;
    Neighbours4Exact(p);
    forall c
      ensures c in s <==> Adjacent(p, c)
    {
      assert c in s <==> c in multiset(s);
      assert c in n <==> c in multiset(n);
    }
  }

  /** The shuffled neighbour list of an ant standing on an inner cell. */
  function Order(g: Grid, a: DfsView, shuffle: Shuffler): (order: seq<Cell>)
    requires GridOk(g) && WalkbackRules.Interior(g, a.position.cell) && WalkbackRules.IsShuffler(shuffle)
    ensures |order| == 4 && WalkbackRules.AllWithin(g, order)
    ensures forall c :: c in order <==> Adjacent(a.position.cell, c)
  {
    ShuffledNeighbours(a.position.cell, shuffle);
    shuffle(Neighbours4(a.position.cell))
  }

  /** What one call of `step` did, with the ant afterwards. */
  datatype StepOutcome =
    | Waited(ant: DfsView)
    | Moved(ant: DfsView, cell: Cell)
    | Backtracked(ant: DfsView)
    | Failed(ant: DfsView, error: Exception)

  /**
   * `step(dt)`: once the accumulated time is positive, move to the first
   * fresh cell of the shuffled neighbours, or else pop the path, which
   * raises `IndexError` on a path of one cell (`path[-2]`).
   */
  function StepRule(a: DfsView, g: Grid, dt: real, shuffle: Shuffler): (o: StepOutcome)
    requires GridOk(g) && AntOk(g, a) && WalkbackRules.IsShuffler(shuffle)
  {
    var t := a.time + dt;
    if !(t > 0.0) then Waited(a.(time := t))
    else
      var order := Order(g, a, shuffle);
      match FirstFresh(g, a.visited, order)
      case Some(k) =>
        var c := AsTuple(order[k]);
        Moved(DfsView(c, a.visited + [c], a.path + [c], 0.0), order[k])
      case None =>
        if |a.path| < 2 then Failed(a.(time := t), IndexError)
        else Backtracked(DfsView(a.path[|a.path| - 2], a.visited, a.path[..|a.path| - 1], 0.0))
  }

  /** The maze after a step: the cell a forward move enters holds the trail mark. */
  function Marked(g: Grid, o: StepOutcome): (g': Grid)
    requires o.Moved? ==> WalkbackRules.Within(g, o.cell)
    ensures SameShape(g, g') && (o.Moved? ==> g'[o.cell.0][o.cell.1] == Trail)
  {
    if o.Moved? then SetCell(g, o.cell.0, o.cell.1, Trail) else g
  }

  /**
   * A forward move goes to a neighbour that is not a wall and whose tuple
   * is not in the visited list, and pushes that tuple on the visited list
   * and the path; every neighbour shuffled before it was a wall or visited.
   */
  lemma MovesForward(a: DfsView, g: Grid, dt: real, shuffle: Shuffler)
    requires GridOk(g) && AntOk(g, a) && WalkbackRules.IsShuffler(shuffle)
    ensures var o := StepRule(a, g, dt, shuffle);
            o.Moved? ==> && Adjacent(a.position.cell, o.cell) && g[o.cell.0][o.cell.1] != Wall
                         && AsTuple(o.cell) !in a.visited
                         && o.ant.position == AsTuple(o.cell)
                         && o.ant.visited == a.visited + [o.ant.position] && o.ant.path == a.path + [o.ant.position]
                         && exists k :: 0 <= k < 4 && Order(g, a, shuffle)[k] == o.cell &&
                                        forall j :: 0 <= j < k ==> !Fresh(g, a.visited, Order(g, a, shuffle)[j])
  {
    var o := StepRule(a, g, dt, shuffle);
    if o.Moved? {
      var order := Order(g, a, shuffle);
      var k := FirstFresh(g, a.visited, order).value;
      assert order[k] == o.cell;
    }
  }

  /**
   * Whatever the shuffle, a step that is due steps back exactly when no
   * neighbour is fresh; it raises exactly when the path is then a single
   * cell, and otherwise goes to the previous cell of the path and pops it.
   */
  lemma BacktracksWhenStuck(a: DfsView, g: Grid, dt: real, shuffle: Shuffler)
    requires GridOk(g) && AntOk(g, a) && WalkbackRules.IsShuffler(shuffle)
    ensures var o := StepRule(a, g, dt, shuffle);
            && (o.Waited? <==> !(a.time + dt > 0.0))
            && ((o.Backtracked? || o.Failed?) <==>
                  a.time + dt > 0.0 && forall c :: Adjacent(a.position.cell, c) ==> !Fresh(g, a.visited, c))
            && (o.Failed? <==> (o.Backtracked? || o.Failed?) && |a.path| == 1)
            && (o.Failed? ==> o.error == IndexError && o.ant == a.(time := a.time + dt))
            && (o.Backtracked? ==> && o.ant.position == a.path[|a.path| - 2]
                                   && o.ant.path == a.path[..|a.path| - 1] && o.ant.visited == a.visited)
  {
    if a.time + dt > 0.0 {
      var order := Order(g, a, shuffle);
      forall c | Adjacent(a.position.cell, c)
        ensures WalkbackRules.Within(g, c)
      {
        assert c in order;
      }
      if FirstFresh(g, a.visited, order).None? {
        forall c | Adjacent(a.position.cell, c)
          ensures !Fresh(g, a.visited, c)
        {
          assert c in order;
          var k :| 0 <= k < |order| && order[k] == c;
        }
      } else {
        var k := FirstFresh(g, a.visited, order).value;
        assert Adjacent(a.position.cell, order[k]);
      }
    }
  }

  /** The step ignores everything in the maze but its walls. */
  lemma StepSeesWallsOnly(a: DfsView, g1: Grid, g2: Grid, dt: real, shuffle: Shuffler)
    requires GridOk(g1) && AntOk(g1, a) && WalkbackRules.IsShuffler(shuffle) && SameWalls(g1, g2)
    ensures GridOk(g2) && AntOk(g2, a) && StepRule(a, g1, dt, shuffle) == StepRule(a, g2, dt, shuffle)
  {
    SameWallsKeepOk(g1, g2, a);
    if a.time + dt > 0.0 {
      FirstFreshSeesWallsOnly(g1, g2, a.visited, Order(g1, a, shuffle));
    }
  }

  /** The invariants depend only on where the walls are. */
  lemma SameWallsKeepOk(g1: Grid, g2: Grid, a: DfsView)
    requires GridOk(g1) && SameWalls(g1, g2)
    ensures GridOk(g2) && (AntOk(g1, a) <==> AntOk(g2, a))
  {
    SameWallsKeepGridOk(g1, g2);
  }

  lemma SameWallsKeepGridOk(g1: Grid, g2: Grid)
    requires GridOk(g1) && SameWalls(g1, g2)
    ensures GridOk(g2)
  {
    assert |g2[0]| == |g1[0]|;
  }

  /** Writing into an inner cell keeps the border walls. */
  lemma InnerWriteKeepsGridOk(g: Grid, i: int, j: int, v: int)
    requires GridOk(g) && WalkbackRules.Interior(g, (i, j))
    ensures GridOk(SetCell(g, i, j, v))
  {
    assert |SetCell(g, i, j, v)[0]| == |g[0]|;
  }

  /** A step keeps the ant invariant, and its trail mark keeps the walls where they were. */
  lemma StepKeepsOk(a: DfsView, g: Grid, dt: real, shuffle: Shuffler)
    requires GridOk(g) && AntOk(g, a) && WalkbackRules.IsShuffler(shuffle)
    ensures var o := StepRule(a, g, dt, shuffle);
            && (o.Moved? ==> WalkbackRules.Within(g, o.cell))
            && SameWalls(g, Marked(g, o)) && GridOk(Marked(g, o)) && AntOk(g, o.ant) && AntOk(Marked(g, o), o.ant)
  {
    var o := StepRule(a, g, dt, shuffle);
    MovesForward(a, g, dt, shuffle);
    if o.Moved? {
      var p := o.ant.path;
      assert p[|p| - 1] == o.ant.position;
      forall k | 0 <= k < |p| - 1
        ensures Linked(p, k)
      {
        if k < |a.path| - 1 {
          assert p[k] == a.path[k] && p[k + 1] == a.path[k + 1];
          assert Linked(a.path, k);
        } else {
          assert p[k] == a.position && p[k + 1] == o.ant.position;
        }
      }
    } else if o.Backtracked? {
      var p := o.ant.path;
      forall k | 0 <= k < |p| - 1
        ensures Linked(p, k)
      {
        assert Linked(a.path, k);
      }
    }
    SameWallsKeepOk(g, Marked(g, o), o.ant);
  }

  class Ant {
    const grid: array2<int>
    var position: Loc
    var visited: seq<Loc>
    var path: seq<Loc>
    var timeSinceLastUpdate: real

    /** The ant as a value. */
    function View(): DfsView
      reads this
    {
      DfsView(position, visited, path, timeSinceLastUpdate)
    }

    /** The maze can be walked and the ant keeps its invariant in it. */
    ghost predicate Ready()
      reads this, grid
    {
      GridOk(Snapshot(grid)) && AntOk(Snapshot(grid), View())
    }

    /** `Ant(x, y)`: the ant stands at (x, y), which is all it has visited and all its path. */
    constructor (maze: array2<int>, x: int, y: int)
      ensures grid == maze && View() == Start(x, y)
    {
      grid := maze;
      position := AsList(x, y);
      visited := [position];
      path := [position];
      timeSinceLastUpdate := 0.0;
    }

    /** `get_adjacent_cells`: the four orthogonal neighbours of the ant's position, in the fixed order. */
    method GetAdjacentCells() returns (cells: seq<Cell>)
      ensures |cells| == 4 && forall c :: c in cells <==> Adjacent(position.cell, c)
      ensures cells == Neighbours4(position.cell)
    {
      var (x, y) := position.cell;
      cells := [(x, y + 1), (x + 1, y), (x, y - 1), (x - 1, y)];
      Neighbours4Exact(position.cell);
    }

    /**
     * The loop of `step` over the shuffled neighbours: enter the first one
     * that is fresh, mark it in the maze and push it, or change nothing.
     */
    method MoveToFirstFresh(order: seq<Cell>, ghost g: Grid) returns (moved: bool)
      requires Snapshot(grid) == g && WalkbackRules.AllWithin(g, order)
      modifies this, grid
      ensures var f := FirstFresh(g, old(visited), order);
              && (moved <==> f.Some?)
              && (f.Some? ==> var c := AsTuple(order[f.value]);
                              && View() == DfsView(c, old(visited) + [c], old(path) + [c], 0.0)
                              && Snapshot(grid) == SetCell(g, c.cell.0, c.cell.1, Trail))
              && (f.None? ==> View() == old(View()) && Snapshot(grid) == g)
    {
      for k := 0 to |order|
        invariant forall j :: 0 <= j < k ==> !Fresh(g, visited, order[j])
        invariant View() == old(View()) && Snapshot(grid) == g
      {
        var c := order[k];
        assert g[c.0][c.1] == grid[c.0, c.1];
        if grid[c.0, c.1] != Wall && AsTuple(c) !in visited {
          assert FirstFresh(g, visited, order) == Some(k);
          position := AsTuple(c);
          Assign(grid, c.0, c.1, Trail);
          visited := visited + [position];
          path := path + [position];
          timeSinceLastUpdate := 0.0;
          return true;
        }
      }
      return false;
    }

    /**
     * The end of `step` when no neighbour is fresh: go back to the
     * previous cell of the path and pop it; `path[-2]` raises `IndexError`
     * on a path of one cell.
     */
    method Backtrack() returns (r: Result<()>)
      modifies this
      ensures r.Raise? <==> |old(path)| < 2
      ensures r.Raise? ==> r.error == IndexError && View() == old(View())
      ensures r.Ok? ==> View() == DfsView(old(path)[|old(path)| - 2], old(visited), old(path)[..|old(path)| - 1], 0.0)
    {
      if |path| < 2 {
        return Raise(IndexError);
      }
      position := path[|path| - 2];
      path := path[..|path| - 1];
      timeSinceLastUpdate := 0.0;
      r := Ok(());
    }

    /**
     * `step(dt)`: the ant and the maze afterwards are what `StepRule` and
     * `Marked` say, and the call raises exactly when the rule fails
     * (`StepKeepsOk` shows that the ant is then ready again).
     */
    method Step(dt: real, shuffle: Shuffler) returns (r: Result<()>)
      requires Ready() && WalkbackRules.IsShuffler(shuffle)
      modifies this, grid
      ensures var o := StepRule(old(View()), old(Snapshot(grid)), dt, shuffle);
              && View() == o.ant && Snapshot(grid) == Marked(old(Snapshot(grid)), o)
              && (r.Raise? <==> o.Failed?) && (o.Failed? ==> r.error == o.error)
    {
      ghost var g := Snapshot(grid);
      ghost var a := View();
      ghost var o := StepRule(a, g, dt, shuffle);
      timeSinceLastUpdate := timeSinceLastUpdate + dt;
      if timeSinceLastUpdate > 0.0 {
        var adj := GetAdjacentCells();
        var order := shuffle(adj);
        assert order == Order(g, a, shuffle);
        var moved := MoveToFirstFresh(order, g);
        if !moved {
          r := Backtrack();
          assert Marked(g, o) == g;
          return;
        } else {
          assert o.Moved? && Marked(g, o) == Snapshot(grid);
        }
      }
      r := Ok(());
    }
  }

  /** `os` is the plan of a tick of ants `vs` that are ready in `g`. */
  ghost predicate Planned(vs: seq<DfsView>, g: Grid, shuffles: seq<Shuffler>, os: seq<StepOutcome>) {
    && GridOk(g) && AllOk(g, vs) && |shuffles| == |vs|
    && (forall k :: 0 <= k < |vs| ==> WalkbackRules.IsShuffler(shuffles[k]))
    && os == Plan(vs, g, shuffles)
  }

  /** Every forward move among the outcomes enters a cell of the maze. */
  predicate MovesWithin(g: Grid, os: seq<StepOutcome>) {
    forall k :: 0 <= k < |os| && os[k].Moved? ==> WalkbackRules.Within(g, os[k].cell)
  }

  /** Every forward move among the outcomes enters a cell of the maze that is not a wall. */
  predicate MovesOnFloor(g: Grid, os: seq<StepOutcome>) {
    MovesWithin(g, os) && forall k :: 0 <= k < |os| && os[k].Moved? ==> g[os[k].cell.0][os[k].cell.1] != Wall
  }

  /** Every ant in the list keeps the ant invariant. */
  predicate AllOk(g: Grid, vs: seq<DfsView>)
    requires GridOk(g)
  {
    forall k {:trigger AntOk(g, vs[k])} :: 0 <= k < |vs| ==> AntOk(g, vs[k])
  }

  /** Each ant's step on a maze it is ready in keeps its invariant and moves onto floor. */
  lemma StepsOk(vs: seq<DfsView>, g: Grid, shuffles: seq<Shuffler>)
    requires GridOk(g) && AllOk(g, vs) && |shuffles| == |vs|
    requires forall k :: 0 <= k < |vs| ==> WalkbackRules.IsShuffler(shuffles[k])
    ensures forall k :: 0 <= k < |vs| ==>
              var o := StepRule(vs[k], g, Dt, shuffles[k]);
              && (o.Moved? ==> WalkbackRules.Within(g, o.cell) && g[o.cell.0][o.cell.1] != Wall)
              && AntOk(g, o.ant)
  {
    forall k | 0 <= k < |vs|
      ensures var o := StepRule(vs[k], g, Dt, shuffles[k]);
              && (o.Moved? ==> WalkbackRules.Within(g, o.cell) && g[o.cell.0][o.cell.1] != Wall)
              && AntOk(g, o.ant)
    {
      assert AntOk(g, vs[k]);
      StepKeepsOk(vs[k], g, Dt, shuffles[k]);
      MovesForward(vs[k], g, Dt, shuffles[k]);
    }
  }

  /**
   * Each ant's step judged on the maze `g` as it was at the start of the
   * tick; the planned steps keep every ant's invariant, and every forward
   * move enters a floor cell of the maze.
   */
  ghost function Plan(vs: seq<DfsView>, g: Grid, shuffles: seq<Shuffler>): (os: seq<StepOutcome>)
    requires GridOk(g) && AllOk(g, vs) && |shuffles| == |vs|
    requires forall k :: 0 <= k < |vs| ==> WalkbackRules.IsShuffler(shuffles[k])
    ensures |os| == |vs| && forall k :: 0 <= k < |vs| ==> os[k] == StepRule(vs[k], g, Dt, shuffles[k])
    ensures MovesOnFloor(g, os) && forall k :: 0 <= k < |os| ==> AntOk(g, os[k].ant)
  {
    StepsOk(vs, g, shuffles);
    seq(|vs|, k requires 0 <= k < |vs| => assert AntOk(g, vs[k]); StepRule(vs[k], g, Dt, shuffles[k]))
  }

  /**
   * Part-way through a tick, or at its end, the maze can still be walked
   * and every ant, stepped or not, keeps its invariant in it.
   */
  lemma AdvancedIsOk(vs: seq<DfsView>, g: Grid, shuffles: seq<Shuffler>, m: nat, n: int)
    requires GridOk(g) && AllOk(g, vs) && |shuffles| == |vs| && m <= |vs|
    requires forall k :: 0 <= k < |vs| ==> WalkbackRules.IsShuffler(shuffles[k])
    ensures var h := MarkedUpTo(g, Plan(vs, g, shuffles), m);
            GridOk(h) && AllOk(h, Advanced(vs, Plan(vs, g, shuffles), n))
  {
    var os := Plan(vs, g, shuffles);
    MarkedKeepsWalls(g, os, m);
    var h := MarkedUpTo(g, os, m);
    var vs' := Advanced(vs, os, n);
    SameWallsKeepGridOk(g, h);
    forall k | 0 <= k < |vs'|
      ensures AntOk(h, vs'[k])
    {
      assert AntOk(g, vs[k]);
      SameWallsKeepOk(g, h, vs'[k]);
    }
  }

  /** How many steps run before the first failure: the index of the failing step, or all of them. */
  function StopAt(os: seq<StepOutcome>): (n: nat)
    ensures n <= |os| && (forall k :: 0 <= k < n ==> !os[k].Failed?) && (n < |os| ==> os[n].Failed?)
  {
    if os == [] then 0 else if os[0].Failed? then 0 else 1 + StopAt(os[1..])
  }

  /** Steps before the first failure: step k is the failure or the run goes past it. */
  lemma StopAtNext(os: seq<StepOutcome>, k: nat)
    requires k < |os| && k <= StopAt(os)
    ensures os[k].Failed? ==> StopAt(os) == k
    ensures !os[k].Failed? ==> k + 1 <= StopAt(os)
  {
  }

  /** The ants after the first n steps: those views are replaced by their outcomes, the rest are as before. */
  function Advanced(vs: seq<DfsView>, os: seq<StepOutcome>, n: int): (vs': seq<DfsView>)
    requires |os| == |vs|
    ensures |vs'| == |vs| && forall k :: 0 <= k < |vs| ==> vs'[k] == if k < n then os[k].ant else vs[k]
  {
    seq(|vs|, k requires 0 <= k < |vs| => if k < n then os[k].ant else vs[k])
  }

  /** One of the first n steps ends on the food. */
  predicate FoundIn(os: seq<StepOutcome>, food: Cell, n: int)
    requires n <= |os|
  {
    exists j :: 0 <= j < n && os[j].ant.position.cell == food
  }

  lemma FoundInNext(os: seq<StepOutcome>, food: Cell, n: nat)
    requires n < |os|
    ensures FoundIn(os, food, n + 1) <==> FoundIn(os, food, n) || os[n].ant.position.cell == food
  {
    if FoundIn(os, food, n + 1) && !FoundIn(os, food, n) {
      var j :| 0 <= j < n + 1 && os[j].ant.position.cell == food;
      assert j == n;
    }
  }

  /**
   * A whole `update` with plan `os` from ants `vs` on maze `g` to ants
   * `vs'` on maze `g'`: the planned steps run up to the first that fails,
   * which raises its error and is the last to change its ant; the maze
   * holds the trail marks of the steps before it.  An update that does not
   * raise reports whether some ant stood on the food right after its step.
   */
  predicate Ticked(os: seq<StepOutcome>, vs: seq<DfsView>, g: Grid, food: Cell,
                   vs': seq<DfsView>, g': Grid, r: Result<bool>)
  {
    && |os| == |vs| && MovesWithin(g, os)
    && var n := StopAt(os);
       && (r.Raise? <==> n < |os|) && (r.Raise? ==> r.error == os[n].error)
       && vs' == Advanced(vs, os, n + 1)
       && g' == MarkedUpTo(g, os, n)
       && (r.Ok? ==> (r.value <==> FoundIn(os, food, |os|)))
  }

  /**
   * Step k of a tick, taken on the maze the earlier steps left, is the
   * planned one, and it leaves the maze and the ants as the plan says.
   */
  lemma PlannedStep(vs: seq<DfsView>, g: Grid, shuffles: seq<Shuffler>, os: seq<StepOutcome>, k: nat)
    requires Planned(vs, g, shuffles, os) && k < |vs|
    ensures var h := MarkedUpTo(g, os, k);
            && GridOk(h) && AntOk(h, vs[k]) && WalkbackRules.IsShuffler(shuffles[k])
            && StepRule(vs[k], h, Dt, shuffles[k]) == os[k]
            && (os[k].Moved? ==> WalkbackRules.Within(h, os[k].cell))
            && MarkedUpTo(g, os, k + 1) == Marked(h, os[k])
            && Advanced(vs, os, k)[k := os[k].ant] == Advanced(vs, os, k + 1)
  {
    var h := MarkedUpTo(g, os, k);
    MarkedKeepsWalls(g, os, k);
    assert AntOk(g, vs[k]);
    StepSeesWallsOnly(vs[k], g, h, Dt, shuffles[k]);
  }

  /** An update whose step k fails ends with the first k + 1 ants advanced and k trail marks. */
  lemma TickedAtFailure(os: seq<StepOutcome>, vs: seq<DfsView>, g: Grid, food: Cell, k: nat)
    requires |os| == |vs| && MovesWithin(g, os) && k < |os| && k <= StopAt(os) && os[k].Failed?
    ensures Ticked(os, vs, g, food, Advanced(vs, os, k + 1), MarkedUpTo(g, os, k), Raise(os[k].error))
  {
    StopAtNext(os, k);
  }

  /** An update in which no step fails ends with every ant advanced and every trail mark left. */
  lemma TickedAtEnd(os: seq<StepOutcome>, vs: seq<DfsView>, g: Grid, food: Cell, found: bool)
    requires |os| == |vs| && MovesWithin(g, os) && StopAt(os) == |os|
    requires found <==> FoundIn(os, food, |os|)
    ensures Ticked(os, vs, g, food, Advanced(vs, os, |os|), MarkedUpTo(g, os, |os|), Ok(found))
  {
    assert Advanced(vs, os, |os| + 1) == Advanced(vs, os, |os|);
  }

  /** The maze after the first n steps: each forward move among them left its trail mark. */
  function MarkedUpTo(g: Grid, os: seq<StepOutcome>, n: nat): (g': Grid)
    requires n <= |os| && MovesWithin(g, os)
    ensures SameShape(g, g')
    decreases n
  {
    if n == 0 then g
    else
      var h := MarkedUpTo(g, os, n - 1);
      if os[n - 1].Moved? then SetCell(h, os[n - 1].cell.0, os[n - 1].cell.1, Trail) else h
  }

  predicate SameShape(g: Grid, g': Grid) {
    |g'| == |g| && forall i :: 0 <= i < |g| ==> |g'[i]| == |g[i]|
  }

  /** After the first n steps a cell holds the trail mark when one of them moved into it, and is unchanged otherwise. */
  lemma {:induction false} MarkedCells(g: Grid, os: seq<StepOutcome>, n: nat, i: int, j: int)
    requires n <= |os| && MovesWithin(g, os)
    requires 0 <= i < |g| && 0 <= j < |g[i]|
    ensures MarkedUpTo(g, os, n)[i][j] ==
              if exists k :: 0 <= k < n && os[k].Moved? && os[k].cell == (i, j) then Trail else g[i][j]
    decreases n
  {
    if n > 0 {
      MarkedCells(g, os, n - 1, i, j);
      if os[n - 1].Moved? && os[n - 1].cell == (i, j) {
        assert exists k :: 0 <= k < n && os[k].Moved? && os[k].cell == (i, j);
      } else if exists k :: 0 <= k < n && os[k].Moved? && os[k].cell == (i, j) {
        var k :| 0 <= k < n && os[k].Moved? && os[k].cell == (i, j);
        assert k < n - 1;
      }
    }
  }

  /** The trail marks of a tick keep the walls where they were. */
  lemma {:induction false} MarkedKeepsWalls(g: Grid, os: seq<StepOutcome>, n: nat)
    requires n <= |os| && MovesOnFloor(g, os)
    ensures SameWalls(g, MarkedUpTo(g, os, n))
    decreases n
  {
    if n > 0 {
      MarkedKeepsWalls(g, os, n - 1);
      var h := MarkedUpTo(g, os, n - 1);
      if os[n - 1].Moved? {
        var c := os[n - 1].cell;
        assert h[c.0][c.1] != Wall;
      }
    }
  }

  class Model {
    const width: int
    const height: int
    const nAnts: int
    const grid: array2<int>
    const colonyPosition: Cell
    const foodPosition: Cell
    const ants: seq<Ant>

    /** The ants' views, in order. */
    function Views(): (vs: seq<DfsView>)
      reads ants
      ensures |vs| == |ants| && forall k :: 0 <= k < |ants| ==> vs[k] == ants[k].View()
    {
      seq(|ants|, k reads ants requires 0 <= k < |ants| => ants[k].View())
    }

    /** Distinct ants, all walking the model's maze. */
    ghost predicate Shared() {
      && (forall i, j :: 0 <= i < |ants| && 0 <= j < |ants| && i != j ==> ants[i] != ants[j])
      && (forall k :: 0 <= k < |ants| ==> ants[k].grid == grid)
    }

    ghost predicate Valid()
      reads ants, grid
    {
      Shared() && GridOk(Snapshot(grid)) && AllOk(Snapshot(grid), Views())
    }

    /**
     * `Model.__init__`: mark the colony at (1, 1) and the food at
     * (len(Maze[0]) - 2, len(Maze) - 2), and place `nAnts` new ants on the
     * colony.
     */
    constructor (maze: array2<int>, width: int, height: int, nAnts: nat)
      requires maze.Length0 >= 3 && maze.Length1 >= 3 && WalkbackRules.BorderWalls(Snapshot(maze))
      requires 0 < maze.Length1 - 2 < maze.Length0 - 1 && 0 < maze.Length0 - 2 < maze.Length1 - 1
      modifies maze
      ensures Valid() && grid == maze && this.width == width && this.height == height && this.nAnts == nAnts
      ensures colonyPosition == ColonyPosition && foodPosition == (maze.Length1 - 2, maze.Length0 - 2)
      ensures Snapshot(maze) ==
                SetCell(SetCell(old(Snapshot(maze)), 1, 1, Colony), foodPosition.0, foodPosition.1, Food)
      ensures |ants| == nAnts && forall k :: 0 <= k < nAnts ==> fresh(ants[k]) && ants[k].View() == Start(1, 1)
    {
      this.width := width;
      this.height := height;
      this.nAnts := nAnts;
      grid := maze;
      colonyPosition := ColonyPosition;
      foodPosition := (maze.Length1 - 2, maze.Length0 - 2);
      ghost var g := Snapshot(maze);
      Assign(maze, 1, 1, Colony);
      InnerWriteKeepsGridOk(g, 1, 1, Colony);
      ghost var g1 := Snapshot(maze);
      Assign(maze, maze.Length1 - 2, maze.Length0 - 2, Food);
      InnerWriteKeepsGridOk(g1, maze.Length1 - 2, maze.Length0 - 2, Food);
      ghost var g2 := Snapshot(maze);
      var created: seq<Ant> := [];
      for k := 0 to nAnts
        invariant |created| == k && Snapshot(maze) == g2
        invariant forall i :: 0 <= i < k ==> fresh(created[i]) && created[i].View() == Start(1, 1)
        invariant forall i :: 0 <= i < k ==> created[i].grid == maze
        invariant forall i, j :: 0 <= i < k && 0 <= j < k && i != j ==> created[i] != created[j]
      {
        var ant := new Ant(maze, 1, 1);
        created := created + [ant];
      }
      ants := created;
      new;
      assert g2[1][1] != Wall;
      StartIsOk(g2, 1, 1);
    }

    /** Part-way through `update`: the first k planned steps have been taken. */
    ghost predicate SteppedTo(k: nat, g0: Grid, vs0: seq<DfsView>, os: seq<StepOutcome>)
      reads ants, grid
    {
      && k <= |os| == |vs0| && MovesWithin(g0, os)
      && Views() == Advanced(vs0, os, k) && Snapshot(grid) == MarkedUpTo(g0, os, k)
    }

    /** Part-way through `update` the model is valid. */
    lemma SteppedIsValid(k: nat, shuffles: seq<Shuffler>, g0: Grid, vs0: seq<DfsView>, os: seq<StepOutcome>)
      requires Shared() && Planned(vs0, g0, shuffles, os) && SteppedTo(k, g0, vs0, os)
      ensures Valid()
    {
      AdvancedIsOk(vs0, g0, shuffles, k, k);
    }

    /**
     * One pass of the loop in `update`: ant k steps on the maze as the
     * earlier passes left it, which has the walls of `g0`, so the step is
     * the planned one; the pass then reports whether the ant stands on the
     * food.
     */
    method StepAntAt(k: nat, shuffles: seq<Shuffler>, ghost g0: Grid, ghost vs0: seq<DfsView>,
                     ghost os: seq<StepOutcome>) returns (r: Result<bool>)
      requires k < |ants| && Shared() && Planned(vs0, g0, shuffles, os) && SteppedTo(k, g0, vs0, os)
      modifies grid, ants[k]
      ensures SteppedTo(k + 1, g0, vs0, os)
      ensures (r.Raise? <==> os[k].Failed?) && (r.Raise? ==> r.error == os[k].error)
      ensures r.Ok? ==> (r.value <==> os[k].ant.position.cell == foodPosition)
    {
      PlannedStep(vs0, g0, shuffles, os, k);
      ghost var before := Views();
      var stepped := ants[k].Step(Dt, shuffles[k]);
      forall j | 0 <= j < |ants| && j != k
        ensures ants[j].View() == before[j]
      {
        assert ants[j] != ants[k];
      }
      assert Views() == before[k := os[k].ant];
      if stepped.Raise? {
        return Raise(stepped.error);
      }
      r := Ok(ants[k].position.cell == foodPosition);
    }

    /**
     * `update`: step every ant once with dt = 0.1 and report whether an ant
     * stands on the food right after its step.  The first step that raises
     * ends the update: the ants before it have stepped, that ant's time has
     * grown, and the ants after it are untouched.
     */
    method Update(shuffles: seq<Shuffler>) returns (r: Result<bool>)
      requires Valid() && |shuffles| == |ants| && forall k :: 0 <= k < |shuffles| ==> WalkbackRules.IsShuffler(shuffles[k])
      modifies grid, ants
      ensures Valid()
      ensures Ticked(Plan(old(Views()), old(Snapshot(grid)), shuffles), old(Views()), old(Snapshot(grid)),
                     foodPosition, Views(), Snapshot(grid), r)
    {
      ghost var g0 := Snapshot(grid);
      ghost var vs0 := Views();
      ghost var os := Plan(vs0, g0, shuffles);
      var foodFound := false;
      for k := 0 to |ants|
        invariant k <= StopAt(os) && SteppedTo(k, g0, vs0, os)
        invariant foodFound <==> FoundIn(os, foodPosition, k)
      {
        var stepped := StepAntAt(k, shuffles, g0, vs0, os);
        StopAtNext(os, k);
        if stepped.Raise? {
          SteppedIsValid(k + 1, shuffles, g0, vs0, os);
          TickedAtFailure(os, vs0, g0, foodPosition, k);
          return Raise(stepped.error);
        }
        if stepped.value {
          foodFound := true;
        }
        FoundInNext(os, foodPosition, k);
      }
      SteppedIsValid(|ants|, shuffles, g0, vs0, os);
      TickedAtEnd(os, vs0, g0, foodPosition, foodFound);
      r := Ok(foodFound);
    }
  }
}
