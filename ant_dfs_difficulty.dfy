/**
 * The depth-first ant model of `antDFS_with_maze_difficulty.py`, in which
 * the maze itself carries the pheromone.  A searching ant drops the wall
 * neighbours, ranks the others by the level stored in their cells, and
 * either takes one of them outright (a draw below its level) or walks the
 * whole list in a shuffled order, entering the first cell it has not
 * visited.  Standing on the food (value 1) makes it a carrier; a carrier
 * walks its path back, adding 0.1 to every cell below 0.9 on the way, and
 * at the colony drops its food and forgets its walk.  After all ants have
 * stepped, every cell with a level in [0, 1) decays by the factor 0.99.
 *
 * The maze holds floats here.  `np.random.rand()` is the oracle `draw`:
 * the k-th number drawn during one step is `draw(k)`.  `shuffle` stands
 * for `np.random.shuffle`: some reordering of the list it is given.
 */
module AntDfsDifficulty {
  import opened Wrappers
  import opened Arrays
  import opened Cells
  import opened Locations
  import AntDfs
  import WalkbackRules

  const Colony: real := -1.0
  const Food: real := 1.0
  const Wall: real := 2.0
  /** The time step `update` passes to every ant. */
  const Dt: real := 0.1
  /** What a carrier adds to the cell it leaves. */
  const Deposit: real := 0.1
  /** A carrier adds to a cell only while its level is below this. */
  const DepositLimit: real := 0.9
  /** The factor `update` multiplies every pheromone level by. */
  const Evaporation: real := 0.99
  /** The default `bias` of `shuffle_cells_with_bias`, the only one `step` uses. */
  const Bias: real := 0.0
  const ColonyPosition: Cell := (4, 4)

  type Grid = seq<seq<real>>
  type Shuffler = seq<Cell> -> seq<Cell>
  /** The numbers `np.random.rand()` returns during one step, in the order they are drawn. */
  type Uniform = nat -> real

  /** `np.random.rand()` draws from [0, 1). */
  ghost predicate IsUniform(draw: Uniform) {
    forall k :: 0.0 <= draw(k) < 1.0
  }

  /** Every cell on the outer border of the maze is a wall. */
  predicate BorderWalls(g: Grid) {
    forall i, j :: 0 <= i < |g| && 0 <= j < |g[i]| && (i == 0 || i == |g| - 1 || j == 0 || j == |g[i]| - 1) ==>
      g[i][j] == Wall
  }

  /** A maze the ants can walk without leaving it: a rectangle of at least 3 by 3 whose border is wall. */
  predicate GridOk(g: Grid) {
    |g| >= 3 && |g[0]| >= 3 && IsRect(g, |g|, |g[0]|) && BorderWalls(g)
  }

  /** An inner cell of the maze that is not a wall. */
  predicate OnFloor(g: Grid, c: Cell)
    requires GridOk(g)
  {
    WalkbackRules.Interior(g, c) && g[c.0][c.1] != Wall
  }

  /** Two mazes of the same shape with walls in the same places. */
  predicate SameWalls(g1: Grid, g2: Grid) {
    && |g1| == |g2|
    && (forall i :: 0 <= i < |g1| ==> |g1[i]| == |g2[i]|)
    && (forall i, j :: 0 <= i < |g1| && 0 <= j < |g1[i]| ==> (g1[i][j] == Wall <==> g2[i][j] == Wall))
  }

  predicate SameShape(g: Grid, g': Grid) {
    |g'| == |g| && forall i :: 0 <= i < |g| ==> |g'[i]| == |g[i]|
  }

  /** A pheromone level: a value in [0, 1), so never the food mark. */
  predicate Level(v: real) {
    0.0 <= v < 1.0
  }

  /** Every cell holds a wall, the colony mark, the food mark or a pheromone level. */
  predicate Marks(g: Grid) {
    forall i, j :: 0 <= i < |g| && 0 <= j < |g[i]| ==>
      g[i][j] == Wall || g[i][j] == Colony || g[i][j] == Food || Level(g[i][j])
  }

  /**
   * What an ant is: its position, the list it was created with at the
   * colony, its visited list and path stack, the time since it last moved
   * and whether it carries food.
   */
  datatype AntView = AntView(position: Loc, colony: Loc, visited: seq<Loc>, path: seq<Loc>, time: real, hasFood: bool)

  /** A new ant at (x, y): position and colony are the list `[x, y]`, which is all it has visited and all its path. */
  function Start(x: int, y: int): (a: AntView)
    ensures a.position == a.colony == AsList(x, y) && a.visited == [a.position] && a.path == [a.position]
    ensures a.time == 0.0 && !a.hasFood
  {
    AntView(AsList(x, y), AsList(x, y), [AsList(x, y)], [AsList(x, y)], 0.0, false)
  }

  /**
   * The ant invariant: the path stack starts at the colony and ends at the
   * position, it is a walk of neighbouring cells, and every cell on it is
   * an inner floor cell that is also in the visited list.
   */
  predicate AntOk(g: Grid, a: AntView)
    requires GridOk(g)
  {
    && |a.path| >= 1 && a.path[|a.path| - 1] == a.position && a.path[0] == a.colony
    && (forall k :: 0 <= k < |a.path| ==> OnFloor(g, a.path[k].cell) && a.path[k] in a.visited)
    && (forall k :: 0 <= k < |a.path| - 1 ==> AntDfs.Linked(a.path, k))
  }

  lemma StartIsOk(g: Grid, x: int, y: int)
    requires GridOk(g) && OnFloor(g, (x, y))
    ensures AntOk(g, Start(x, y))
  {
  }

  // ----- shuffle_cells_with_bias -----

  /** A level or a distance paired with a cell, as `zip` pairs them. */
  type Keyed = (real, Cell)

  /** Python's order on such pairs: by the number, then by the cell's coordinates. */
  predicate Le(p: Keyed, q: Keyed) {
    p.0 < q.0 || (p.0 == q.0 && (p.1.0 < q.1.0 || (p.1.0 == q.1.0 && p.1.1 <= q.1.1)))
  }

  predicate Ascending(s: seq<Keyed>) {
    forall i, j :: 0 <= i < j < |s| ==> Le(s[i], s[j])
  }

  /** p put into its place in an ascending list. */
  function Insert(p: Keyed, s: seq<Keyed>): (r: seq<Keyed>)
    requires Ascending(s)
    ensures Ascending(r) && multiset(r) == multiset(s) + multiset{p}
  {
    if s == [] then [p]
    else if Le(p, s[0]) then [p] + s
    else
      var t := Insert(p, s[1..]);
      assert s == [s[0]] + s[1..];
      InsertedAfter(s, p, t);
      [s[0]] + t
  }

  /** The head of an ascending list goes before everything of a list holding its tail and a larger p. */
  lemma InsertedAfter(s: seq<Keyed>, p: Keyed, t: seq<Keyed>)
    requires s != [] && Ascending(s) && !Le(p, s[0]) && Ascending(t)
    requires multiset(t) == multiset(s[1..]) + multiset{p}
    ensures Ascending([s[0]] + t)
  {
    var r := [s[0]] + t;
    forall j | 0 < j < |r|
      ensures Le(s[0], r[j])
    {
      assert r[j] == t[j - 1];
      assert r[j] in multiset(t);
      if r[j] != p {
        assert r[j] in multiset(s[1..]);
        var i :| 0 <= i < |s[1..]| && s[1..][i] == r[j];
        assert s[i + 1] == r[j];
      }
    }
  }

  /** `sorted`: an ascending reordering. */
  function Sort(s: seq<Keyed>): (r: seq<Keyed>)
    ensures |r| == |s| && Ascending(r) && multiset(r) == multiset(s)
  {
    if s == [] then []
    else
      assert s == [s[0]] + s[1..];
      var r := Insert(s[0], Sort(s[1..]));
      assert |r| == |multiset(r)|;
      r
  }

  /**
   * The order on pairs is total and antisymmetric, so there is one
   * ascending reordering of a list: whichever algorithm Python's `sorted`
   * uses, it returns `Sort`.
   */
  lemma SortIsUnique(s: seq<Keyed>, t: seq<Keyed>)
    requires Ascending(t) && multiset(t) == multiset(s)
    ensures t == Sort(s)
  {
    AscendingUnique(Sort(s), t);
  }

  lemma {:induction false} AscendingUnique(r: seq<Keyed>, t: seq<Keyed>)
    requires Ascending(r) && Ascending(t) && multiset(r) == multiset(t)
    ensures r == t
    decreases |r|
  {
    assert |r| == |multiset(r)| == |multiset(t)| == |t|;
    if r != [] {
      SameHead(r, t);
      Tail(r);
      Tail(t);
      AscendingUnique(r[1..], t[1..]);
      assert r == [r[0]] + r[1..] && t == [t[0]] + t[1..];
    }
  }

  /** Two ascending lists with the same members start with the same pair. */
  lemma SameHead(r: seq<Keyed>, t: seq<Keyed>)
    requires Ascending(r) && Ascending(t) && multiset(r) == multiset(t) && r != [] && t != []
    ensures r[0] == t[0]
  {
    assert r[0] in multiset(t) && t[0] in multiset(r);
    var i :| 0 <= i < |t| && t[i] == r[0];
    var j :| 0 <= j < |r| && r[j] == t[0];
    assert Le(t[0], r[0]) by { if i > 0 { assert Le(t[0], t[i]); } }
    assert Le(r[0], t[0]) by { if j > 0 { assert Le(r[0], r[j]); } }
  }

  lemma Tail(r: seq<Keyed>)
    requires r != []
    ensures multiset(r[1..]) == multiset(r) - multiset{r[0]}
  {
    assert r == [r[0]] + r[1..];
  }

  /** `zip(keys, cells)`. */
  function Zip(keys: seq<real>, cells: seq<Cell>): (ps: seq<Keyed>)
    requires |keys| == |cells|
    ensures |ps| == |cells| && forall k :: 0 <= k < |cells| ==> ps[k] == (keys[k], cells[k])
  {
    seq(|cells|, k requires 0 <= k < |cells| => (keys[k], cells[k]))
  }

  /** `[cell for _, cell in ps]`. */
  function Seconds(ps: seq<Keyed>): (cells: seq<Cell>)
    ensures |cells| == |ps| && forall k :: 0 <= k < |ps| ==> cells[k] == ps[k].1
  {
    seq(|ps|, k requires 0 <= k < |ps| => ps[k].1)
  }

  function Reverse(s: seq<Cell>): (r: seq<Cell>)
    ensures |r| == |s| && forall k :: 0 <= k < |s| ==> r[k] == s[|s| - 1 - k]
    ensures forall c :: c in r <==> c in s
  {
    var r := seq(|s|, k requires 0 <= k < |s| => s[|s| - 1 - k]);
    forall c | c in s
      ensures c in r
    {
      var k :| 0 <= k < |s| && s[k] == c;
      assert r[|s| - 1 - k] == c;
    }
    r
  }

  /** The cells of `zip(keys, cells)` sorted, in their new order: the same cells, each as often. */
  function Ranked(keys: seq<real>, cells: seq<Cell>): (r: seq<Cell>)
    requires |keys| == |cells|
    ensures |r| == |cells| && forall c :: c in r <==> c in cells
  {
    var ps := Zip(keys, cells);
    var r := Seconds(Sort(ps));
    forall c
      ensures c in r <==> c in cells
    {
      if c in r {
        var k :| 0 <= k < |r| && r[k] == c;
        assert Sort(ps)[k] in multiset(ps);
        var j :| 0 <= j < |ps| && ps[j] == Sort(ps)[k];
        assert cells[j] == c;
      }
      if c in cells {
        var j :| 0 <= j < |cells| && cells[j] == c;
        assert ps[j] in multiset(Sort(ps));
        var k :| 0 <= k < |ps| && Sort(ps)[k] == ps[j];
        assert r[k] == c;
      }
    }
    r
  }

  /** The neighbours that are not walls, in their order. */
  function NonWalls(g: Grid, cells: seq<Cell>): (r: seq<Cell>)
    requires WalkbackRules.AllWithin(g, cells)
    ensures WalkbackRules.AllWithin(g, r) && forall k :: 0 <= k < |r| ==> g[r[k].0][r[k].1] != Wall
    ensures forall c :: c in r ==> c in cells
    ensures forall k :: 0 <= k < |cells| && g[cells[k].0][cells[k].1] != Wall ==> cells[k] in r
  {
    if cells == [] then []
    else
      var rest := NonWalls(g, cells[1..]);
      assert forall k :: 1 <= k < |cells| ==> cells[k] == cells[1..][k - 1];
      if g[cells[0].0][cells[0].1] != Wall then [cells[0]] + rest else rest
  }

  /** The level stored in each cell. */
  function Levels(g: Grid, cells: seq<Cell>): (levels: seq<real>)
    requires WalkbackRules.AllWithin(g, cells)
    ensures |levels| == |cells| && forall k :: 0 <= k < |cells| ==> levels[k] == g[cells[k].0][cells[k].1]
  {
    seq(|cells|, k requires 0 <= k < |cells| => g[cells[k].0][cells[k].1])
  }

  /** The first index from i on whose draw falls below its level. */
  function FirstBelow(draw: Uniform, levels: seq<real>, i: nat): (r: Option<nat>)
    requires i <= |levels|
    ensures r.None? <==> forall k :: i <= k < |levels| ==> !(draw(k) < levels[k])
    ensures r.Some? ==> && i <= r.value < |levels| && draw(r.value) < levels[r.value]
                        && forall k :: i <= k < r.value ==> !(draw(k) < levels[k])
    decreases |levels| - i
  {
    if i == |levels| then None
    else if draw(i) < levels[i] then Some(i)
    else FirstBelow(draw, levels, i + 1)
  }

  /** The square of the distance from c to o, which orders cells as the distance does. */
  function SquaredDistance(c: Cell, o: Cell): real {
    ((c.0 - o.0) * (c.0 - o.0) + (c.1 - o.1) * (c.1 - o.1)) as real
  }

  function Distances(cells: seq<Cell>, o: Cell): (ds: seq<real>)
    ensures |ds| == |cells| && forall k :: 0 <= k < |cells| ==> ds[k] == SquaredDistance(cells[k], o)
  {
    seq(|cells|, k requires 0 <= k < |cells| => SquaredDistance(cells[k], o))
  }

  /** What `shuffle_cells_with_bias` returns: one bare cell, or a list. */
  datatype Choice = Single(cell: Cell) | Ordered(cells: seq<Cell>)

  /** A reordering keeps the length and the members. */
  lemma Reordered(shuffle: Shuffler, s: seq<Cell>)
    requires WalkbackRules.IsShuffler(shuffle)
    ensures |shuffle(s)| == |s| && forall c :: c in shuffle(s) <==> c in s
  {
    assert multiset(shuffle(s)) == multiset(s);
    assert |shuffle(s)| == |multiset(shuffle(s))|;
    forall c
      ensures c in shuffle(s) <==> c in s
    {
      assert c in shuffle(s) <==> c in multiset(shuffle(s));
    }
  }

  lemma MembersWithin(g: Grid, s: seq<Cell>, t: seq<Cell>)
    requires WalkbackRules.AllWithin(g, s) && forall c :: c in t ==> c in s
    ensures WalkbackRules.AllWithin(g, t)
  {
    forall k | 0 <= k < |t|
      ensures WalkbackRules.Within(g, t[k])
    {
      assert t[k] in s;
    }
  }

  /**
   * `shuffle_cells_with_bias(adj_cells)`: drop the walls and rank the rest
   * by their levels.  With `levels` still in the neighbours' own order,
   * the first index i whose draw falls below `levels[i]` returns the bare
   * ranked cell i.  Otherwise one more draw above the bias returns the
   * ranked list shuffled, and a draw at or below it returns the list from
   * the farthest cell from the colony to the nearest.
   */
  function Biased(g: Grid, adj: seq<Cell>, colony: Cell, draw: Uniform, shuffle: Shuffler): (c: Choice)
    requires WalkbackRules.AllWithin(g, adj) && WalkbackRules.IsShuffler(shuffle)
    ensures c.Single? ==> c.cell in NonWalls(g, adj)
    ensures c.Ordered? ==> && |c.cells| == |NonWalls(g, adj)| && WalkbackRules.AllWithin(g, c.cells)
                           && forall x :: x in c.cells <==> x in NonWalls(g, adj)
  {
    var cells := NonWalls(g, adj);
    var levels := Levels(g, cells);
    var ranked := Ranked(levels, cells);
    match FirstBelow(draw, levels, 0)
    case Some(i) => Single(ranked[i])
    case None =>
      var order := if draw(|levels|) > Bias then shuffle(ranked) else Reverse(Ranked(Distances(ranked, colony), ranked));
      Reordered(shuffle, ranked);
      MembersWithin(g, cells, order);
      Ordered(order)
  }

  /**
   * A draw falls below the level of a neighbour holding the food mark or
   * pheromone above every draw, so next to the food an ant searching
   * always gets a bare cell.  With no level above 0 among the floor
   * neighbours, it always gets a list.
   */
  lemma BiasedSingleWhen(g: Grid, adj: seq<Cell>, colony: Cell, draw: Uniform, shuffle: Shuffler)
    requires WalkbackRules.AllWithin(g, adj) && WalkbackRules.IsShuffler(shuffle) && IsUniform(draw)
    ensures (exists k :: 0 <= k < |adj| && g[adj[k].0][adj[k].1] == Food) ==> Biased(g, adj, colony, draw, shuffle).Single?
    ensures (forall k :: 0 <= k < |adj| && g[adj[k].0][adj[k].1] != Wall ==> g[adj[k].0][adj[k].1] <= 0.0) ==>
              Biased(g, adj, colony, draw, shuffle).Ordered?
  {
    var cells := NonWalls(g, adj);
    var levels := Levels(g, cells);
    if exists k :: 0 <= k < |adj| && g[adj[k].0][adj[k].1] == Food {
      var k :| 0 <= k < |adj| && g[adj[k].0][adj[k].1] == Food;
      assert adj[k] in cells;
      var i :| 0 <= i < |cells| && cells[i] == adj[k];
      assert draw(i) < levels[i];
    }
    if forall k :: 0 <= k < |adj| && g[adj[k].0][adj[k].1] != Wall ==> g[adj[k].0][adj[k].1] <= 0.0 {
      forall i | 0 <= i < |levels|
        ensures !(draw(i) < levels[i])
      {
        assert cells[i] in adj;
        var k :| 0 <= k < |adj| && adj[k] == cells[i];
        assert draw(i) >= 0.0;
      }
    }
  }

  // ----- step -----

  /** The maze test of the loop in `step`: `grid[cell] != 2 and cell not in visited`, for a neighbour tuple. */
  predicate Fresh(g: Grid, visited: seq<Loc>, c: Cell)
    requires WalkbackRules.Within(g, c)
  {
    g[c.0][c.1] != Wall && AsTuple(c) !in visited
  }

  /** The index of the first fresh cell of the list, if there is one. */
  function FirstFresh(g: Grid, visited: seq<Loc>, cells: seq<Cell>): (r: Option<nat>)
    requires WalkbackRules.AllWithin(g, cells)
    ensures r.None? <==> forall k :: 0 <= k < |cells| ==> !Fresh(g, visited, cells[k])
    ensures r.Some? ==> && r.value < |cells| && Fresh(g, visited, cells[r.value])
                        && forall k :: 0 <= k < r.value ==> !Fresh(g, visited, cells[k])
  {
    if cells == [] then None
    else if Fresh(g, visited, cells[0]) then Some(0)
    else match FirstFresh(g, visited, cells[1..])
         case None => None
         case Some(k) => Some(k + 1)
  }

  /** What one call of `step` did, with the ant afterwards; a carrier's step may add to the cell it left. */
  datatype StepOutcome =
    | Waited(ant: AntView)
    | Delivered(ant: AntView)
    | Moved(ant: AntView, cell: Cell)
    | Returned(ant: AntView, deposit: Option<Cell>)
    | Failed(ant: AntView, error: Exception, deposit: Option<Cell>)

  /** The cell a step added pheromone to, if any. */
  function Dropped(o: StepOutcome): Option<Cell> {
    if o.Returned? || o.Failed? then o.deposit else None
  }

  /** The end of `step`: go back to the previous cell of the path and pop it; `path[-2]` raises `IndexError` on a path of one cell. */
  function StepBack(a: AntView, deposit: Option<Cell>): (o: StepOutcome)
    ensures o.Failed? <==> |a.path| < 2
    ensures o.Failed? ==> o.error == IndexError && o.ant == a && o.deposit == deposit
    ensures o.Returned? ==> && o.ant == a.(position := a.path[|a.path| - 2], path := a.path[..|a.path| - 1], time := 0.0)
                            && o.deposit == deposit
  {
    if |a.path| < 2 then Failed(a, IndexError, deposit)
    else Returned(a.(position := a.path[|a.path| - 2], path := a.path[..|a.path| - 1], time := 0.0), deposit)
  }

  /**
   * The search of an ant without food: on a bare cell the loop of `step`
   * fails with `TypeError`; otherwise enter the first fresh cell of the
   * list, or step back when there is none.
   */
  function SearchRule(a: AntView, g: Grid, draw: Uniform, shuffle: Shuffler): (o: StepOutcome)
    requires GridOk(g) && AntOk(g, a) && WalkbackRules.IsShuffler(shuffle)
    ensures Dropped(o).None?
  {
    match Biased(g, Neighbours4(a.position.cell), a.colony.cell, draw, shuffle)
    case Single(_) => Failed(a, TypeError, None)
    case Ordered(order) =>
      match FirstFresh(g, a.visited, order)
      case Some(k) =>
        var c := AsTuple(order[k]);
        Moved(a.(position := c, visited := a.visited + [c], path := a.path + [c], time := 0.0), order[k])
      case None => StepBack(a, None)
  }

  /** A carrier adds to its cell when the level there is in [0, 0.9) and steps back. */
  function CarryRule(a: AntView, g: Grid): (o: StepOutcome)
    requires GridOk(g) && AntOk(g, a)
  {
    var p := a.position.cell;
    StepBack(a, if 0.0 <= g[p.0][p.1] < DepositLimit then Some(p) else None)
  }

  /**
   * `step(dt)`: once the accumulated time is positive, a cell holding 1
   * makes the ant a carrier; a carrier on its colony list delivers, a
   * searching ant searches and a carrier carries.
   */
  function StepRule(a: AntView, g: Grid, dt: real, draw: Uniform, shuffle: Shuffler): (o: StepOutcome)
    requires GridOk(g) && AntOk(g, a) && WalkbackRules.IsShuffler(shuffle)
  {
    var t := a.time + dt;
    if !(t > 0.0) then Waited(a.(time := t))
    else
      var p := a.position.cell;
      var a1 := a.(time := t, hasFood := a.hasFood || g[p.0][p.1] == Food);
      if a1.position == a1.colony && a1.hasFood then
        Delivered(a1.(visited := [a1.position], path := [a1.position], time := 0.0, hasFood := false))
      else if !a1.hasFood then SearchRule(a1, g, draw, shuffle)
      else CarryRule(a1, g)
  }

  /**
   * The maze after a step: when the step added pheromone, the cell holds
   * its old level plus 0.1, and every other cell is as it was.
   */
  function Marked(g: Grid, o: StepOutcome): (g': Grid)
    requires Dropped(o).Some? ==> WalkbackRules.Within(g, Dropped(o).value)
    ensures SameShape(g, g')
    ensures Dropped(o).Some? ==> var c := Dropped(o).value;
              && g'[c.0][c.1] == g[c.0][c.1] + Deposit
              && forall i, j :: 0 <= i < |g| && 0 <= j < |g[i]| && (i, j) != c ==> g'[i][j] == g[i][j]
    ensures Dropped(o).None? ==> g' == g
  {
    match Dropped(o)
    case None => g
    case Some(c) => SetCell(g, c.0, c.1, g[c.0][c.1] + Deposit)
  }

  /**
   * A cell that holds 1 makes the ant a carrier: unless it delivers at its
   * colony list, it neither moves forward nor searches, and it comes out of
   * the step carrying food.
   */
  lemma PicksUpFood(a: AntView, g: Grid, dt: real, draw: Uniform, shuffle: Shuffler)
    requires GridOk(g) && AntOk(g, a) && WalkbackRules.IsShuffler(shuffle)
    requires a.time + dt > 0.0 && g[a.position.cell.0][a.position.cell.1] == Food && a.position != a.colony
    ensures var o := StepRule(a, g, dt, draw, shuffle);
            && (o.Returned? || (o.Failed? && o.error == IndexError)) && o.ant.hasFood
  {
  }

  /**
   * A due step delivers exactly when the ant stands on its colony list
   * carrying food, or on a colony list cell that holds 1; it then empties
   * the visited list and the path down to that cell and drops the food,
   * without moving.
   */
  lemma DeliversAtColony(a: AntView, g: Grid, dt: real, draw: Uniform, shuffle: Shuffler)
    requires GridOk(g) && AntOk(g, a) && WalkbackRules.IsShuffler(shuffle)
    ensures var o := StepRule(a, g, dt, draw, shuffle);
            && (o.Delivered? <==> a.time + dt > 0.0 && a.position == a.colony &&
                                  (a.hasFood || g[a.position.cell.0][a.position.cell.1] == Food))
            && (o.Delivered? ==> && o.ant.position == a.position && o.ant.visited == [a.colony]
                                 && o.ant.path == [a.colony] && !o.ant.hasFood && o.ant.time == 0.0)
  {
  }

  /**
   * Only a searching ant moves forward: to a neighbour that is not a wall
   * and whose tuple is not visited, pushed on the visited list and the
   * path.
   */
  lemma MovesForward(a: AntView, g: Grid, dt: real, draw: Uniform, shuffle: Shuffler)
    requires GridOk(g) && AntOk(g, a) && WalkbackRules.IsShuffler(shuffle)
    ensures var o := StepRule(a, g, dt, draw, shuffle);
            o.Moved? ==> && !o.ant.hasFood && !a.hasFood
                         && Adjacent(a.position.cell, o.cell) && g[o.cell.0][o.cell.1] != Wall
                         && AsTuple(o.cell) !in a.visited && o.ant.position == AsTuple(o.cell)
                         && o.ant.visited == a.visited + [o.ant.position] && o.ant.path == a.path + [o.ant.position]
  {
    var o := StepRule(a, g, dt, draw, shuffle);
    if o.Moved? {
      var p := a.position.cell;
      var adj := Neighbours4(p);
      var a1 := a.(time := a.time + dt, hasFood := false);
      var order := Biased(g, adj, a.colony.cell, draw, shuffle).cells;
      var k := FirstFresh(g, a1.visited, order).value;
      assert order[k] == o.cell;
      assert o.cell in NonWalls(g, adj);
      assert o.cell in adj;
    }
  }

  /**
   * A carrier steps back along its path, and the cell it leaves gets 0.1
   * more pheromone exactly when its level was in [0, 0.9); a carrier never
   * fails, because a path of one cell ends on the colony list, where it
   * would have delivered.
   */
  lemma CarriesBack(a: AntView, g: Grid, dt: real, draw: Uniform, shuffle: Shuffler)
    requires GridOk(g) && AntOk(g, a) && WalkbackRules.IsShuffler(shuffle)
    ensures var o := StepRule(a, g, dt, draw, shuffle);
            && (o.Failed? ==> !o.ant.hasFood && Dropped(o).None?)
            && (o.Returned? && o.ant.hasFood ==>
                  && o.ant.position == a.path[|a.path| - 2] && o.ant.path == a.path[..|a.path| - 1]
                  && o.ant.visited == a.visited
                  && (Dropped(o).Some? <==> 0.0 <= g[a.position.cell.0][a.position.cell.1] < DepositLimit)
                  && (Dropped(o).Some? ==> Dropped(o).value == a.position.cell))
            && (Dropped(o).Some? ==> o.Returned? && o.ant.hasFood)
  {
  }

  /** A searching ant next to the food always stops its step with `TypeError`. */
  lemma BreaksNextToFood(a: AntView, g: Grid, dt: real, draw: Uniform, shuffle: Shuffler)
    requires GridOk(g) && AntOk(g, a) && WalkbackRules.IsShuffler(shuffle) && IsUniform(draw)
    requires a.time + dt > 0.0 && !a.hasFood && g[a.position.cell.0][a.position.cell.1] != Food
    requires exists c :: Adjacent(a.position.cell, c) && WalkbackRules.Within(g, c) && g[c.0][c.1] == Food
    ensures var o := StepRule(a, g, dt, draw, shuffle);
            o.Failed? && o.error == TypeError && o.ant == a.(time := a.time + dt)
  {
    var p := a.position.cell;
    var adj := Neighbours4(p);
    var c :| Adjacent(p, c) && WalkbackRules.Within(g, c) && g[c.0][c.1] == Food;
    Neighbours4Exact(p);
    var k :| 0 <= k < 4 && adj[k] == c;
    BiasedSingleWhen(g, adj, a.colony.cell, draw, shuffle);
  }

  /** A step keeps the ant invariant, and what it adds to the maze keeps the walls and the marks. */
  lemma StepKeepsOk(a: AntView, g: Grid, dt: real, draw: Uniform, shuffle: Shuffler)
    requires GridOk(g) && AntOk(g, a) && WalkbackRules.IsShuffler(shuffle)
    ensures var o := StepRule(a, g, dt, draw, shuffle);
            && (Dropped(o).Some? ==> WalkbackRules.Within(g, Dropped(o).value))
            && SameWalls(g, Marked(g, o)) && GridOk(Marked(g, o)) && AntOk(Marked(g, o), o.ant)
            && (Marks(g) ==> Marks(Marked(g, o)))
  {
    var o := StepRule(a, g, dt, draw, shuffle);
    StepHasShape(a, g, dt, draw, shuffle);
    ShapeKeepsOk(g, a, o);
  }

  /** How a step can change an ant, whatever branch it takes. */
  predicate StepShape(g: Grid, a: AntView, o: StepOutcome)
    requires GridOk(g) && AntOk(g, a)
  {
    && o.ant.colony == a.colony
    && ((o.Waited? || o.Failed?) ==> o.ant.path == a.path && o.ant.visited == a.visited && o.ant.position == a.position)
    && (o.Delivered? ==> && a.position == a.colony && o.ant.position == a.colony
                         && o.ant.path == [a.colony] && o.ant.visited == [a.colony])
    && (o.Moved? ==> && OnFloor(g, o.ant.position.cell) && Adjacent(a.position.cell, o.ant.position.cell)
                     && o.ant.visited == a.visited + [o.ant.position] && o.ant.path == a.path + [o.ant.position])
    && (o.Returned? ==> && |a.path| >= 2 && o.ant.visited == a.visited
                        && o.ant.position == a.path[|a.path| - 2] && o.ant.path == a.path[..|a.path| - 1])
    && (Dropped(o).Some? ==> Dropped(o).value == a.position.cell &&
                             0.0 <= g[a.position.cell.0][a.position.cell.1] < DepositLimit)
  }

  lemma StepHasShape(a: AntView, g: Grid, dt: real, draw: Uniform, shuffle: Shuffler)
    requires GridOk(g) && AntOk(g, a) && WalkbackRules.IsShuffler(shuffle)
    ensures StepShape(g, a, StepRule(a, g, dt, draw, shuffle))
  {
    if a.time + dt > 0.0 {
      var p := a.position.cell;
      var a1 := a.(time := a.time + dt, hasFood := a.hasFood || g[p.0][p.1] == Food);
      assert AntOk(g, a1);
      if a1.position == a1.colony && a1.hasFood {
      } else if !a1.hasFood {
        SearchHasShape(a1, g, draw, shuffle);
      } else {
        assert StepShape(g, a1, CarryRule(a1, g));
      }
    }
  }

  /** The search of a ready ant has the shape of a step. */
  lemma SearchHasShape(a: AntView, g: Grid, draw: Uniform, shuffle: Shuffler)
    requires GridOk(g) && AntOk(g, a) && WalkbackRules.IsShuffler(shuffle)
    ensures StepShape(g, a, SearchRule(a, g, draw, shuffle))
  {
    var adj := Neighbours4(a.position.cell);
    var choice := Biased(g, adj, a.colony.cell, draw, shuffle);
    if choice.Ordered? {
      var f := FirstFresh(g, a.visited, choice.cells);
      if f.Some? {
        var c := choice.cells[f.value];
        assert c in NonWalls(g, adj);
        assert c in adj;
      }
    }
  }

  /** An outcome of that shape keeps the ant invariant, and its deposit keeps the walls and the marks. */
  lemma ShapeKeepsOk(g: Grid, a: AntView, o: StepOutcome)
    requires GridOk(g) && AntOk(g, a) && StepShape(g, a, o)
    ensures && (Dropped(o).Some? ==> WalkbackRules.Within(g, Dropped(o).value))
            && SameWalls(g, Marked(g, o)) && GridOk(Marked(g, o)) && AntOk(Marked(g, o), o.ant)
            && (Marks(g) ==> Marks(Marked(g, o)))
  {
    if o.Moved? {
      ForwardKeepsOk(g, a, o.ant);
    } else if o.Returned? {
      BackKeepsOk(g, a, o.ant);
    }
    var g' := Marked(g, o);
    if Dropped(o).Some? {
      var c := Dropped(o).value;
      assert Level(g'[c.0][c.1]);
    }
    SameWallsKeepOk(g, g', o.ant);
  }

  /** Pushing a fresh neighbour on the path keeps the ant invariant. */
  lemma ForwardKeepsOk(g: Grid, a: AntView, b: AntView)
    requires GridOk(g) && AntOk(g, a) && b.colony == a.colony
    requires OnFloor(g, b.position.cell) && Adjacent(a.position.cell, b.position.cell)
    requires b.visited == a.visited + [b.position] && b.path == a.path + [b.position]
    ensures AntOk(g, b)
  {
    var p := b.path;
    forall k | 0 <= k < |p| - 1
      ensures AntDfs.Linked(p, k)
    {
      if k < |a.path| - 1 {
        assert p[k] == a.path[k] && p[k + 1] == a.path[k + 1];
        assert AntDfs.Linked(a.path, k);
      } else {
        assert p[k] == a.position && p[k + 1] == b.position;
      }
    }
  }

  /** Popping the path down to its previous cell keeps the ant invariant. */
  lemma BackKeepsOk(g: Grid, a: AntView, b: AntView)
    requires GridOk(g) && AntOk(g, a) && |a.path| >= 2 && b.colony == a.colony && b.visited == a.visited
    requires b.position == a.path[|a.path| - 2] && b.path == a.path[..|a.path| - 1]
    ensures AntOk(g, b)
  {
    var p := b.path;
    forall k | 0 <= k < |p| - 1
      ensures AntDfs.Linked(p, k)
    {
      assert AntDfs.Linked(a.path, k);
    }
  }

  /** The invariants depend only on where the walls are. */
  lemma SameWallsKeepOk(g1: Grid, g2: Grid, a: AntView)
    requires GridOk(g1) && SameWalls(g1, g2)
    ensures GridOk(g2) && (AntOk(g1, a) <==> AntOk(g2, a))
  {
    assert |g2[0]| == |g1[0]|;
  }

  lemma SameWallsKeepAllOk(g1: Grid, g2: Grid, vs: seq<AntView>)
    requires GridOk(g1) && SameWalls(g1, g2) && AllOk(g1, vs)
    ensures GridOk(g2) && AllOk(g2, vs)
  {
    forall k | 0 <= k < |vs|
      ensures AntOk(g2, vs[k])
    {
      assert AntOk(g1, vs[k]);
      SameWallsKeepOk(g1, g2, vs[k]);
    }
    assert |g2[0]| == |g1[0]|;
  }

  /** Writing into an inner cell keeps the border walls. */
  lemma InnerWriteKeepsGridOk(g: Grid, i: int, j: int, v: real)
    requires GridOk(g) && WalkbackRules.Interior(g, (i, j))
    ensures GridOk(SetCell(g, i, j, v))
  {
    assert |SetCell(g, i, j, v)[0]| == |g[0]|;
  }

  // ----- the integer maze -----

  /** How a numpy array of integers stores a float assigned into one of its cells: truncated toward zero. */
  function StoredAsInteger(v: real): (s: int)
    ensures v >= 0.0 ==> s as real <= v < s as real + 1.0
    ensures v < 0.0 ==> s as real - 1.0 < v <= s as real
  {
    if v >= 0.0 then v.Floor else -((-v).Floor)
  }

  /**
   * In a maze of integers, the only level is 0: a deposit stores 0 again
   * and decay stores it back, so no pheromone ever appears.
   */
  lemma IntegerMazeKeepsNoPheromone(v: int)
    requires Level(v as real)
    ensures v == 0
    ensures StoredAsInteger(v as real + Deposit) == v && StoredAsInteger(v as real * Evaporation) == v
  {
  }

  // ----- update -----

  /** Every ant in the list keeps the ant invariant. */
  predicate AllOk(g: Grid, vs: seq<AntView>)
    requires GridOk(g)
  {
    forall k {:trigger AntOk(g, vs[k])} :: 0 <= k < |vs| ==> AntOk(g, vs[k])
  }

  /** One draw oracle and one reordering per ant. */
  ghost predicate Inputs(vs: seq<AntView>, draws: seq<Uniform>, shuffles: seq<Shuffler>) {
    |draws| == |vs| && |shuffles| == |vs| && forall k :: 0 <= k < |shuffles| ==> WalkbackRules.IsShuffler(shuffles[k])
  }

  /** Replacing one ant by one that is ready in a maze with the same walls leaves every ant ready there. */
  lemma ReplacedIsOk(g: Grid, vs: seq<AntView>, g': Grid, k: nat, a: AntView)
    requires GridOk(g) && AllOk(g, vs) && SameWalls(g, g') && GridOk(g') && k < |vs| && AntOk(g', a)
    ensures AllOk(g', vs[k := a])
  {
    var vs' := vs[k := a];
    forall j | 0 <= j < |vs'|
      ensures AntOk(g', vs'[j])
    {
      if j != k {
        assert AntOk(g, vs[j]);
        SameWallsKeepOk(g, g', vs[j]);
      }
    }
  }

  /** How the ant loop of `update` ends: the ants, the maze, the error that ended it, and whether an ant stood on the food. */
  datatype Swept = Swept(ants: seq<AntView>, grid: Grid, error: Option<Exception>, found: bool)

  /**
   * The ant loop of `update` from pass k on, with `found` telling whether
   * an earlier pass found the food: each ant steps on the maze the earlier
   * ones left, and the first step that raises ends the loop.  The walls and
   * the marks stay, every ant stays ready, the ants before k are not
   * touched, and when nothing raises the food is found exactly when it was
   * already or one of the ants from k on stands on it after its step.
   */
  function Run(vs: seq<AntView>, g: Grid, draws: seq<Uniform>, shuffles: seq<Shuffler>, food: Cell,
               k: nat, found: bool): (s: Swept)
    requires GridOk(g) && AllOk(g, vs) && Inputs(vs, draws, shuffles) && k <= |vs|
    ensures |s.ants| == |vs| && SameWalls(g, s.grid) && GridOk(s.grid) && AllOk(s.grid, s.ants)
    ensures Marks(g) ==> Marks(s.grid)
    ensures forall j :: 0 <= j < k ==> s.ants[j] == vs[j]
    ensures s.error.None? ==> (s.found <==> found || exists j :: k <= j < |vs| && s.ants[j].position.cell == food)
    decreases |vs| - k
  {
    if k == |vs| then Swept(vs, g, None, found)
    else
      var t := Pass(vs, g, draws, shuffles, food, k);
      if t.error.Some? then Swept(t.ants, t.grid, t.error, found)
      else
        var s := Run(t.ants, t.grid, draws, shuffles, food, k + 1, found || t.found);
        assert s.error.None? ==>
                 ((exists j :: k <= j < |vs| && s.ants[j].position.cell == food) <==>
                  t.found || exists j :: k + 1 <= j < |vs| && s.ants[j].position.cell == food) by {
          assert s.ants[k] == t.ants[k];
        }
        s
  }

  /** Pass k of the ant loop alone: ant k steps and marks the maze; `found` says whether it now stands on the food. */
  function Pass(vs: seq<AntView>, g: Grid, draws: seq<Uniform>, shuffles: seq<Shuffler>, food: Cell, k: nat): (t: Swept)
    requires GridOk(g) && AllOk(g, vs) && Inputs(vs, draws, shuffles) && k < |vs|
    ensures |t.ants| == |vs| && SameWalls(g, t.grid) && GridOk(t.grid) && AllOk(t.grid, t.ants)
    ensures Marks(g) ==> Marks(t.grid)
    ensures forall j :: 0 <= j < |vs| && j != k ==> t.ants[j] == vs[j]
    ensures t.found <==> t.ants[k].position.cell == food
  {
    assert AntOk(g, vs[k]);
    var o := StepRule(vs[k], g, Dt, draws[k], shuffles[k]);
    StepKeepsOk(vs[k], g, Dt, draws[k], shuffles[k]);
    var g' := Marked(g, o);
    ReplacedIsOk(g, vs, g', k, o.ant);
    Swept(vs[k := o.ant], g', if o.Failed? then Some(o.error) else None, o.ant.position.cell == food)
  }

  /** Cell (i, j) after the decay loop over `range(rows)` and `range(cols)`. */
  function DecayedAt(g: Grid, rows: int, cols: int, i: int, j: int): real
    requires 0 <= i < |g| && 0 <= j < |g[i]|
  {
    if i < rows && j < cols && Level(g[i][j]) then g[i][j] * Evaporation else g[i][j]
  }

  /** The maze after the decay loop of `update`. */
  function Decayed(g: Grid, rows: int, cols: int): (g': Grid)
    ensures SameShape(g, g') && forall i, j :: 0 <= i < |g| && 0 <= j < |g[i]| ==> g'[i][j] == DecayedAt(g, rows, cols, i, j)
  {
    seq(|g|, i requires 0 <= i < |g| => seq(|g[i]|, j requires 0 <= j < |g[i]| => DecayedAt(g, rows, cols, i, j)))
  }

  /**
   * Decay fades pheromone and touches nothing else: a level stays a level
   * and does not grow, every other value is left alone, so walls and marks
   * stay where they were.
   */
  lemma DecayOnlyFades(g: Grid, rows: int, cols: int)
    ensures var g' := Decayed(g, rows, cols);
            && SameWalls(g, g') && (Marks(g) ==> Marks(g'))
            && forall i, j :: 0 <= i < |g| && 0 <= j < |g[i]| ==>
                 && (Level(g[i][j]) ==> Level(g'[i][j]) && g'[i][j] <= g[i][j])
                 && (!Level(g[i][j]) ==> g'[i][j] == g[i][j])
  {
  }

  class Ant {
    const grid: array2<real>
    const colonyPosition: Loc
    var position: Loc
    var visited: seq<Loc>
    var path: seq<Loc>
    var timeSinceLastUpdate: real
    var hasFood: bool

    /** The ant as a value. */
    function View(): AntView
      reads this
    {
      AntView(position, colonyPosition, visited, path, timeSinceLastUpdate, hasFood)
    }

    /** The maze can be walked and the ant keeps its invariant in it. */
    ghost predicate Ready()
      reads this, grid
    {
      GridOk(Snapshot(grid)) && AntOk(Snapshot(grid), View())
    }

    /** `Ant(Maze, x, y)`: at its colony list `[x, y]`, which is all it has visited and all its path, without food. */
    constructor (maze: array2<real>, x: int, y: int)
      ensures grid == maze && View() == Start(x, y)
    {
      grid := maze;
      position := AsList(x, y);
      colonyPosition := AsList(x, y);
      visited := [position];
      path := [position];
      timeSinceLastUpdate := 0.0;
      hasFood := false;
    }

    /** `get_adjacent_cells`: the four orthogonal neighbours of the ant's position, in the fixed order. */
    method GetAdjacentCells() returns (cells: seq<Cell>)
      ensures |cells| == 4 && forall c :: c in cells <==> Adjacent(position.cell, c)
      ensures cells == Neighbours4(position.cell)
    {
      var (x, y) := position.cell;
      cells := [(x, y + 1), (x + 1, y), (x, y - 1), (x - 1, y)];
      Neighbours4Exact(position.cell);
    }

    /**
     * `shuffle_cells_with_bias(adj_cells)`: the loop over the levels takes
     * the first draw below its level, and the result is what `Biased`
     * says.
     */
    method ShuffleCellsWithBias(adj: seq<Cell>, draw: Uniform, shuffle: Shuffler) returns (c: Choice)
      requires WalkbackRules.AllWithin(Snapshot(grid), adj) && WalkbackRules.IsShuffler(shuffle)
      ensures c == Biased(Snapshot(grid), adj, colonyPosition.cell, draw, shuffle)
    {
      var g := Snapshot(grid);
      var cells := NonWalls(g, adj);
      var levels := Levels(g, cells);
      var ranked := Ranked(levels, cells);
      for i := 0 to |levels|
        invariant FirstBelow(draw, levels, i) == FirstBelow(draw, levels, 0)
      {
        if draw(i) < levels[i] {
          return Single(ranked[i]);
        }
      }
      if draw(|levels|) > Bias {
        return Ordered(shuffle(ranked));
      }
      var distances := Distances(ranked, colonyPosition.cell);
      return Ordered(Reverse(Ranked(distances, ranked)));
    }

    /** The loop of `step` over the list: enter the first fresh cell and push it, or change nothing. */
    method MoveToFirstFresh(order: seq<Cell>, ghost g: Grid) returns (moved: bool)
      requires Snapshot(grid) == g && WalkbackRules.AllWithin(g, order)
      modifies this
      ensures var f := FirstFresh(g, old(visited), order);
              && (moved <==> f.Some?)
              && (f.Some? ==> var c := AsTuple(order[f.value]);
                              View() == old(View()).(position := c, visited := old(visited) + [c],
                                                     path := old(path) + [c], time := 0.0))
              && (f.None? ==> View() == old(View()))
    {
      for k := 0 to |order|
        invariant forall j :: 0 <= j < k ==> !Fresh(g, visited, order[j])
        invariant View() == old(View())
      {
        var c := order[k];
        assert g[c.0][c.1] == grid[c.0, c.1];
        if grid[c.0, c.1] != Wall && AsTuple(c) !in visited {
          assert FirstFresh(g, visited, order) == Some(k);
          position := AsTuple(c);
          visited := visited + [position];
          path := path + [position];
          timeSinceLastUpdate := 0.0;
          return true;
        }
      }
      return false;
    }

    /** The end of `step`: `position = path[-2]` and `path.pop()`, as `StepBack` says. */
    method Backtrack() returns (r: Result<()>)
      modifies this
      ensures var o := StepBack(old(View()), None);
              View() == o.ant && (r.Raise? <==> o.Failed?) && (r.Raise? ==> r.error == IndexError)
    {
      if |path| < 2 {
        return Raise(IndexError);
      }
      position := path[|path| - 2];
      path := path[..|path| - 1];
      timeSinceLastUpdate := 0.0;
      r := Ok(());
    }

    /** The branch of `step` for an ant without food, as `SearchRule` says. */
    method Search(draw: Uniform, shuffle: Shuffler, ghost g: Grid) returns (r: Result<()>)
      requires Snapshot(grid) == g && GridOk(g) && AntOk(g, View()) && WalkbackRules.IsShuffler(shuffle)
      modifies this
      ensures var o := SearchRule(old(View()), g, draw, shuffle);
              View() == o.ant && (r.Raise? <==> o.Failed?) && (r.Raise? ==> r.error == o.error)
    {
      var adj := GetAdjacentCells();
      var choice := ShuffleCellsWithBias(adj, draw, shuffle);
      if choice.Single? {
        return Raise(TypeError);
      }
      var moved := MoveToFirstFresh(choice.cells, g);
      if !moved {
        r := Backtrack();
      } else {
        r := Ok(());
      }
    }

    /** The branch of `step` for a carrier, as `CarryRule` and `Marked` say. */
    method Carry(ghost g: Grid) returns (r: Result<()>)
      requires Snapshot(grid) == g && GridOk(g) && AntOk(g, View())
      modifies this, grid
      ensures var o := CarryRule(old(View()), g);
              && View() == o.ant && Snapshot(grid) == Marked(g, o)
              && (r.Raise? <==> o.Failed?) && (r.Raise? ==> r.error == o.error)
    {
      var (x, y) := position.cell;
      if 0.0 <= grid[x, y] < DepositLimit {
        Assign(grid, x, y, grid[x, y] + Deposit);
      }
      r := Backtrack();
    }

    /**
     * `step(dt)` once the clock has passed zero: pick up food, deliver at
     * the colony, or search or carry, as the rest of `StepRule` says.
     */
    method Act(ghost a: AntView, dt: real, draw: Uniform, shuffle: Shuffler) returns (r: Result<()>)
      requires Ready() && WalkbackRules.IsShuffler(shuffle)
      requires a.time + dt > 0.0 && View() == a.(time := a.time + dt)
      modifies this, grid
      ensures var o := StepRule(a, old(Snapshot(grid)), dt, draw, shuffle);
              && View() == o.ant && Snapshot(grid) == Marked(old(Snapshot(grid)), o)
              && (r.Raise? <==> o.Failed?) && (o.Failed? ==> r.error == o.error)
    {
      ghost var g := Snapshot(grid);
      var (x, y) := position.cell;
      if grid[x, y] == Food {
        hasFood := true;
      }
      if position == colonyPosition && hasFood {
        hasFood := false;
        visited := [position];
        path := [position];
        timeSinceLastUpdate := 0.0;
        return Ok(());
      }
      if !hasFood {
        r := Search(draw, shuffle, g);
      } else {
        r := Carry(g);
      }
    }

    /**
     * `step(dt)`: the ant and the maze afterwards are what `StepRule` and
     * `Marked` say, and the call raises exactly when the rule fails
     * (`StepKeepsOk` shows that the ant is then ready again).
     */
    method Step(dt: real, draw: Uniform, shuffle: Shuffler) returns (r: Result<()>)
      requires Ready() && WalkbackRules.IsShuffler(shuffle)
      modifies this, grid
      ensures var o := StepRule(old(View()), old(Snapshot(grid)), dt, draw, shuffle);
              && View() == o.ant && Snapshot(grid) == Marked(old(Snapshot(grid)), o)
              && (r.Raise? <==> o.Failed?) && (o.Failed? ==> r.error == o.error)
    {
      ghost var a := View();
      timeSinceLastUpdate := timeSinceLastUpdate + dt;
      if timeSinceLastUpdate > 0.0 {
        r := Act(a, dt, draw, shuffle);
      } else {
        r := Ok(());
      }
    }
  }

  class Model {
    const width: int
    const height: int
    const nAnts: int
    const grid: array2<real>
    const colonyPosition: Cell
    const foodPosition: Cell
    const ants: seq<Ant>

    /** The ants' views, in order. */
    function Views(): (vs: seq<AntView>)
      reads ants
      ensures |vs| == |ants| && forall k :: 0 <= k < |ants| ==> vs[k] == ants[k].View()
    {
      seq(|ants|, k reads ants requires 0 <= k < |ants| => ants[k].View())
    }

    /** Distinct ants, all walking the model's maze. */
    ghost predicate Shared() {
      && (forall i, j :: 0 <= i < |ants| && 0 <= j < |ants| && i != j ==> ants[i] != ants[j])
      && (forall k :: 0 <= k < |ants| ==> ants[k].grid == grid)
    }

    ghost predicate Valid()
      reads ants, grid
    {
      Shared() && GridOk(Snapshot(grid)) && AllOk(Snapshot(grid), Views())
    }

    /**
     * `Model.__init__`: mark the colony at (4, 4) with -1 and the food at
     * (len(Maze[0]) - 6, len(Maze) - 6) with 1, and place `nAnts` new ants
     * on the colony.
     */
    constructor (maze: array2<real>, width: int, height: int, nAnts: nat)
      requires BorderWalls(Snapshot(maze))
      requires 0 < maze.Length1 - 6 < maze.Length0 - 1 && 0 < maze.Length0 - 6 < maze.Length1 - 1
      modifies maze
      ensures Valid() && grid == maze && this.width == width && this.height == height && this.nAnts == nAnts
      ensures colonyPosition == ColonyPosition && foodPosition == (maze.Length1 - 6, maze.Length0 - 6)
      ensures Snapshot(maze) ==
                SetCell(SetCell(old(Snapshot(maze)), 4, 4, Colony), foodPosition.0, foodPosition.1, Food)
      ensures |ants| == nAnts && forall k :: 0 <= k < nAnts ==> fresh(ants[k]) && ants[k].View() == Start(4, 4)
    {
      this.width := width;
      this.height := height;
      this.nAnts := nAnts;
      grid := maze;
      colonyPosition := ColonyPosition;
      foodPosition := (maze.Length1 - 6, maze.Length0 - 6);
      ghost var g := Snapshot(maze);
      Assign(maze, 4, 4, Colony);
      InnerWriteKeepsGridOk(g, 4, 4, Colony);
      ghost var g1 := Snapshot(maze);
      Assign(maze, maze.Length1 - 6, maze.Length0 - 6, Food);
      InnerWriteKeepsGridOk(g1, maze.Length1 - 6, maze.Length0 - 6, Food);
      ghost var g2 := Snapshot(maze);
      var created: seq<Ant> := [];
      for k := 0 to nAnts
        invariant |created| == k && Snapshot(maze) == g2
        invariant forall i :: 0 <= i < k ==> fresh(created[i]) && created[i].View() == Start(4, 4)
        invariant forall i :: 0 <= i < k ==> created[i].grid == maze
        invariant forall i, j :: 0 <= i < k && 0 <= j < k && i != j ==> created[i] != created[j]
      {
        var ant := new Ant(maze, 4, 4);
        created := created + [ant];
      }
      ants := created;
      new;
      assert g2[4][4] != Wall;
      StartIsOk(g2, 4, 4);
    }

    /**
     * One pass of the ant loop in `update`: ant k steps on the maze the
     * earlier passes left, and the pass reports whether it then stands on
     * the food.
     */
    method StepAntAt(k: nat, draws: seq<Uniform>, shuffles: seq<Shuffler>) returns (r: Result<bool>)
      requires k < |ants| && Shared() && GridOk(Snapshot(grid)) && AllOk(Snapshot(grid), Views())
      requires Inputs(Views(), draws, shuffles)
      modifies grid, ants[k]
      ensures var o := StepRule(old(Views())[k], old(Snapshot(grid)), Dt, draws[k], shuffles[k]);
              && Views() == old(Views())[k := o.ant] && Snapshot(grid) == Marked(old(Snapshot(grid)), o)
              && (r.Raise? <==> o.Failed?) && (r.Raise? ==> r.error == o.error)
              && (r.Ok? ==> (r.value <==> o.ant.position.cell == foodPosition))
    {
      assert AntOk(Snapshot(grid), Views()[k]);
      ghost var before := Views();
      var stepped := ants[k].Step(Dt, draws[k], shuffles[k]);
      forall j | 0 <= j < |ants| && j != k
        ensures ants[j].View() == before[j]
      {
        assert ants[j] != ants[k];
      }
      assert Views() == before[k := ants[k].View()];
      if stepped.Raise? {
        return Raise(stepped.error);
      }
      r := Ok(ants[k].position.cell == foodPosition);
    }

    /** Part-way through `update`: the ants from k on have still to step, and finishing the loop from here gives `total`. */
    ghost predicate Pending(k: nat, draws: seq<Uniform>, shuffles: seq<Shuffler>, found: bool, total: Swept)
      reads ants, grid
    {
      && GridOk(Snapshot(grid)) && AllOk(Snapshot(grid), Views()) && Inputs(Views(), draws, shuffles) && k <= |ants|
      && Run(Views(), Snapshot(grid), draws, shuffles, foodPosition, k, found) == total
    }

    /** The decay loop of `update`, as `Decayed` says. */
    method Decay()
      requires height <= grid.Length0 && width <= grid.Length1
      modifies grid
      ensures Snapshot(grid) == Decayed(old(Snapshot(grid)), height, width)
    {
      ghost var g := Snapshot(grid);
      var rows := if height < 0 then 0 else height;
      var cols := if width < 0 then 0 else width;
      for i := 0 to rows
        invariant forall a, b :: 0 <= a < grid.Length0 && 0 <= b < grid.Length1 ==>
                    grid[a, b] == if a < i then DecayedAt(g, height, width, a, b) else g[a][b]
      {
        for j := 0 to cols
          invariant forall a, b :: 0 <= a < grid.Length0 && 0 <= b < grid.Length1 ==>
                      grid[a, b] == if a < i || (a == i && b < j) then DecayedAt(g, height, width, a, b) else g[a][b]
        {
          if grid[i, j] >= 0.0 && grid[i, j] < 1.0 {
            grid[i, j] := grid[i, j] * Evaporation;
          }
        }
      }
      SnapshotIs(grid, Decayed(g, height, width));
    }

    /**
     * The ant loop of `update`: step every ant once with dt = 0.1 and
     * report whether an ant stood on the food right after its step, as
     * `Run` says; the first step that raises ends the loop.
     */
    method MoveAnts(draws: seq<Uniform>, shuffles: seq<Shuffler>) returns (r: Result<bool>)
      requires Valid() && |draws| == |ants| && |shuffles| == |ants|
      requires forall k :: 0 <= k < |shuffles| ==> WalkbackRules.IsShuffler(shuffles[k])
      modifies grid, ants
      ensures Valid()
      ensures var s := Run(old(Views()), old(Snapshot(grid)), draws, shuffles, foodPosition, 0, false);
              && Views() == s.ants && Snapshot(grid) == s.grid && (r.Raise? <==> s.error.Some?)
              && (r.Raise? ==> r.error == s.error.value) && (r.Ok? ==> r.value == s.found)
    {
      ghost var total := Run(Views(), Snapshot(grid), draws, shuffles, foodPosition, 0, false);
      var foodFound := false;
      for k := 0 to |ants|
        invariant Shared() && Pending(k, draws, shuffles, foodFound, total)
      {
        var stepped := Advance(k, draws, shuffles, foodFound, total);
        if stepped.Raise? {
          return Raise(stepped.error);
        }
        if stepped.value {
          foodFound := true;
        }
      }
      r := Ok(foodFound);
    }

    /** One round of the ant loop: ant k steps, and the rest of the run is what remains of `total`. */
    method Advance(k: nat, draws: seq<Uniform>, shuffles: seq<Shuffler>, ghost found: bool, ghost total: Swept)
      returns (stepped: Result<bool>)
      requires k < |ants| && Shared() && Pending(k, draws, shuffles, found, total)
      modifies grid, ants[k]
      ensures Shared()
      ensures stepped.Ok? ==> Pending(k + 1, draws, shuffles, found || stepped.value, total)
      ensures stepped.Raise? ==> && Valid() && Views() == total.ants && Snapshot(grid) == total.grid
                                 && total.error == Some(stepped.error)
    {
      ghost var vs := Views();
      ghost var g := Snapshot(grid);
      stepped := StepAntAt(k, draws, shuffles);
      ghost var o := StepRule(vs[k], g, Dt, draws[k], shuffles[k]);
      StepKeepsOk(vs[k], g, Dt, draws[k], shuffles[k]);
      ReplacedIsOk(g, vs, Snapshot(grid), k, o.ant);
    }

    /**
     * `update`: the ant loop, as `Run` says, and then the decay of the
     * maze, as `Decayed` says.  The first step that raises ends the update
     * before the decay.
     */
    method Update(draws: seq<Uniform>, shuffles: seq<Shuffler>) returns (r: Result<bool>)
      requires Valid() && |draws| == |ants| && |shuffles| == |ants|
      requires forall k :: 0 <= k < |shuffles| ==> WalkbackRules.IsShuffler(shuffles[k])
      requires height <= grid.Length0 && width <= grid.Length1
      modifies grid, ants
      ensures Valid()
      ensures var s := Run(old(Views()), old(Snapshot(grid)), draws, shuffles, foodPosition, 0, false);
              && Views() == s.ants && (r.Raise? <==> s.error.Some?)
              && (r.Raise? ==> r.error == s.error.value && Snapshot(grid) == s.grid)
              && (r.Ok? ==> r.value == s.found && Snapshot(grid) == Decayed(s.grid, height, width))
    {
      r := MoveAnts(draws, shuffles);
      if r.Ok? {
        Evaporate();
      }
    }

    /** The decay of `update`, which keeps the model valid: it only fades pheromone levels and moves no ant. */
    method Evaporate()
      requires Valid() && height <= grid.Length0 && width <= grid.Length1
      modifies grid
      ensures Valid() && Snapshot(grid) == Decayed(old(Snapshot(grid)), height, width)
    {
      ghost var g := Snapshot(grid);
      Decay();
      DecayOnlyFades(g, height, width);
      SameWallsKeepAllOk(g, Snapshot(grid), Views());
    }
  }
}
