/**
 * Shared vocabulary of the two maze generators: cells, the carving
 * directions, the all-wall start grid, the invariant that carving keeps,
 * and the connectivity argument.
 *
 * A maze is a rows x cols integer grid in which 2 is a wall and 0 is an
 * open cell.  Carving works on a stride-2 lattice: "nodes" have two odd
 * coordinates, and the cell between two neighbouring nodes is their
 * "connector".  The invariant is stated on the grid's value (a sequence
 * of rows); the generators write into an `array2` and keep the invariant
 * of its `Snapshot`.
 */
module MazeGrid {
  import opened Arrays
  import opened Cells

  type Grid = seq<seq<int>>

  const Wall: int := 2
  const Open: int := 0

  /** The four carving directions in the order the source lists them. */
  const Directions: seq<Cell> := [(0, 1), (1, 0), (0, -1), (-1, 0)]

  /** One outcome of `random.shuffle(directions)`: a permutation of Directions. */
  predicate IsDirectionOrder(s: seq<Cell>) {
    |s| == 4 && multiset(s) == multiset(Directions)
  }

  type DirectionOrder = s: seq<Cell> | IsDirectionOrder(s) witness [(0, 1), (1, 0), (0, -1), (-1, 0)]

  lemma DirectionOrderUnit(s: DirectionOrder, k: int)
    requires 0 <= k < 4
    ensures s[k] in Directions
  {
    assert s[k] in multiset(s);
  }

  predicate IsNode(c: Cell) {
    c.0 % 2 == 1 && c.1 % 2 == 1
  }

  /** The connector from node (cx, cy) in direction d, and the node beyond it. */
  function Connector(cx: int, cy: int, d: Cell): Cell { (cx + d.0, cy + d.1) }
  function Target(cx: int, cy: int, d: Cell): Cell { (cx + d.0 * 2, cy + d.1 * 2) }

  /** From a node, the connector in a carving direction is no node, the cell beyond it is one, and the three are in a line. */
  lemma StepParity(cx: int, cy: int, d: Cell)
    requires IsNode((cx, cy)) && d in Directions
    ensures !IsNode(Connector(cx, cy, d)) && IsNode(Target(cx, cy, d))
    ensures Adjacent((cx, cy), Connector(cx, cy, d)) && Adjacent(Connector(cx, cy, d), Target(cx, cy, d))
  {
  }

  predicate IsOpenIn(g: Grid, rows: int, cols: int, c: Cell)
    requires IsRect(g, rows, cols)
  {
    InBounds(rows, cols, c) && g[c.0][c.1] == Open
  }

  predicate AllWalls(g: Grid, rows: int, cols: int)
    requires IsRect(g, rows, cols)
  {
    forall i, j :: 0 <= i < rows && 0 <= j < cols ==> g[i][j] == Wall
  }

  /** Every cell holds either a wall or an open cell. */
  predicate WallsOrOpen(g: Grid, rows: int, cols: int)
    requires IsRect(g, rows, cols)
  {
    forall i, j :: 0 <= i < rows && 0 <= j < cols ==> g[i][j] == Open || g[i][j] == Wall
  }

  /**
   * The lattice shape of a carved maze: an open cell is a node, or a
   * connector whose two neighbouring nodes are both open.  Cells with two
   * even coordinates are never open.
   */
  predicate Lattice(g: Grid, rows: int, cols: int)
    requires IsRect(g, rows, cols)
  {
    forall i, j :: 0 <= i < rows && 0 <= j < cols ==> LatticeCell(g, rows, cols, i, j)
  }

  /** Cell (i, j) is a wall, a node, or a connector between two open nodes. */
  predicate LatticeCell(g: Grid, rows: int, cols: int, i: int, j: int)
    requires IsRect(g, rows, cols) && 0 <= i < rows && 0 <= j < cols
  {
    g[i][j] != Open ||
    IsNode((i, j)) ||
    (i % 2 == 0 && j % 2 == 1 && 0 < i < rows - 1 && g[i - 1][j] == Open && g[i + 1][j] == Open) ||
    (i % 2 == 1 && j % 2 == 0 && 0 < j < cols - 1 && g[i][j - 1] == Open && g[i][j + 1] == Open)
  }

  /**
   * Opening cells keeps the lattice shape when every newly opened cell is
   * itself in the lattice shape afterwards.
   */
  lemma LatticeGrows(g: Grid, g': Grid, rows: int, cols: int)
    requires IsRect(g, rows, cols) && IsRect(g', rows, cols) && Lattice(g, rows, cols)
    requires forall i, j :: 0 <= i < rows && 0 <= j < cols && g[i][j] == Open ==> g'[i][j] == Open
    requires forall i, j :: 0 <= i < rows && 0 <= j < cols && g'[i][j] != g[i][j] ==> LatticeCell(g', rows, cols, i, j)
    ensures Lattice(g', rows, cols)
  {
    forall i, j | 0 <= i < rows && 0 <= j < cols
      ensures LatticeCell(g', rows, cols, i, j)
    {
      if g'[i][j] == g[i][j] {
        assert LatticeCell(g, rows, cols, i, j);
        if g[i][j] == Open && !IsNode((i, j)) {
          if i % 2 == 0 && j % 2 == 1 && 0 < i < rows - 1 && g[i - 1][j] == Open && g[i + 1][j] == Open {
            assert g'[i - 1][j] == Open && g'[i + 1][j] == Open;
          } else {
            assert g'[i][j - 1] == Open && g'[i][j + 1] == Open;
          }
        }
      }
    }
  }

  ghost predicate NoDuplicates(s: seq<Cell>) {
    forall a, b :: 0 <= a < b < |s| ==> s[a] != s[b]
  }

  /**
   * Every cell in `order` except the first is orthogonally adjacent to a
   * cell listed before it.
   */
  ghost predicate GrowsByAdjacency(order: seq<Cell>) {
    forall k :: 0 < k < |order| ==> EarlierNeighbour(order, k)
  }

  ghost predicate EarlierNeighbour(order: seq<Cell>, k: int)
    requires 0 <= k < |order|
  {
    exists j :: 0 <= j < k && Adjacent(order[j], order[k])
  }

  lemma AppendKeepsGrowth(order: seq<Cell>, x: Cell, j: int)
    requires GrowsByAdjacency(order) && 0 <= j < |order| && Adjacent(order[j], x)
    ensures GrowsByAdjacency(order + [x])
  {
    var order' := order + [x];
    forall k | 0 < k < |order'|
      ensures EarlierNeighbour(order', k)
    {
      if k < |order| {
        assert EarlierNeighbour(order, k);
        var i :| 0 <= i < k && Adjacent(order[i], order[k]);
        assert order'[i] == order[i] && order'[k] == order[k];
      } else {
        assert order'[j] == order[j] && order'[k] == x;
      }
    }
  }

  /**
   * The carving invariant: `order` lists the open cells of `g` in the order
   * they were opened, without repetition, each next to an earlier one; the
   * grid holds only walls and open cells, in the lattice shape.
   */
  ghost predicate Carved(g: Grid, rows: int, cols: int, order: seq<Cell>) {
    Listing(g, rows, cols, order) && Lattice(g, rows, cols) && GrowsByAdjacency(order)
  }

  /** `order` lists the open cells of `g`, each once, and the other cells are walls. */
  ghost predicate Listing(g: Grid, rows: int, cols: int, order: seq<Cell>) {
    && IsRect(g, rows, cols)
    && |order| > 0
    && WallsOrOpen(g, rows, cols)
    && (forall k :: 0 <= k < |order| ==> InBounds(rows, cols, order[k]))
    && NoDuplicates(order)
    && (forall i, j :: 0 <= i < rows && 0 <= j < cols ==> (g[i][j] == Open <==> (i, j) in order))
  }

  /** Opening a wall cell and appending it to the list keeps the listing. */
  lemma OpenKeepsListing(g: Grid, rows: int, cols: int, order: seq<Cell>, c: Cell)
    requires Listing(g, rows, cols, order) && InBounds(rows, cols, c) && g[c.0][c.1] != Open
    ensures Listing(SetCell(g, c.0, c.1, Open), rows, cols, order + [c])
  {
    var g' := SetCell(g, c.0, c.1, Open);
    var order' := order + [c];
    assert c !in order;
    assert WallsOrOpen(g', rows, cols);
    assert forall k :: 0 <= k < |order'| ==> InBounds(rows, cols, order'[k]);
    assert NoDuplicates(order');
    forall i, j | 0 <= i < rows && 0 <= j < cols
      ensures g'[i][j] == Open <==> (i, j) in order'
    {
      assert (g[i][j] == Open <==> (i, j) in order);
    }
  }

  ghost function AllCells(rows: int, cols: int): set<Cell> {
    set i, j | 0 <= i < rows && 0 <= j < cols :: (i, j)
  }

  ghost function Elements(s: seq<Cell>): set<Cell> {
    set c | c in s
  }

  /** A walk: a non-empty sequence of cells, each adjacent to the next. */
  ghost predicate IsWalk(p: seq<Cell>) {
    |p| > 0 && forall k :: 0 <= k < |p| - 1 ==> Adjacent(p[k], p[k + 1])
  }

  /** `b` is reachable from `a` through open cells of `g`. */
  ghost predicate ReachableOpen(g: Grid, rows: int, cols: int, a: Cell, b: Cell)
    requires IsRect(g, rows, cols)
  {
    exists p :: IsWalk(p) && p[0] == a && p[|p| - 1] == b && forall k :: 0 <= k < |p| ==> IsOpenIn(g, rows, cols, p[k])
  }

  /** The start of carving: an all-wall grid with (1, 1) opened satisfies the invariant. */
  lemma StartIsCarved(g: Grid, rows: int, cols: int)
    requires IsRect(g, rows, cols) && rows >= 2 && cols >= 2 && AllWalls(g, rows, cols)
    ensures Carved(SetCell(g, 1, 1, Open), rows, cols, [(1, 1)])
  {
  }

  /**
   * One successful carve from an open node (cx, cy) toward a node two steps
   * away that is a wall: the connector was a wall too, so the step opens
   * exactly two new cells, and the invariant still holds.
   */
  lemma CarveStepKeepsCarved(g: Grid, rows: int, cols: int, order: seq<Cell>, cx: int, cy: int, d: Cell)
    requires Carved(g, rows, cols, order)
    requires IsNode((cx, cy)) && IsOpenIn(g, rows, cols, (cx, cy)) && d in Directions
    requires InBounds(rows, cols, Target(cx, cy, d)) && g[Target(cx, cy, d).0][Target(cx, cy, d).1] == Wall
    ensures InBounds(rows, cols, Connector(cx, cy, d))
    ensures g[Connector(cx, cy, d).0][Connector(cx, cy, d).1] == Wall
    ensures Carved(SetCell(SetCell(g, Connector(cx, cy, d).0, Connector(cx, cy, d).1, Open),
                           Target(cx, cy, d).0, Target(cx, cy, d).1, Open),
                   rows, cols, order + [Connector(cx, cy, d), Target(cx, cy, d)])
  {
    var (wx, wy) := Connector(cx, cy, d);
    var (nx, ny) := Target(cx, cy, d);
    StepParity(cx, cy, d);
    assert g[wx][wy] == Wall by {
      assert LatticeCell(g, rows, cols, wx, wy);
      assert g[nx][ny] != Open;
    }
    var g1 := SetCell(g, wx, wy, Open);
    var g2 := SetCell(g1, nx, ny, Open);
    var order' := order + [(wx, wy), (nx, ny)];
    assert order + [(wx, wy)] + [(nx, ny)] == order';
    OpenKeepsListing(g, rows, cols, order, (wx, wy));
    assert g1[nx][ny] == Wall;
    OpenKeepsListing(g1, rows, cols, order + [(wx, wy)], (nx, ny));
    CarveStepKeepsLattice(g, rows, cols, cx, cy, d);
    assert GrowsByAdjacency(order') by {
      var here :| 0 <= here < |order| && order[here] == (cx, cy);
      AppendKeepsGrowth(order, (wx, wy), here);
      AppendKeepsGrowth(order + [(wx, wy)], (nx, ny), |order|);
    }
  }

  /** Opening the connector and the node beyond it from an open node keeps the lattice shape. */
  lemma CarveStepKeepsLattice(g: Grid, rows: int, cols: int, cx: int, cy: int, d: Cell)
    requires IsRect(g, rows, cols) && Lattice(g, rows, cols)
    requires IsNode((cx, cy)) && IsOpenIn(g, rows, cols, (cx, cy)) && d in Directions
    requires InBounds(rows, cols, Target(cx, cy, d))
    ensures InBounds(rows, cols, Connector(cx, cy, d))
    ensures Lattice(SetCell(SetCell(g, Connector(cx, cy, d).0, Connector(cx, cy, d).1, Open),
                            Target(cx, cy, d).0, Target(cx, cy, d).1, Open), rows, cols)
  {
    var (wx, wy) := Connector(cx, cy, d);
    var (nx, ny) := Target(cx, cy, d);
    StepParity(cx, cy, d);
    var g2 := SetCell(SetCell(g, wx, wy, Open), nx, ny, Open);
    assert LatticeCell(g2, rows, cols, wx, wy);
    assert LatticeCell(g2, rows, cols, nx, ny);
    LatticeGrows(g, g2, rows, cols);
  }

  /**
   * An extra connector from an open node (cx, cy) toward a node two steps
   * away that is already open keeps the invariant; the connector is new to
   * `order` only when it was a wall.
   */
  lemma ExtraConnectorKeepsCarved(g: Grid, rows: int, cols: int, order: seq<Cell>, cx: int, cy: int, d: Cell)
    requires Carved(g, rows, cols, order)
    requires IsNode((cx, cy)) && IsOpenIn(g, rows, cols, (cx, cy)) && d in Directions
    requires IsOpenIn(g, rows, cols, Target(cx, cy, d))
    ensures InBounds(rows, cols, Connector(cx, cy, d))
    ensures var (wx, wy) := Connector(cx, cy, d);
            Carved(SetCell(g, wx, wy, Open), rows, cols,
                   if g[wx][wy] == Open then order else order + [(wx, wy)])
  {
    var (wx, wy) := Connector(cx, cy, d);
    var (nx, ny) := Target(cx, cy, d);
    StepParity(cx, cy, d);
    var g1 := SetCell(g, wx, wy, Open);
    if g[wx][wy] != Open {
      OpenKeepsListing(g, rows, cols, order, (wx, wy));
      assert Lattice(g1, rows, cols) by {
        assert LatticeCell(g1, rows, cols, wx, wy);
        LatticeGrows(g, g1, rows, cols);
      }
      assert GrowsByAdjacency(order + [(wx, wy)]) by {
        var here :| 0 <= here < |order| && order[here] == (cx, cy);
        AppendKeepsGrowth(order, (wx, wy), here);
      }
    } else {
      assert g[wx][wy := Open] == g[wx];
      assert g1 == g;
    }
  }

  /** A list that grows by adjacency has a walk inside it from its first cell to each cell. */
  lemma {:induction false} WalkInside(order: seq<Cell>, k: int)
    requires GrowsByAdjacency(order)
    requires 0 <= k < |order|
    ensures exists p :: IsWalk(p) && p[0] == order[0] && p[|p| - 1] == order[k] &&
                        forall q :: 0 <= q < |p| ==> p[q] in order
    decreases k
  {
    if k == 0 {
      var p := [order[0]];
      assert IsWalk(p) && p[0] == order[0] && p[|p| - 1] == order[k];
    } else {
      assert EarlierNeighbour(order, k);
      var j :| 0 <= j < k && Adjacent(order[j], order[k]);
      WalkInside(order, j);
      var p :| IsWalk(p) && p[0] == order[0] && p[|p| - 1] == order[j] &&
               forall q :: 0 <= q < |p| ==> p[q] in order;
      var p' := p + [order[k]];
      assert IsWalk(p') by {
        forall q | 0 <= q < |p'| - 1 ensures Adjacent(p'[q], p'[q + 1]) {
          if q < |p| - 1 {
            assert p'[q] == p[q] && p'[q + 1] == p[q + 1];
          }
        }
      }
      assert forall q :: 0 <= q < |p'| ==> p'[q] in order;
      assert p'[0] == order[0] && p'[|p'| - 1] == order[k];
    }
  }

  /** In a carved maze every open cell is reachable through open cells from the first cell opened. */
  lemma CarvedIsConnected(g: Grid, rows: int, cols: int, order: seq<Cell>, i: int, j: int)
    requires Carved(g, rows, cols, order)
    requires 0 <= i < rows && 0 <= j < cols && g[i][j] == Open
    ensures ReachableOpen(g, rows, cols, order[0], (i, j))
  {
    var k :| 0 <= k < |order| && order[k] == (i, j);
    WalkInside(order, k);
    var p :| IsWalk(p) && p[0] == order[0] && p[|p| - 1] == order[k] &&
             forall q :: 0 <= q < |p| ==> p[q] in order;
    forall q | 0 <= q < |p| ensures IsOpenIn(g, rows, cols, p[q]) {
      var r :| 0 <= r < |order| && order[r] == p[q];
    }
  }

  /** Carving only opens cells: a cell open before is open after. */
  lemma CarvedOnlyGrows(g: Grid, g': Grid, rows: int, cols: int, order: seq<Cell>, order': seq<Cell>, i: int, j: int)
    requires Carved(g, rows, cols, order) && Carved(g', rows, cols, order')
    requires order <= order'
    requires 0 <= i < rows && 0 <= j < cols && g[i][j] == Open
    ensures g'[i][j] == Open
  {
    var k :| 0 <= k < |order| && order[k] == (i, j);
    assert order'[k] == (i, j);
  }

  /** Carving only ever turns walls into open cells. */
  lemma CarvedChangesWallToOpen(g: Grid, g': Grid, rows: int, cols: int, order: seq<Cell>, order': seq<Cell>)
    requires Carved(g, rows, cols, order) && Carved(g', rows, cols, order') && order <= order'
    ensures forall i, j :: 0 <= i < rows && 0 <= j < cols && g'[i][j] != g[i][j] ==>
                           g[i][j] == Wall && g'[i][j] == Open
  {
    forall i, j | 0 <= i < rows && 0 <= j < cols && g'[i][j] != g[i][j]
      ensures g[i][j] == Wall && g'[i][j] == Open
    {
      if g[i][j] == Open {
        CarvedOnlyGrows(g, g', rows, cols, order, order', i, j);
      }
    }
  }

  /**
   * Opening a cell that was not open before shrinks the set of cells not
   * yet opened; this is the measure that makes carving terminate.
   */
  lemma RemainingShrinks(rows: int, cols: int, order: seq<Cell>, order': seq<Cell>, x: Cell)
    requires order <= order' && x in order' && x !in order && InBounds(rows, cols, x)
    ensures AllCells(rows, cols) - Elements(order') < AllCells(rows, cols) - Elements(order)
  {
    RemainingNoLarger(rows, cols, order, order');
    assert x in AllCells(rows, cols) && x in Elements(order') && x !in Elements(order);
  }

  /** Opening cells never enlarges the set of cells not yet opened. */
  lemma RemainingNoLarger(rows: int, cols: int, order: seq<Cell>, order': seq<Cell>)
    requires order <= order'
    ensures AllCells(rows, cols) - Elements(order') <= AllCells(rows, cols) - Elements(order)
  {
    forall c | c in Elements(order) ensures c in Elements(order') {
      var k :| 0 <= k < |order| && order[k] == c;
      assert order'[k] == c;
    }
  }

  /**
   * The log of cells the carving recursion has been entered at: no cell
   * twice, and each of them open.
   */
  ghost predicate EnteredLog(entered: seq<Cell>, order: seq<Cell>) {
    NoDuplicates(entered) && forall k :: 0 <= k < |entered| ==> entered[k] in order
  }

  /** The entered log stays valid as more cells are opened. */
  lemma EnteredLogGrows(entered: seq<Cell>, order: seq<Cell>, order': seq<Cell>)
    requires EnteredLog(entered, order) && order <= order'
    ensures EnteredLog(entered, order')
  {
    forall k | 0 <= k < |entered| ensures entered[k] in order' {
      var r :| 0 <= r < |order| && order[r] == entered[k];
      assert order'[r] == entered[k];
    }
  }

  /**
   * The start grid of both generators: a rows x cols grid in which every
   * cell is a wall.
   */
  method InitializeMaze(rows: nat, cols: nat) returns (maze: array2<int>)
    ensures fresh(maze)
    ensures maze.Length0 == rows && maze.Length1 == cols
    ensures AllWalls(Snapshot(maze), rows, cols)
  {
    maze := new int[rows, cols];
    for i := 0 to rows
      invariant forall p, q :: 0 <= p < i && 0 <= q < cols ==> maze[p, q] == Wall
    {
      for j := 0 to cols
        invariant forall p, q :: 0 <= p < i && 0 <= q < cols ==> maze[p, q] == Wall
        invariant forall q :: 0 <= q < j ==> maze[i, q] == Wall
      {
        maze[i, j] := Wall;
      }
    }
  }
}
