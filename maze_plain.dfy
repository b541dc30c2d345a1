/**
 * The plain maze generator: a randomised depth-first carve from (1, 1)
 * over an all-wall grid, with no extra connectors.  Every carve step opens
 * one connector and the wall node beyond it, so the open nodes and the
 * open connectors form a spanning tree of the carved nodes.
 *
 * `shuffles(n)` is the outcome of the n-th `random.shuffle(directions)`.
 */
module MazeGenerator {
  import opened Arrays
  import opened Cells
  import opened MazeGrid

  /**
   * The shape of the opening order of a plain carve: nodes at even
   * positions, connectors at odd ones; each connector is adjacent to the
   * node opened right after it and to a node opened before it.
   */
  ghost predicate TreeOrder(order: seq<Cell>) {
    && |order| % 2 == 1
    && (forall k :: 0 <= k < |order| ==> (IsNode(order[k]) <==> k % 2 == 0))
    && (forall k :: 0 <= k < |order| && k % 2 == 1 ==> Adjacent(order[k], order[k + 1]) && HasParent(order, k))
  }

  /** The connector at position k is adjacent to a node at an earlier even position. */
  ghost predicate HasParent(order: seq<Cell>, k: int)
    requires 0 <= k < |order|
  {
    exists j :: 0 <= j < k && j % 2 == 0 && Adjacent(order[j], order[k])
  }

  lemma TreeOrderStep(order: seq<Cell>, parent: int, conn: Cell, node: Cell)
    requires TreeOrder(order) && 0 <= parent < |order| && IsNode(order[parent])
    requires !IsNode(conn) && IsNode(node) && Adjacent(order[parent], conn) && Adjacent(conn, node)
    ensures TreeOrder(order + [conn, node])
  {
    NodesStayEven(order, conn, node);
    ConnectorsStayLinked(order, parent, conn, node);
  }

  /** Appending a connector and a node keeps the nodes at the even positions. */
  lemma NodesStayEven(order: seq<Cell>, conn: Cell, node: Cell)
    requires TreeOrder(order) && !IsNode(conn) && IsNode(node)
    ensures var order' := order + [conn, node];
            forall k :: 0 <= k < |order'| ==> (IsNode(order'[k]) <==> k % 2 == 0)
  {
    var order' := order + [conn, node];
    var n := |order|;
    forall k | 0 <= k < |order'|
      ensures IsNode(order'[k]) <==> k % 2 == 0
    {
      if k < n {
        assert order'[k] == order[k];
      } else if k == n {
        assert order'[k] == conn;
      } else {
        assert order'[k] == node && k == n + 1;
      }
    }
  }

  /** Appending a connector next to an earlier node, and the node beyond it, keeps every connector linked. */
  lemma ConnectorsStayLinked(order: seq<Cell>, parent: int, conn: Cell, node: Cell)
    requires TreeOrder(order) && 0 <= parent < |order| && IsNode(order[parent])
    requires Adjacent(order[parent], conn) && Adjacent(conn, node)
    ensures var order' := order + [conn, node];
            forall k :: 0 <= k < |order'| && k % 2 == 1 ==> Adjacent(order'[k], order'[k + 1]) && HasParent(order', k)
  {
    var order' := order + [conn, node];
    var n := |order|;
    forall k | 0 <= k < |order'| && k % 2 == 1
      ensures Adjacent(order'[k], order'[k + 1]) && HasParent(order', k)
    {
      if k < n {
        ParentCarriesOver(order, order', k);
      } else {
        assert k == n && order'[parent] == order[parent] && order'[n] == conn && order'[n + 1] == node;
        assert parent % 2 == 0;
      }
    }
  }

  /** A parent found in a prefix of the opening order is still there in the whole. */
  lemma ParentCarriesOver(order: seq<Cell>, order': seq<Cell>, k: int)
    requires TreeOrder(order) && order <= order' && 0 <= k < |order| && k % 2 == 1
    ensures k + 1 < |order'| && Adjacent(order'[k], order'[k + 1]) && HasParent(order', k)
  {
    assert Adjacent(order[k], order[k + 1]) && HasParent(order, k);
    var j :| 0 <= j < k && j % 2 == 0 && Adjacent(order[j], order[k]);
    assert order'[j] == order[j] && order'[k] == order[k] && order'[k + 1] == order[k + 1];
  }

  /** The number of nodes in a list of cells. */
  function CountNodes(s: seq<Cell>): (n: nat)
    ensures n <= |s|
  {
    if s == [] then 0 else CountNodes(s[..|s| - 1]) + (if IsNode(s[|s| - 1]) then 1 else 0)
  }

  /**
   * In a list where exactly the even positions hold nodes there is one
   * more node than there are connectors; for the opening order of a plain
   * carve this is the edge count of a tree.
   */
  lemma {:induction false} AlternatingCount(s: seq<Cell>)
    requires |s| % 2 == 1
    requires forall k :: 0 <= k < |s| ==> (IsNode(s[k]) <==> k % 2 == 0)
    ensures CountNodes(s) == |s| - CountNodes(s) + 1
    decreases |s|
  {
    if |s| > 1 {
      var t := s[..|s| - 2];
      assert forall k :: 0 <= k < |t| ==> t[k] == s[k];
      AlternatingCount(t);
      assert s[..|s| - 1][..|s| - 2] == t;
      assert IsNode(s[|s| - 1]) && !IsNode(s[|s| - 2]);
    }
  }

  /**
   * `carve_passages_from(cx, cy, maze, rows, cols)`: shuffle the
   * directions once and try to carve in each of them (`CarveToward`).
   * A frame may only be started at a cell not entered before; the shrinking
   * set of unopened cells is the termination argument.
   */
  method CarvePassagesFrom(maze: array2<int>, rows: int, cols: int, cx: int, cy: int,
                           shuffles: nat -> DirectionOrder, shuffle: nat,
                           ghost order: seq<Cell>, ghost entered: seq<Cell>)
    returns (shuffle': nat, ghost order': seq<Cell>, ghost entered': seq<Cell>)
    requires maze.Length0 == rows && maze.Length1 == cols
    requires Carved(Snapshot(maze), rows, cols, order) && TreeOrder(order)
    requires IsNode((cx, cy)) && IsOpenIn(Snapshot(maze), rows, cols, (cx, cy))
    requires EnteredLog(entered, order) && (cx, cy) !in entered
    modifies maze
    ensures Carved(Snapshot(maze), rows, cols, order') && TreeOrder(order') && order <= order'
    ensures EnteredLog(entered', order') && entered + [(cx, cy)] <= entered'
    ensures shuffle < shuffle'
    ensures forall i, j :: 0 <= i < rows && 0 <= j < cols && maze[i, j] != old(maze[i, j]) ==>
              old(maze[i, j]) == Wall && maze[i, j] == Open
    decreases AllCells(rows, cols) - Elements(order), 1
  {
    ghost var g0 := Snapshot(maze);
    var dirs := shuffles(shuffle);
    shuffle' := shuffle + 1;
    order' := order;
    entered' := entered + [(cx, cy)];
    for k := 0 to 4
      invariant Carved(Snapshot(maze), rows, cols, order') && TreeOrder(order') && order <= order'
      invariant IsOpenIn(Snapshot(maze), rows, cols, (cx, cy))
      invariant EnteredLog(entered', order') && entered + [(cx, cy)] <= entered'
      invariant shuffle < shuffle'
    {
      DirectionOrderUnit(dirs, k);
      RemainingNoLarger(rows, cols, order, order');
      shuffle', order', entered' := CarveToward(maze, rows, cols, cx, cy, dirs[k], shuffles, shuffle',
                                                order', entered');
    }
    CarvedChangesWallToOpen(g0, Snapshot(maze), rows, cols, order, order');
  }

  /**
   * One pass of the loop at lines 14-20: when the node two steps away in
   * direction d is inside the grid and still a wall, open the connector and
   * that node and start a frame there; otherwise change nothing.
   */
  method CarveToward(maze: array2<int>, rows: int, cols: int, cx: int, cy: int, d: Cell,
                     shuffles: nat -> DirectionOrder, shuffle: nat,
                     ghost order: seq<Cell>, ghost entered: seq<Cell>)
    returns (shuffle': nat, ghost order': seq<Cell>, ghost entered': seq<Cell>)
    requires maze.Length0 == rows && maze.Length1 == cols
    requires Carved(Snapshot(maze), rows, cols, order) && TreeOrder(order)
    requires IsNode((cx, cy)) && IsOpenIn(Snapshot(maze), rows, cols, (cx, cy)) && d in Directions
    requires EnteredLog(entered, order)
    modifies maze
    ensures Carved(Snapshot(maze), rows, cols, order') && TreeOrder(order') && order <= order'
    ensures IsOpenIn(Snapshot(maze), rows, cols, (cx, cy))
    ensures EnteredLog(entered', order') && entered <= entered'
    ensures shuffle <= shuffle'
    ensures !(InBounds(rows, cols, Target(cx, cy, d)) && old(maze[Target(cx, cy, d).0, Target(cx, cy, d).1]) == Wall) ==>
              unchanged(maze) && order' == order && entered' == entered && shuffle' == shuffle
    decreases AllCells(rows, cols) - Elements(order), 0
  {
    var (nx, ny) := Target(cx, cy, d);
    if 0 <= nx < rows && 0 <= ny < cols && maze[nx, ny] == Wall {
      ghost var order1 := OpenToward(maze, rows, cols, cx, cy, d, order, entered);
      ghost var mid := Snapshot(maze);
      shuffle', order', entered' := CarvePassagesFrom(maze, rows, cols, nx, ny, shuffles, shuffle,
                                                      order1, entered);
      CarvedOnlyGrows(mid, Snapshot(maze), rows, cols, order1, order', cx, cy);
    } else {
      shuffle', order', entered' := shuffle, order, entered;
    }
  }

  /**
   * Lines 17-18: open the connector and the node two steps away in
   * direction d, which is inside the grid and still a wall.  The opening
   * order gains those two cells as a parent-child pair, and the node is a
   * fresh place to start a frame.
   */
  method OpenToward(maze: array2<int>, rows: int, cols: int, cx: int, cy: int, d: Cell,
                    ghost order: seq<Cell>, ghost entered: seq<Cell>)
    returns (ghost order': seq<Cell>)
    requires maze.Length0 == rows && maze.Length1 == cols
    requires Carved(Snapshot(maze), rows, cols, order) && TreeOrder(order)
    requires IsNode((cx, cy)) && IsOpenIn(Snapshot(maze), rows, cols, (cx, cy)) && d in Directions
    requires EnteredLog(entered, order)
    requires InBounds(rows, cols, Target(cx, cy, d)) && maze[Target(cx, cy, d).0, Target(cx, cy, d).1] == Wall
    modifies maze
    ensures Carved(Snapshot(maze), rows, cols, order') && TreeOrder(order') && order <= order'
    ensures order' == order + [Connector(cx, cy, d), Target(cx, cy, d)]
    ensures IsOpenIn(Snapshot(maze), rows, cols, (cx, cy))
    ensures IsNode(Target(cx, cy, d)) && IsOpenIn(Snapshot(maze), rows, cols, Target(cx, cy, d))
    ensures EnteredLog(entered, order') && Target(cx, cy, d) !in entered
    ensures AllCells(rows, cols) - Elements(order') < AllCells(rows, cols) - Elements(order)
  {
    var (nx, ny) := Target(cx, cy, d);
    ghost var g := Snapshot(maze);
    CarveStepKeepsCarved(g, rows, cols, order, cx, cy, d);
    StepParity(cx, cy, d);
    var (wx, wy) := Connector(cx, cy, d);
    Assign(maze, wx, wy, Open);
    Assign(maze, nx, ny, Open);
    order' := order + [(wx, wy), (nx, ny)];
    ghost var parent :| 0 <= parent < |order| && order[parent] == (cx, cy);
    TreeOrderStep(order, parent, (wx, wy), (nx, ny));
    assert (nx, ny) !in order && order'[|order| + 1] == (nx, ny);
    RemainingShrinks(rows, cols, order, order', (nx, ny));
    EnteredLogGrows(entered, order, order');
  }

  /**
   * `generate_maze`: an all-wall grid, (1, 1) opened, one carve from
   * (1, 1).  The result holds only walls and open cells in the lattice
   * shape; every open cell is reachable from (1, 1) through open cells; and
   * the opening order `order` lists every open cell once, in tree shape.
   */
  method GenerateMaze(rows: nat, cols: nat, shuffles: nat -> DirectionOrder)
    returns (maze: array2<int>, ghost order: seq<Cell>)
    requires rows >= 2 && cols >= 2
    ensures fresh(maze) && maze.Length0 == rows && maze.Length1 == cols
    ensures Carved(Snapshot(maze), rows, cols, order) && TreeOrder(order)
    ensures maze[1, 1] == Open && order[0] == (1, 1)
    ensures CountNodes(order) == |order| - CountNodes(order) + 1
    ensures forall i, j :: 0 <= i < rows && 0 <= j < cols && maze[i, j] == Open ==>
              ReachableOpen(Snapshot(maze), rows, cols, (1, 1), (i, j))
  {
    maze := InitializeMaze(rows, cols);
    StartIsCarved(Snapshot(maze), rows, cols);
    Assign(maze, 1, 1, Open);
    ghost var entered;
    var shuffle;
    shuffle, order, entered := CarvePassagesFrom(maze, rows, cols, 1, 1, shuffles, 0, [(1, 1)], []);
    ghost var g := Snapshot(maze);
    assert g[1][1] == Open;
    forall i, j | 0 <= i < rows && 0 <= j < cols && maze[i, j] == Open
      ensures ReachableOpen(g, rows, cols, (1, 1), (i, j))
    {
      CarvedIsConnected(g, rows, cols, order, i, j);
    }
    AlternatingCount(order);
  }
}
