/**
 * The maze generator with a path budget: a randomised depth-first carve
 * from (1, 1) over an all-wall grid, followed in every recursion frame by
 * an extra-connector phase that opens walls between already-open nodes
 * until the path counter reaches `path_count`; and the block upscaling of
 * a maze.
 *
 * Randomness is an input.  `shuffles(n)` is the outcome of the n-th
 * `random.shuffle(directions)` and `coins(n)` is the n-th test
 * `random.random() < 0.5`; a `Cursor` says how many of each have been used.
 * The one-element list `current_paths` becomes a value passed in and
 * returned.
 */
module MazeWithPaths {
  import opened Arrays
  import opened Cells
  import opened MazeGrid

  /** How many shuffles and coin draws have been consumed so far. */
  datatype Cursor = Cursor(shuffle: nat, coin: nat)

  /** The number of coin draws in [lo, hi) that came up true. */
  function CountTrue(coins: nat -> bool, lo: nat, hi: nat): (n: nat)
    requires lo <= hi
    ensures n <= hi - lo
    ensures n == 0 <==> (forall k :: lo <= k < hi ==> !coins(k))
    decreases hi
  {
    if lo == hi then 0 else CountTrue(coins, lo, hi - 1) + (if coins(hi - 1) then 1 else 0)
  }

  /** Counting over two adjacent windows adds up. */
  lemma {:induction false} CountTrueSplit(coins: nat -> bool, a: nat, b: nat, c: nat)
    requires a <= b <= c
    ensures CountTrue(coins, a, b) + CountTrue(coins, b, c) == CountTrue(coins, a, c)
    decreases c - b
  {
    if b < c {
      CountTrueSplit(coins, a, b, c - 1);
    }
  }

  /**
   * `carve_passages_from(cx, cy, ...)`.  The frame shuffles the directions
   * once, tries to carve in each of them in turn (`CarveToward`), and then,
   * while the counter is below `pathCount`, runs the extra-connector phase.
   *
   * `order` is the ghost list of open cells in opening order and `entered`
   * the ghost list of cells a frame has been started at.  A frame may only
   * be started at a cell not yet entered, which is the "each cell is
   * entered at most once" property; the shrinking set of unopened cells is
   * the termination argument.
   */
  method CarvePassagesFrom(maze: array2<int>, rows: int, cols: int, cx: int, cy: int,
                           pathCount: int, currentPaths: int,
                           shuffles: nat -> DirectionOrder, coins: nat -> bool, cursor: Cursor,
                           ghost order: seq<Cell>, ghost entered: seq<Cell>)
    returns (paths: int, cursor': Cursor, ghost order': seq<Cell>, ghost entered': seq<Cell>)
    requires maze.Length0 == rows && maze.Length1 == cols
    requires Carved(Snapshot(maze), rows, cols, order)
    requires IsNode((cx, cy)) && IsOpenIn(Snapshot(maze), rows, cols, (cx, cy))
    requires EnteredLog(entered, order) && (cx, cy) !in entered
    modifies maze
    ensures Carved(Snapshot(maze), rows, cols, order') && order <= order'
    ensures EnteredLog(entered', order') && entered + [(cx, cy)] <= entered'
    ensures cursor.shuffle < cursor'.shuffle && cursor.coin <= cursor'.coin
    ensures paths - currentPaths == CountTrue(coins, cursor.coin, cursor'.coin)
    ensures paths > currentPaths ==> paths <= pathCount
    ensures forall i, j :: 0 <= i < rows && 0 <= j < cols && maze[i, j] != old(maze[i, j]) ==>
              old(maze[i, j]) == Wall && maze[i, j] == Open
    decreases AllCells(rows, cols) - Elements(order), 1
  {
    ghost var g0 := Snapshot(maze);
    var dirs := shuffles(cursor.shuffle);
    cursor' := cursor.(shuffle := cursor.shuffle + 1);
    paths := currentPaths;
    order' := order;
    entered' := entered + [(cx, cy)];
    for k := 0 to 4
      invariant Carved(Snapshot(maze), rows, cols, order') && order <= order'
      invariant IsOpenIn(Snapshot(maze), rows, cols, (cx, cy))
      invariant EnteredLog(entered', order') && entered + [(cx, cy)] <= entered'
      invariant cursor.shuffle < cursor'.shuffle && cursor.coin <= cursor'.coin
      invariant paths - currentPaths == CountTrue(coins, cursor.coin, cursor'.coin)
      invariant paths > currentPaths ==> paths <= pathCount
    {
      DirectionOrderUnit(dirs, k);
      RemainingNoLarger(rows, cols, order, order');
      var p, c;
      p, c, order', entered' := CarveToward(maze, rows, cols, cx, cy, dirs[k], pathCount, paths,
                                            shuffles, coins, cursor', order', entered');
      CountTrueSplit(coins, cursor.coin, cursor'.coin, c.coin);
      paths, cursor' := p, c;
    }
    if paths < pathCount {
      ghost var coin0 := cursor'.coin;
      var c;
      paths, c, order' := AddExtraPaths(maze, rows, cols, cx, cy, dirs, pathCount, paths,
                                        coins, cursor'.coin, order');
      CountTrueSplit(coins, cursor.coin, coin0, c);
      cursor' := cursor'.(coin := c);
    }
    CarvedChangesWallToOpen(g0, Snapshot(maze), rows, cols, order, order');
  }

  /**
   * One pass of the main loop (lines 16-22): when the node two steps away
   * in direction d is inside the grid and still a wall, open the connector
   * and that node and start a frame there; otherwise change nothing.
   */
  method CarveToward(maze: array2<int>, rows: int, cols: int, cx: int, cy: int, d: Cell,
                     pathCount: int, currentPaths: int,
                     shuffles: nat -> DirectionOrder, coins: nat -> bool, cursor: Cursor,
                     ghost order: seq<Cell>, ghost entered: seq<Cell>)
    returns (paths: int, cursor': Cursor, ghost order': seq<Cell>, ghost entered': seq<Cell>)
    requires maze.Length0 == rows && maze.Length1 == cols
    requires Carved(Snapshot(maze), rows, cols, order)
    requires IsNode((cx, cy)) && IsOpenIn(Snapshot(maze), rows, cols, (cx, cy)) && d in Directions
    requires EnteredLog(entered, order)
    modifies maze
    ensures Carved(Snapshot(maze), rows, cols, order') && order <= order'
    ensures IsOpenIn(Snapshot(maze), rows, cols, (cx, cy))
    ensures EnteredLog(entered', order') && entered <= entered'
    ensures cursor.shuffle <= cursor'.shuffle && cursor.coin <= cursor'.coin
    ensures paths - currentPaths == CountTrue(coins, cursor.coin, cursor'.coin)
    ensures paths > currentPaths ==> paths <= pathCount
    ensures !(InBounds(rows, cols, Target(cx, cy, d)) && old(maze[Target(cx, cy, d).0, Target(cx, cy, d).1]) == Wall) ==>
              unchanged(maze) && order' == order && entered' == entered && paths == currentPaths && cursor' == cursor
    decreases AllCells(rows, cols) - Elements(order), 0
  {
    var (nx, ny) := Target(cx, cy, d);
    if 0 <= nx < rows && 0 <= ny < cols && maze[nx, ny] == Wall {
      ghost var g := Snapshot(maze);
      CarveStepKeepsCarved(g, rows, cols, order, cx, cy, d);
      StepParity(cx, cy, d);
      var (wx, wy) := Connector(cx, cy, d);
      Assign(maze, wx, wy, Open);
      Assign(maze, nx, ny, Open);
      ghost var order1 := order + [(wx, wy), (nx, ny)];
      ghost var mid := Snapshot(maze);
      assert (nx, ny) !in order && order1[|order| + 1] == (nx, ny);
      RemainingShrinks(rows, cols, order, order1, (nx, ny));
      EnteredLogGrows(entered, order, order1);
      paths, cursor', order', entered' := CarvePassagesFrom(maze, rows, cols, nx, ny, pathCount, currentPaths,
                                                            shuffles, coins, cursor, order1, entered);
      assert mid[cx][cy] == Open;
      CarvedOnlyGrows(mid, Snapshot(maze), rows, cols, order1, order', cx, cy);
    } else {
      paths, cursor', order', entered' := currentPaths, cursor, order, entered;
    }
  }

  /**
   * The extra-connector phase of one frame (lines 25-35): for each
   * direction whose node two steps away is already open, draw a coin; on
   * true, open the connector (whether or not it was open already), count
   * one more path, and stop once the counter reaches `pathCount`.
   */
  method AddExtraPaths(maze: array2<int>, rows: int, cols: int, cx: int, cy: int,
                       dirs: DirectionOrder, pathCount: int, currentPaths: int,
                       coins: nat -> bool, coin: nat, ghost order: seq<Cell>)
    returns (paths: int, coin': nat, ghost order': seq<Cell>)
    requires maze.Length0 == rows && maze.Length1 == cols
    requires Carved(Snapshot(maze), rows, cols, order)
    requires IsNode((cx, cy)) && IsOpenIn(Snapshot(maze), rows, cols, (cx, cy))
    requires currentPaths < pathCount
    modifies maze
    ensures Carved(Snapshot(maze), rows, cols, order') && order <= order'
    ensures OnlyExtraConnectors(old(Snapshot(maze)), Snapshot(maze), rows, cols, cx, cy)
    ensures coin <= coin'
    ensures paths - currentPaths == CountTrue(coins, coin, coin')
    ensures paths <= pathCount
  {
    paths := currentPaths;
    coin' := coin;
    order' := order;
    ghost var g0 := Snapshot(maze);
    var k := 0;
    while k < 4
      invariant 0 <= k <= 4
      invariant Carved(Snapshot(maze), rows, cols, order') && order <= order'
      invariant IsOpenIn(Snapshot(maze), rows, cols, (cx, cy))
      invariant OnlyExtraConnectors(g0, Snapshot(maze), rows, cols, cx, cy)
      invariant coin <= coin' && paths - currentPaths == CountTrue(coins, coin, coin')
      invariant paths < pathCount
    {
      DirectionOrderUnit(dirs, k);
      ghost var coin0 := coin';
      ghost var paths0 := paths;
      paths, coin', order' := AddExtraPathToward(maze, rows, cols, cx, cy, dirs[k], paths, coins, coin',
                                                 g0, order');
      CountTrueSplit(coins, coin, coin0, coin');
      if paths >= pathCount {
        return;
      }
      k := k + 1;
    }
  }

  /**
   * One pass of the extra-connector loop (lines 26-35): when the node two
   * steps away in direction d is open, draw a coin, and on true open the
   * connector and count one more path.  The loop's stop test (line 34)
   * only fires after a path was added, so it is left to the caller.
   */
  method AddExtraPathToward(maze: array2<int>, rows: int, cols: int, cx: int, cy: int, d: Cell,
                            currentPaths: int, coins: nat -> bool, coin: nat,
                            ghost g0: Grid, ghost order: seq<Cell>)
    returns (paths: int, coin': nat, ghost order': seq<Cell>)
    requires maze.Length0 == rows && maze.Length1 == cols && d in Directions
    requires Carved(Snapshot(maze), rows, cols, order)
    requires IsNode((cx, cy)) && IsOpenIn(Snapshot(maze), rows, cols, (cx, cy))
    requires OnlyExtraConnectors(g0, Snapshot(maze), rows, cols, cx, cy) && WallsOrOpen(g0, rows, cols)
    modifies maze
    ensures Carved(Snapshot(maze), rows, cols, order') && order <= order'
    ensures IsOpenIn(Snapshot(maze), rows, cols, (cx, cy))
    ensures OnlyExtraConnectors(g0, Snapshot(maze), rows, cols, cx, cy)
    ensures coin <= coin' && paths - currentPaths == CountTrue(coins, coin, coin')
    ensures paths <= currentPaths + 1
  {
    paths, coin', order' := currentPaths, coin, order;
    var (nx, ny) := Target(cx, cy, d);
    if 0 <= nx < rows && 0 <= ny < cols && maze[nx, ny] == Open {
      var heads := coins(coin');
      coin' := coin' + 1;
      if heads {
        ghost var g := Snapshot(maze);
        ExtraConnectorKeepsCarved(g, rows, cols, order, cx, cy, d);
        var (wx, wy) := Connector(cx, cy, d);
        Assign(maze, wx, wy, Open);
        order' := if g[wx][wy] == Open then order else order + [(wx, wy)];
        ExtraConnectorStep(g0, g, rows, cols, cx, cy, d);
        StepParity(cx, cy, d);
        assert (wx, wy) != (cx, cy);
        paths := paths + 1;
      }
    }
  }

  /**
   * Between g0 and g only walls were opened, and each of them is the
   * connector from (cx, cy) toward an open node of g.
   */
  ghost predicate OnlyExtraConnectors(g0: Grid, g: Grid, rows: int, cols: int, cx: int, cy: int) {
    IsRect(g0, rows, cols) && IsRect(g, rows, cols) &&
    forall i, j :: 0 <= i < rows && 0 <= j < cols && g[i][j] != g0[i][j] ==>
      g0[i][j] == Wall && g[i][j] == Open && ExtraConnector(g, rows, cols, cx, cy, (i, j))
  }

  ghost predicate ExtraConnector(g: Grid, rows: int, cols: int, cx: int, cy: int, c: Cell)
    requires IsRect(g, rows, cols)
  {
    exists d :: d in Directions && c == Connector(cx, cy, d) && IsOpenIn(g, rows, cols, Target(cx, cy, d))
  }

  /** Opening one more extra connector keeps `OnlyExtraConnectors`. */
  lemma ExtraConnectorStep(g0: Grid, g: Grid, rows: int, cols: int, cx: int, cy: int, d: Cell)
    requires OnlyExtraConnectors(g0, g, rows, cols, cx, cy) && WallsOrOpen(g0, rows, cols)
    requires d in Directions && InBounds(rows, cols, Connector(cx, cy, d))
    requires IsOpenIn(g, rows, cols, Target(cx, cy, d))
    ensures OnlyExtraConnectors(g0, SetCell(g, Connector(cx, cy, d).0, Connector(cx, cy, d).1, Open), rows, cols, cx, cy)
  {
    var (wx, wy) := Connector(cx, cy, d);
    var g' := SetCell(g, wx, wy, Open);
    forall i, j | 0 <= i < rows && 0 <= j < cols && g'[i][j] != g0[i][j]
      ensures g0[i][j] == Wall && g'[i][j] == Open && ExtraConnector(g', rows, cols, cx, cy, (i, j))
    {
      if (i, j) == (wx, wy) {
        assert IsOpenIn(g', rows, cols, Target(cx, cy, d));
      } else {
        assert g'[i][j] == g[i][j];
        ExtraConnectorStays(g, g', rows, cols, cx, cy, (i, j));
      }
    }
  }

  /** An extra connector stays one when more cells are opened. */
  lemma ExtraConnectorStays(g: Grid, g': Grid, rows: int, cols: int, cx: int, cy: int, c: Cell)
    requires IsRect(g, rows, cols) && IsRect(g', rows, cols) && ExtraConnector(g, rows, cols, cx, cy, c)
    requires forall i, j :: 0 <= i < rows && 0 <= j < cols && g[i][j] == Open ==> g'[i][j] == Open
    ensures ExtraConnector(g', rows, cols, cx, cy, c)
  {
    var e :| e in Directions && c == Connector(cx, cy, e) && IsOpenIn(g, rows, cols, Target(cx, cy, e));
    assert IsOpenIn(g', rows, cols, Target(cx, cy, e));
  }

  /**
   * `generate_maze_with_paths`: an all-wall grid, (1, 1) opened, the
   * counter started at 1, one carve from (1, 1).  The result holds only
   * walls and open cells in the lattice shape, (1, 1) is open, every open
   * cell is reachable from (1, 1) through open cells, and the returned
   * counter is at least 1 and at most max(1, pathCount).
   */
  method GenerateMazeWithPaths(rows: nat, cols: nat, pathCount: int,
                               shuffles: nat -> DirectionOrder, coins: nat -> bool)
    returns (maze: array2<int>, paths: int)
    requires rows >= 2 && cols >= 2
    ensures fresh(maze) && maze.Length0 == rows && maze.Length1 == cols
    ensures maze[1, 1] == Open
    ensures WallsOrOpen(Snapshot(maze), rows, cols) && Lattice(Snapshot(maze), rows, cols)
    ensures forall i, j :: 0 <= i < rows && 0 <= j < cols && maze[i, j] == Open ==>
              ReachableOpen(Snapshot(maze), rows, cols, (1, 1), (i, j))
    ensures 1 <= paths && (paths == 1 || paths <= pathCount)
  {
    maze := InitializeMaze(rows, cols);
    StartIsCarved(Snapshot(maze), rows, cols);
    Assign(maze, 1, 1, Open);
    ghost var order, entered;
    var cursor;
    paths, cursor, order, entered := CarvePassagesFrom(maze, rows, cols, 1, 1, pathCount, 1,
                                                  shuffles, coins, Cursor(0, 0), [(1, 1)], []);
    ghost var g := Snapshot(maze);
    assert g[1][1] == Open;
    forall i, j | 0 <= i < rows && 0 <= j < cols && maze[i, j] == Open
      ensures ReachableOpen(g, rows, cols, (1, 1), (i, j))
    {
      CarvedIsConnected(g, rows, cols, order, i, j);
    }
  }

  /**
   * `upscale_maze`: each cell (i, j) of the maze becomes the block of rows
   * [i * scale, (i + 1) * scale) and columns [j * scale, (j + 1) * scale)
   * of the result, filled with that cell's value.
   */
  method UpscaleMaze(maze: array2<int>, scale: nat) returns (up: array2<int>)
    ensures fresh(up)
    ensures up.Length0 == maze.Length0 * scale && up.Length1 == maze.Length1 * scale
    ensures Upscaled(maze, up, scale, maze.Length0)
    ensures forall x, y :: 0 <= x < up.Length0 && 0 <= y < up.Length1 ==>
              0 <= x / scale < maze.Length0 && 0 <= y / scale < maze.Length1 &&
              up[x, y] == maze[x / scale, y / scale]
  {
    up := new int[maze.Length0 * scale, maze.Length1 * scale]((_, _) => 0);
    for i := 0 to maze.Length0
      invariant Upscaled(maze, up, scale, i)
    {
      UpscaleRow(maze, up, i, scale);
    }
    forall x, y | 0 <= x < up.Length0 && 0 <= y < up.Length1
      ensures 0 <= x / scale < maze.Length0 && 0 <= y / scale < maze.Length1 &&
              up[x, y] == maze[x / scale, y / scale]
    {
      UpscaledIsDivision(maze, up, scale, x, y);
    }
  }

  /**
   * Every cell of the blocks of maze rows [0, n) holds the value of the
   * maze cell it was copied from.
   */
  ghost predicate Upscaled(maze: array2<int>, up: array2<int>, scale: nat, n: int)
    reads maze, up
  {
    forall i, j, x, y :: 0 <= i < n && 0 <= j < maze.Length1 && InBlock(x, i, scale) && InBlock(y, j, scale) &&
                         0 <= x < up.Length0 && 0 <= y < up.Length1 && i < maze.Length0 ==>
                         up[x, y] == maze[i, j]
  }

  /** Row or column x of the result lies in the block of maze row or column i. */
  predicate InBlock(x: int, i: int, scale: nat) {
    i * scale <= x < i * scale + scale
  }

  /** The inner loop of `upscale_maze` (lines 52-53): the blocks of maze row i. */
  method UpscaleRow(maze: array2<int>, up: array2<int>, i: int, scale: nat)
    requires maze != up
    requires up.Length0 == maze.Length0 * scale && up.Length1 == maze.Length1 * scale
    requires 0 <= i < maze.Length0
    requires Upscaled(maze, up, scale, i)
    modifies up
    ensures Upscaled(maze, up, scale, i + 1)
  {
    MulMono(i + 1, maze.Length0, scale);
    var r0 := i * scale;
    for j := 0 to maze.Length1
      invariant Upscaled(maze, up, scale, i)
      invariant forall q, x, y :: 0 <= q < j && InBlock(x, i, scale) && InBlock(y, q, scale) &&
                                  0 <= x < up.Length0 && 0 <= y < up.Length1 ==>
                                  up[x, y] == maze[i, q]
    {
      MulMono(j + 1, maze.Length1, scale);
      label before:
      FillBlock(up, r0, r0 + scale, j * scale, j * scale + scale, maze[i, j]);
      assert Upscaled(maze, up, scale, i) by {
        forall p, q, x, y | 0 <= p < i && 0 <= q < maze.Length1 && InBlock(x, p, scale) && InBlock(y, q, scale) &&
                            0 <= x < up.Length0 && 0 <= y < up.Length1
          ensures up[x, y] == maze[p, q]
        {
          MulMono(p + 1, i, scale);
          assert (p + 1) * scale == p * scale + scale;
          assert up[x, y] == old@before(up[x, y]);
        }
      }
      forall q, x, y | 0 <= q < j + 1 && InBlock(x, i, scale) && InBlock(y, q, scale) &&
                       0 <= x < up.Length0 && 0 <= y < up.Length1
        ensures up[x, y] == maze[i, q]
      {
        if q < j {
          MulMono(q + 1, j, scale);
          assert (q + 1) * scale == q * scale + scale;
          assert y < j * scale;
          assert up[x, y] == old@before(up[x, y]);
        }
      }
    }
  }

  /** In an upscaled grid, cell (x, y) holds the maze cell (x / scale, y / scale). */
  lemma UpscaledIsDivision(maze: array2<int>, up: array2<int>, scale: nat, x: int, y: int)
    requires up.Length0 == maze.Length0 * scale && up.Length1 == maze.Length1 * scale
    requires Upscaled(maze, up, scale, maze.Length0)
    requires 0 <= x < up.Length0 && 0 <= y < up.Length1
    ensures 0 <= x / scale < maze.Length0 && 0 <= y / scale < maze.Length1
    ensures up[x, y] == maze[x / scale, y / scale]
  {
    BlockBounds(x, scale, maze.Length0);
    BlockBounds(y, scale, maze.Length1);
    BlockIndex(x, scale, x / scale);
    BlockIndex(y, scale, y / scale);
    assert InBlock(x, x / scale, scale) && InBlock(y, y / scale, scale);
  }

  /** The slice assignment `up[r0:r1, c0:c1] = v`. */
  method FillBlock(up: array2<int>, r0: int, r1: int, c0: int, c1: int, v: int)
    requires 0 <= r0 <= r1 <= up.Length0 && 0 <= c0 <= c1 <= up.Length1
    modifies up
    ensures forall x, y :: 0 <= x < up.Length0 && 0 <= y < up.Length1 ==>
              up[x, y] == if r0 <= x < r1 && c0 <= y < c1 then v else old(up[x, y])
  {
    for x := r0 to r1
      invariant forall p, q :: 0 <= p < up.Length0 && 0 <= q < up.Length1 ==>
                  up[p, q] == if r0 <= p < x && c0 <= q < c1 then v else old(up[p, q])
    {
      for y := c0 to c1
        invariant forall p, q :: 0 <= p < up.Length0 && 0 <= q < up.Length1 ==>
                    up[p, q] == if (r0 <= p < x && c0 <= q < c1) || (p == x && c0 <= q < y) then v else old(up[p, q])
      {
        up[x, y] := v;
      }
    }
  }

  /** With a positive scale, x lies in block i exactly when i * scale <= x < (i + 1) * scale. */
  lemma BlockIndex(x: int, scale: int, i: int)
    requires scale > 0
    ensures x / scale == i <==> i * scale <= x < i * scale + scale
  {
    var q := x / scale;
    var r := x % scale;
    assert x == q * scale + r && 0 <= r < scale;
    DivBlock(q, r, scale);
    if i * scale <= x < i * scale + scale {
      DivBlock(i, x - i * scale, scale);
    }
  }

  /** A cell inside an upscaled grid of n blocks lies in one of those blocks. */
  lemma BlockBounds(x: int, scale: int, n: int)
    requires scale > 0 && 0 <= x < n * scale
    ensures 0 <= x / scale < n
  {
    var q := x / scale;
    BlockIndex(x, scale, q);
    if q >= n {
      MulMono(n, q, scale);
      assert false;
    }
  }

  /** The cell i * scale + r with 0 <= r < scale lies in block i. */
  lemma DivBlock(i: int, r: int, scale: int)
    requires scale > 0 && 0 <= r < scale
    ensures (i * scale + r) / scale == i
  {
    var x := i * scale + r;
    var q := x / scale;
    assert x == q * scale + x % scale;
    if q < i {
      MulMono(q, i - 1, scale);
      assert false;
    } else if q > i {
      MulMono(i + 1, q, scale);
      assert false;
    }
  }

  lemma MulMono(p: int, q: int, scale: nat)
    requires p <= q
    ensures p * scale <= q * scale
  {
  }
}
