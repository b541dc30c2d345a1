/**
 * Grid cells shared by the maze generators and the ant models: integer
 * (row, column) pairs, bounds, orthogonal adjacency and the neighbour
 * lists the ant models scan.
 */
module Cells {

  type Cell = (int, int)

  predicate InBounds(rows: int, cols: int, c: Cell) {
    0 <= c.0 < rows && 0 <= c.1 < cols
  }

  /** Orthogonal (4-)adjacency. */
  predicate Adjacent(a: Cell, b: Cell) {
    (a.0 == b.0 && (a.1 == b.1 + 1 || b.1 == a.1 + 1)) ||
    (a.1 == b.1 && (a.0 == b.0 + 1 || b.0 == a.0 + 1))
  }

  /**
   * `get_adjacent_cells`: the four orthogonal neighbours of p in the order
   * (x, y + 1), (x + 1, y), (x, y - 1), (x - 1, y).
   */
  function Neighbours4(p: Cell): (r: seq<Cell>)
    ensures |r| == 4
    ensures forall i :: 0 <= i < 4 ==> Adjacent(p, r[i])
  {
    [(p.0, p.1 + 1), (p.0 + 1, p.1), (p.0, p.1 - 1), (p.0 - 1, p.1)]
  }

  /** The four neighbours are exactly the adjacent cells, each listed once. */
  lemma Neighbours4Exact(p: Cell)
    ensures forall c :: c in Neighbours4(p) <==> Adjacent(p, c)
    ensures forall i, j :: 0 <= i < j < 4 ==> Neighbours4(p)[i] != Neighbours4(p)[j]
  {
  }

  /** King-move (8-)adjacency: a different cell at most one step away in each coordinate. */
  predicate Around(p: Cell, c: Cell) {
    c != p && -1 <= c.0 - p.0 <= 1 && -1 <= c.1 - p.1 <= 1
  }

  /**
   * The eight cells around p, in the order of the offsets (dx, dy) for
   * dx in [-1, 0, 1] and then dy in [-1, 0, 1], leaving out (0, 0).
   */
  function Neighbours8(p: Cell): (r: seq<Cell>)
    ensures |r| == 8
  {
    var (x, y) := p;
    [(x - 1, y - 1), (x - 1, y), (x - 1, y + 1), (x, y - 1), (x, y + 1), (x + 1, y - 1), (x + 1, y), (x + 1, y + 1)]
  }

  /** The eight cells are exactly the cells around p, each once. */
  lemma Neighbours8Exact(p: Cell)
    ensures forall c :: c in Neighbours8(p) <==> Around(p, c)
    ensures forall i, j :: 0 <= i < j < 8 ==> Neighbours8(p)[i] != Neighbours8(p)[j]
  {
  }

  /** `dx != 0 and dy != 0`: the step from p to an around-cell c is diagonal. */
  predicate Diagonal(p: Cell, c: Cell) {
    c.0 != p.0 && c.1 != p.1
  }

  /** How many offsets (dx, dy) two nested loops over dx and dy in [-1, 0, 1] have passed before (a - 1, b - 1), leaving out (0, 0). */
  function Passed(a: nat, b: nat): nat {
    var n := 3 * a + b;
    if n > 4 then n - 1 else n
  }

  /** Offset (a - 1, b - 1) is entry `Passed(a, b)` of `Neighbours8`, and the count grows by one at every offset but (0, 0). */
  lemma OffsetIsNeighbour(p: Cell, a: nat, b: nat)
    requires a < 3 && b < 3
    ensures (a, b) == (1, 1) ==> Passed(a, b + 1) == Passed(a, b)
    ensures (a, b) != (1, 1) ==> && Passed(a, b + 1) == Passed(a, b) + 1 && Passed(a, b) < 8
                                 && Neighbours8(p)[Passed(a, b)] == (p.0 + a - 1, p.1 + b - 1)
    ensures Passed(a, 3) == Passed(a + 1, 0)
  {
  }
}
