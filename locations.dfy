/**
 * Cells as the depth-first ant models hold them.  An ant is created with
 * its position as the list `[x, y]`; every later position comes from
 * `get_adjacent_cells` as a tuple `(x, y)`.  In Python a list never equals
 * a tuple, even with the same numbers, so the kind of a cell takes part in
 * every `==` and `in` test the ants make.
 */
module Locations {
  import opened Cells

  datatype Loc = Loc(cell: Cell, isList: bool)

  /** The list `[x, y]` an ant is created with. */
  function AsList(x: int, y: int): (l: Loc)
    ensures l.cell == (x, y) && l.isList
  {
    Loc((x, y), true)
  }

  /** A neighbour tuple from `get_adjacent_cells`. */
  function AsTuple(c: Cell): (l: Loc)
    ensures l.cell == c && !l.isList
  {
    Loc(c, false)
  }
}
