/**
 * The bounded random walk: ants on an empty grid that holds only the
 * colony (-1) and the food (1) take one uniformly chosen step to one of
 * the in-bounds cells around them per update; an update reports whether
 * an ant now stands on the food.
 */
module RandomWalk {
  import opened Wrappers
  import opened Cells

  const Colony: real := -1.0
  const Food: real := 1.0

  /** `(height - 5, width // 2)` and `(4, width // 2)`. */
  function ColonyPosition(height: int, width: int): Cell {
    (height - 5, width / 2)
  }

  function FoodPosition(width: int): Cell {
    (4, width / 2)
  }

  /** `np.random.randint(n)`: given n > 0, an index below n. */
  type RandInt = nat -> nat

  ghost predicate IsRandInt(randint: RandInt) {
    forall n :: n > 0 ==> randint(n) < n
  }

  /** The cells of `cells` inside the first height rows and width columns, in order. */
  function Inside(height: int, width: int, cells: seq<Cell>): (r: seq<Cell>)
    ensures |r| <= |cells|
  {
    if cells == [] then []
    else
      var last := cells[|cells| - 1];
      Inside(height, width, cells[..|cells| - 1]) + if InBounds(height, width, last) then [last] else []
  }

  /** `Inside` keeps exactly the cells in bounds. */
  lemma {:induction false} InsideExact(height: int, width: int, cells: seq<Cell>)
    ensures forall c :: c in Inside(height, width, cells) <==> c in cells && InBounds(height, width, c)
  {
    if cells != [] {
      InsideExact(height, width, cells[..|cells| - 1]);
      assert cells == cells[..|cells| - 1] + [cells[|cells| - 1]];
    }
  }

  /** Taking one more cell c into `Inside` appends c exactly when the bounds test of `valid_moves` admits it. */
  lemma InsideStep(height: int, width: int, cells: seq<Cell>, n: nat, c: Cell)
    requires n < |cells| && cells[n] == c
    ensures Inside(height, width, cells[..n + 1])
         == Inside(height, width, cells[..n]) + if 0 <= c.0 < height && 0 <= c.1 < width then [c] else []
  {
    assert cells[..n + 1][..n] == cells[..n];
  }

  /** What `valid_moves(height, width)` returns: the in-bounds cells around p, in the order of the offsets. */
  function MovesFrom(height: int, width: int, p: Cell): seq<Cell> {
    Inside(height, width, Neighbours8(p))
  }

  /** The moves are exactly the in-bounds cells around p, at most eight, never p itself. */
  lemma MovesFromExact(height: int, width: int, p: Cell)
    ensures var moves := MovesFrom(height, width, p);
            && |moves| <= 8 && p !in moves
            && forall c :: c in moves <==> Around(p, c) && InBounds(height, width, c)
  {
    Neighbours8Exact(p);
    InsideExact(height, width, Neighbours8(p));
  }

  /** From a cell of a grid with at least two rows or two columns there is always a move. */
  lemma MovesExist(height: int, width: int, p: Cell)
    requires InBounds(height, width, p) && (2 <= height || 2 <= width)
    ensures MovesFrom(height, width, p) != []
  {
    MovesFromExact(height, width, p);
    var c := if 2 <= height then (if p.0 > 0 then (p.0 - 1, p.1) else (p.0 + 1, p.1))
             else (if p.1 > 0 then (p.0, p.1 - 1) else (p.0, p.1 + 1));
    assert c in MovesFrom(height, width, p);
  }

  /**
   * What `move(height, width)` does to position p: step to
   * `moves[np.random.randint(len(moves))]`, or raise `ValueError`
   * (`randint(0)`) when there are no moves.
   */
  function Step(height: int, width: int, p: Cell, randint: RandInt): Result<Cell>
    requires IsRandInt(randint)
  {
    var moves := MovesFrom(height, width, p);
    if moves == [] then Raise(ValueError) else Ok(moves[randint(|moves|)])
  }

  /** A step either raises `ValueError` for want of moves, or lands on an in-bounds cell around p. */
  lemma StepStaysInside(height: int, width: int, p: Cell, randint: RandInt)
    requires IsRandInt(randint)
    ensures var r := Step(height, width, p, randint);
            && (r.Raise? <==> MovesFrom(height, width, p) == [])
            && (r.Raise? ==> r.error == ValueError)
            && (r.Ok? ==> Around(p, r.value) && InBounds(height, width, r.value))
  {
    MovesFromExact(height, width, p);
  }

  /** The index of the first position in ps without moves, or |ps|. */
  function Stuck(height: int, width: int, ps: seq<Cell>): (n: nat)
    ensures n <= |ps|
  {
    if ps == [] then 0
    else if MovesFrom(height, width, ps[0]) == [] then 0
    else 1 + Stuck(height, width, ps[1..])
  }

  /** `Stuck` is i exactly when the positions before i have moves and the one at i, if any, has none. */
  lemma {:induction false} StuckIsFirst(height: int, width: int, ps: seq<Cell>, i: nat)
    requires i <= |ps|
    ensures Stuck(height, width, ps) == i <==>
              && (forall k :: 0 <= k < i ==> MovesFrom(height, width, ps[k]) != [])
              && (i < |ps| ==> MovesFrom(height, width, ps[i]) == [])
  {
    if ps != [] && i > 0 {
      StuckIsFirst(height, width, ps[1..], i - 1);
      assert forall k :: 0 < k < i ==> ps[k] == ps[1..][k - 1];
    }
  }

  /** On a grid with two rows or two columns no ant inside it gets stuck. */
  lemma NeverStuck(height: int, width: int, ps: seq<Cell>)
    requires 2 <= height || 2 <= width
    requires forall k :: 0 <= k < |ps| ==> InBounds(height, width, ps[k])
    ensures Stuck(height, width, ps) == |ps|
  {
    forall k | 0 <= k < |ps|
      ensures MovesFrom(height, width, ps[k]) != []
    {
      MovesExist(height, width, ps[k]);
    }
    StuckIsFirst(height, width, ps, |ps|);
  }

  class Ant {
    var position: Cell

    /** `Ant(x, y)`: an ant at [x, y]. */
    constructor (x: int, y: int)
      ensures position == (x, y)
    {
      position := (x, y);
    }

    /** `valid_moves(height, width)`, as `MovesFrom` says. */
    method ValidMoves(height: int, width: int) returns (moves: seq<Cell>)
      ensures moves == MovesFrom(height, width, position)
    {
      ghost var around := Neighbours8(position);
      moves := [];
      for dx := -1 to 2
        invariant moves == Inside(height, width, around[..Passed(dx + 1, 0)])
      {
        for dy := -1 to 2
          invariant moves == Inside(height, width, around[..Passed(dx + 1, dy + 1)])
        {
          OffsetIsNeighbour(position, dx + 1, dy + 1);
          if dx != 0 || dy != 0 {
            var newX := position.0 + dx;
            var newY := position.1 + dy;
            InsideStep(height, width, around, Passed(dx + 1, dy + 1), (newX, newY));
            if 0 <= newX < height && 0 <= newY < width {
              moves := moves + [(newX, newY)];
            }
          }
        }
      }
      assert around[..Passed(3, 0)] == around;
    }

    /** `move(height, width)`: the position becomes what `Step` says; on `ValueError` it stays. */
    method Move(height: int, width: int, randint: RandInt) returns (error: Option<Exception>)
      requires IsRandInt(randint)
      modifies this
      ensures error.None? ==> Step(height, width, old(position), randint) == Ok(position)
      ensures error.Some? ==> Step(height, width, old(position), randint) == Raise(error.value) && position == old(position)
    {
      var moves := ValidMoves(height, width);
      if |moves| == 0 {
        return Some(ValueError);
      }
      position := moves[randint(|moves|)];
      return None;
    }
  }

  class Model {
    const width: int
    const height: int
    const nAnts: nat
    const grid: array2<real>
    const colonyPosition: Cell
    const foodPosition: Cell
    const ants: seq<Ant>

    /** The ants are different objects. */
    predicate Distinct() {
      forall i, j :: 0 <= i < j < |ants| ==> ants[i] != ants[j]
    }

    /** A height × width grid and nAnts different ants, all inside it. */
    ghost predicate Valid()
      reads this, ants
    {
      && grid.Length0 == height && grid.Length1 == width
      && |ants| == nAnts && Distinct()
      && forall k :: 0 <= k < |ants| ==> InBounds(height, width, ants[k].position)
    }

    /** The positions of the ants, in order. */
    ghost function Positions(): (ps: seq<Cell>)
      reads this, ants
      ensures |ps| == |ants| && forall k :: 0 <= k < |ants| ==> ps[k] == ants[k].position
    {
      seq(|ants|, k reads this, ants requires 0 <= k < |ants| => ants[k].position)
    }

    /**
     * `Model(width, height, nAnts)`: a grid of zeros with -1 at the colony
     * and 1 at the food (the food wins when the two coincide), and nAnts
     * ants at the colony.
     */
    constructor (width: int, height: int, nAnts: nat)
      requires 5 <= height && 1 <= width
      ensures Valid()
      ensures this.width == width && this.height == height && this.nAnts == nAnts
      ensures colonyPosition == ColonyPosition(height, width) && foodPosition == FoodPosition(width)
      ensures forall i, j :: 0 <= i < height && 0 <= j < width ==>
                grid[i, j] == if (i, j) == foodPosition then Food else if (i, j) == colonyPosition then Colony else 0.0
      ensures forall k :: 0 <= k < |ants| ==> fresh(ants[k]) && ants[k].position == colonyPosition
    {
      var colony := ColonyPosition(height, width);
      var food := FoodPosition(width);
      var g := new real[height, width]((i, j) => 0.0);
      g[colony.0, colony.1] := Colony;
      g[food.0, food.1] := Food;
      var created := Spawn(nAnts, colony);
      this.width, this.height, this.nAnts := width, height, nAnts;
      grid, colonyPosition, foodPosition, ants := g, colony, food, created;
    }

    /**
     * `update()`: every ant in turn takes the step `Step` says, drawing
     * its index from `randints[k]`; the first ant without moves raises
     * `ValueError` and ends the update with the ants after it unmoved.
     * Otherwise the result is whether some ant ends on the food.
     */
    method Update(randints: seq<RandInt>) returns (r: Result<bool>)
      requires Valid() && |randints| == |ants|
      requires forall k :: 0 <= k < |randints| ==> IsRandInt(randints[k])
      modifies ants
      ensures Valid()
      ensures var n := Stuck(height, width, old(Positions()));
              && (r.Raise? <==> n < |ants|) && (r.Raise? ==> r.error == ValueError)
              && (forall k :: 0 <= k < n ==> Step(height, width, old(ants[k].position), randints[k]) == Ok(ants[k].position))
              && (forall k :: n <= k < |ants| ==> ants[k].position == old(ants[k].position))
      ensures r.Ok? ==> (r.value <==> exists k :: 0 <= k < |ants| && ants[k].position == foodPosition)
    {
      ghost var before := Positions();
      ghost var n;
      r, n := MoveAnts(randints);
      forall k | 0 <= k < |ants|
        ensures InBounds(height, width, ants[k].position)
        ensures k < n ==> MovesFrom(height, width, before[k]) != []
      {
        StepStaysInside(height, width, before[k], randints[k]);
      }
      StuckIsFirst(height, width, before, n);
    }

    /** The loop of `update()`: the ants before n step, ant n (if any) is stuck, the rest stay. */
    method MoveAnts(randints: seq<RandInt>) returns (r: Result<bool>, ghost n: nat)
      requires Distinct() && |randints| == |ants|
      requires forall k :: 0 <= k < |randints| ==> IsRandInt(randints[k])
      modifies ants
      ensures n <= |ants| && (r.Raise? <==> n < |ants|) && (r.Raise? ==> r.error == ValueError)
      ensures n < |ants| ==> MovesFrom(height, width, old(ants[n].position)) == []
      ensures forall k :: 0 <= k < n ==> Step(height, width, old(ants[k].position), randints[k]) == Ok(ants[k].position)
      ensures forall k :: n <= k < |ants| ==> ants[k].position == old(ants[k].position)
      ensures r.Ok? ==> (r.value <==> exists k :: 0 <= k < |ants| && ants[k].position == foodPosition)
    {
      var foodFound := false;
      for i := 0 to |ants|
        invariant forall k :: 0 <= k < i ==> Step(height, width, old(ants[k].position), randints[k]) == Ok(ants[k].position)
        invariant forall k :: i <= k < |ants| ==> ants[k].position == old(ants[k].position)
        invariant foodFound <==> exists k :: 0 <= k < i && ants[k].position == foodPosition
      {
        var ant := ants[i];
        var error := ant.Move(height, width, randints[i]);
        if error.Some? {
          return Raise(error.value), i;
        }
        if ant.position == foodPosition {
          foodFound := true;
        }
      }
      return Ok(foodFound), |ants|;
    }
  }

  /** `[Ant(*colony) for _ in range(n)]`: n new ants at the colony. */
  method Spawn(n: nat, colony: Cell) returns (ants: seq<Ant>)
    ensures |ants| == n && forall i, j :: 0 <= i < j < n ==> ants[i] != ants[j]
    ensures forall k :: 0 <= k < n ==> fresh(ants[k]) && ants[k].position == colony
  {
    ants := [];
    for m := 0 to n
      invariant |ants| == m
      invariant forall i, j :: 0 <= i < j < m ==> ants[i] != ants[j]
      invariant forall k :: 0 <= k < m ==> fresh(ants[k]) && ants[k].position == colony
    {
      var ant := new Ant(colony.0, colony.1);
      ants := ants + [ant];
    }
  }
}
