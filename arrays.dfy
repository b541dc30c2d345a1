/**
 * Two-dimensional numpy-style arrays.  The imperative code writes into an
 * `array2`; the specifications talk about its value, `Snapshot`, a
 * sequence of rows.
 */
module Arrays {

  /** The value of a 2-D array, row by row. */
  function Snapshot<T>(m: array2<T>): (g: seq<seq<T>>)
    reads m
    ensures |g| == m.Length0
    ensures forall i :: 0 <= i < |g| ==> |g[i]| == m.Length1
    ensures forall i, j :: 0 <= i < m.Length0 && 0 <= j < m.Length1 ==> g[i][j] == m[i, j]
  {
    seq(m.Length0, i reads m requires 0 <= i < m.Length0 => Row(m, i))
  }

  /** Row i of a 2-D array. */
  function Row<T>(m: array2<T>, i: int): (r: seq<T>)
    reads m
    requires 0 <= i < m.Length0
    ensures |r| == m.Length1 && forall j :: 0 <= j < m.Length1 ==> r[j] == m[i, j]
  {
    seq(m.Length1, j reads m requires 0 <= j < m.Length1 => m[i, j])
  }

  /** A grid value with `rows` rows of `cols` cells each. */
  predicate IsRect<T>(g: seq<seq<T>>, rows: int, cols: int) {
    |g| == rows && forall i :: 0 <= i < |g| ==> |g[i]| == cols
  }

  /** The grid `g` with cell (i, j) replaced by v. */
  function SetCell<T>(g: seq<seq<T>>, i: int, j: int, v: T): (g': seq<seq<T>>)
    requires 0 <= i < |g| && 0 <= j < |g[i]|
    ensures |g'| == |g| && forall a :: 0 <= a < |g| ==> |g'[a]| == |g[a]|
    ensures g'[i][j] == v
    ensures forall a, b :: 0 <= a < |g| && 0 <= b < |g[a]| && (a, b) != (i, j) ==> g'[a][b] == g[a][b]
  {
    g[i := g[i][j := v]]
  }

  /** An array whose every cell holds the one of g has g as its value. */
  lemma SnapshotIs<T>(m: array2<T>, g: seq<seq<T>>)
    requires IsRect(g, m.Length0, m.Length1)
    requires forall i, j :: 0 <= i < m.Length0 && 0 <= j < m.Length1 ==> m[i, j] == g[i][j]
    ensures Snapshot(m) == g
  {
    var s := Snapshot(m);
    forall i | 0 <= i < m.Length0
      ensures s[i] == g[i]
    {
      assert |s[i]| == |g[i]|;
    }
  }

  /** An element assignment `m[i, j] = v`, stated on the array's value. */
  method Assign<T>(m: array2<T>, i: int, j: int, v: T)
    requires 0 <= i < m.Length0 && 0 <= j < m.Length1
    modifies m
    ensures Snapshot(m) == SetCell(old(Snapshot(m)), i, j, v)
  {
    ghost var before := Snapshot(m);
    m[i, j] := v;
    ghost var after := Snapshot(m);
    ghost var expected := SetCell(before, i, j, v);
    forall a | 0 <= a < m.Length0
      ensures after[a] == expected[a]
    {
      assert |after[a]| == |expected[a]|;
      forall b | 0 <= b < m.Length1
        ensures after[a][b] == expected[a][b]
      {
      }
    }
  }
}
