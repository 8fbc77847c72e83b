/**
 * The wrap-around neighbour count the program evidently intends: each
 * coordinate of a neighbour is taken modulo its dimension, so every cell,
 * on the edge or not, has eight neighbours. The loops of `sumNeighbours`
 * compare wrapped bounds with `<=` instead, which empties their range on
 * the edge; `CornerMissesWrappedNeighbour` exhibits the difference.
 */
module Torus {
  import opened Life
  import opened Neighbourhood

  /** c + d brought back into [0, n), for d in {-1, 0, 1}: `(c + d + n) % n`. */
  function Wrap(c: int, d: int, n: nat): (w: int)
    requires 0 <= c < n && -1 <= d <= 1
    ensures 0 <= w < n
    ensures 0 <= c + d < n ==> w == c + d
    ensures c + d == -1 ==> w == n - 1
    ensures c + d == n ==> w == 0
  {
    WrapCases(c + d, n);
    (c + d + n) % n
  }

  /** The three cases of (x + n) % n for x in [-1, n]. */
  lemma WrapCases(x: int, n: nat)
    requires -1 <= x <= n && 0 < n
    ensures 0 <= x < n ==> (x + n) % n == x
    ensures x == -1 ==> (x + n) % n == n - 1
    ensures x == n ==> (x + n) % n == 0
  {
    if 0 <= x < n {
      DivModUnique(x + n, n, 1, x);
    } else if x == -1 {
      DivModUnique(x + n, n, 0, n - 1);
    } else {
      DivModUnique(x + n, n, 2, 0);
    }
  }

  /** The eight offsets (a, b) with a, b in {-1, 0, 1}, not both 0, in row-major order. */
  const OFFSETS: seq<Cell> := [(-1, -1), (-1, 0), (-1, 1), (0, -1), (0, 1), (1, -1), (1, 0), (1, 1)]

  /**
   * The eight wrapped neighbours of (i, j). They are always inside the
   * grid, and once the grid is at least 3 by 3 they are eight distinct
   * cells, none of them (i, j) itself.
   */
  function WrappedNeighbours(rows: nat, cols: nat, i: int, j: int): (s: seq<Cell>)
    requires 0 <= i < rows && 0 <= j < cols
    ensures |s| == 8
    ensures forall k :: 0 <= k < 8 ==> 0 <= s[k].0 < rows && 0 <= s[k].1 < cols
    ensures 3 <= rows && 3 <= cols ==> forall k :: 0 <= k < 8 ==> s[k] != (i, j)
    ensures 3 <= rows && 3 <= cols ==> forall k, l :: 0 <= k < l < 8 ==> s[k] != s[l]
  {
    seq(8, k requires 0 <= k < 8 => (Wrap(i, OFFSETS[k].0, rows), Wrap(j, OFFSETS[k].1, cols)))
  }

  /** Sum of the cells at the given positions. */
  function SumAt(g: Grid, cells: seq<Cell>): int
    requires g.Valid() && forall k :: 0 <= k < |cells| ==> g.InRange(cells[k].0, cells[k].1)
  {
    if cells == [] then 0
    else SumAt(g, cells[..|cells| - 1]) + g.At(cells[|cells| - 1].0, cells[|cells| - 1].1)
  }

  /** The intended count: the cells at the eight wrapped neighbours. */
  function WrappedSum(g: Grid, i: int, j: int): int
    requires g.Valid() && g.InRange(i, j)
  {
    SumAt(g, WrappedNeighbours(g.rows, g.cols, i, j))
  }

  /** On a grid of dead and live cells a sum over n positions lies in [0, n]. */
  lemma {:induction false} SumAtBound(g: Grid, cells: seq<Cell>)
    requires g.Valid() && g.Binary() && forall k :: 0 <= k < |cells| ==> g.InRange(cells[k].0, cells[k].1)
    ensures 0 <= SumAt(g, cells) <= |cells|
  {
    if cells != [] {
      var last := cells[|cells| - 1];
      SumAtBound(g, cells[..|cells| - 1]);
      BinaryAt(g, last.0, last.1);
    }
  }

  /** The intended count lies in [0, 8] on a grid of dead and live cells. */
  lemma WrappedSumBound(g: Grid, i: int, j: int)
    requires g.Valid() && g.Binary() && g.InRange(i, j)
    ensures 0 <= WrappedSum(g, i, j) <= 8
  {
    SumAtBound(g, WrappedNeighbours(g.rows, g.cols, i, j));
  }

  /** Extending a prefix by one position adds that position's cell. */
  lemma SumAtStep(g: Grid, s: seq<Cell>, k: int)
    requires g.Valid() && 0 <= k < |s| && forall m :: 0 <= m < |s| ==> g.InRange(s[m].0, s[m].1)
    ensures SumAt(g, s[..k + 1]) == SumAt(g, s[..k]) + g.At(s[k].0, s[k].1)
  {
    assert s[..k + 1][..k] == s[..k];
  }

  /** A sum over eight positions, written out. */
  lemma SumAtEight(g: Grid, s: seq<Cell>)
    requires g.Valid() && |s| == 8 && forall k :: 0 <= k < 8 ==> g.InRange(s[k].0, s[k].1)
    ensures SumAt(g, s)
            == g.At(s[0].0, s[0].1) + g.At(s[1].0, s[1].1) + g.At(s[2].0, s[2].1) + g.At(s[3].0, s[3].1)
             + g.At(s[4].0, s[4].1) + g.At(s[5].0, s[5].1) + g.At(s[6].0, s[6].1) + g.At(s[7].0, s[7].1)
  {
    assert s[..0] == [];
    SumAtStep(g, s, 0);
    SumAtStep(g, s, 1);
    SumAtStep(g, s, 2);
    SumAtStep(g, s, 3);
    SumAtStep(g, s, 4);
    SumAtStep(g, s, 5);
    SumAtStep(g, s, 6);
    SumAtStep(g, s, 7);
    assert s[..8] == s;
  }

  /** Away from the edge the program's count and the intended one agree. */
  lemma WrappedSumInside(g: Grid, i: int, j: int)
    requires g.Valid() && 1 <= i <= g.rows - 2 && 1 <= j <= g.cols - 2
    ensures WrappedSum(g, i, j) == g.NeighbourSum(i, j)
  {
    InteriorSum(g, i, j);
    SumAtEight(g, WrappedNeighbours(g.rows, g.cols, i, j));
  }

  /**
   * The discrepancy: on a grid of at least 3 by 3 whose only live cell is
   * (0, 0), the opposite corner has (0, 0) among its wrapped neighbours,
   * so the intended count there is 1, but the program's count is 0.
   */
  lemma CornerMissesWrappedNeighbour(rows: nat, cols: nat)
    requires 3 <= rows && 3 <= cols
    ensures FromCells(rows, cols, {(0, 0)}).NeighbourSum(rows - 1, cols - 1) == 0
    ensures WrappedSum(FromCells(rows, cols, {(0, 0)}), rows - 1, cols - 1) == 1
  {
    var g := FromCells(rows, cols, {(0, 0)});
    EdgeSumZero(g, rows - 1, cols - 1);
    SumAtEight(g, WrappedNeighbours(rows, cols, rows - 1, cols - 1));
  }
}
