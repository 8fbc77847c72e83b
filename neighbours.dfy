/**
 * What the neighbour count of `sumNeighbours` amounts to. Its loops run
 * between two wrapped bounds compared with `<=`, so for a coordinate in
 * the middle of a dimension they visit the three indices around it, but
 * for one on the edge (in a dimension of 3 or more) the range is empty:
 * interior cells get the eight-cell sum, edge cells get 0.
 */
module Neighbourhood {
  import opened Life

  /** Number of indices in the half-open range [lo, hi). */
  function Width(lo: int, hi: int): (w: nat)
    ensures lo <= hi ==> w == hi - lo
    ensures hi <= lo ==> w == 0
  {
    if hi <= lo then 0 else hi - lo
  }

  /**
   * The shape of one loop range of `sumNeighbours` for coordinate c in a
   * dimension of size n: the three indices around an interior c; nothing
   * for an edge c once n >= 3; the other index when n == 2; index 0 when
   * n == 1.
   */
  lemma SpanShape(c: int, n: nat)
    requires 0 <= c < n
    ensures 3 <= n && 1 <= c <= n - 2 ==> Span(c, n) == Range(c - 1, c + 2)
    ensures 3 <= n && (c == 0 || c == n - 1) ==> Span(c, n).hi <= Span(c, n).lo
    ensures n == 2 ==> Span(c, n) == Range(1 - c, 2 - c)
    ensures n == 1 ==> Span(c, n) == Range(0, 1)
  {
    if 1 <= c {
      DivModUnique(c - 1 + n, n, 1, c - 1);
    } else {
      DivModUnique(c - 1 + n, n, 0, n - 1);
    }
    if c + 1 < n {
      DivModUnique(c + 1 + n, n, 1, c + 1);
    } else {
      DivModUnique(c + 1 + n, n, 2, 0);
    }
  }

  /** A loop range visits at most three indices, and when it visits three, c is among them. */
  lemma SpanWidth(c: int, n: nat)
    requires 0 <= c < n
    ensures Width(Span(c, n).lo, Span(c, n).hi) <= 3
    ensures Width(Span(c, n).lo, Span(c, n).hi) == 3 ==> Span(c, n).lo <= c < Span(c, n).hi
  {
    SpanShape(c, n);
  }

  // ---------------------------------------------------------------------
  // Bounds
  // ---------------------------------------------------------------------

  /** A cell of a binary grid is 0 or 1. */
  lemma BinaryAt(g: Grid, i: int, j: int)
    requires g.Valid() && g.Binary() && g.InRange(i, j)
    ensures g.At(i, j) == DEAD || g.At(i, j) == ALIVE
  {
    var k := Index(g.rows, g.cols, i, j);
    assert g.cells[k] == DEAD || g.cells[k] == ALIVE;
  }

  /** One row of the count adds at most one per visited cell, and nothing for (i, j). */
  lemma {:induction false} RowSumBound(g: Grid, i: int, j: int, dx: int, lo: int, hi: int)
    requires g.Valid() && g.Binary() && 0 <= dx < g.rows && 0 <= lo && hi <= g.cols
    ensures 0 <= g.RowSum(i, j, dx, lo, hi)
    ensures g.RowSum(i, j, dx, lo, hi) <= Width(lo, hi) - (if dx == i && lo <= j < hi then 1 else 0)
    decreases hi - lo
  {
    if lo < hi {
      RowSumBound(g, i, j, dx, lo, hi - 1);
      BinaryAt(g, dx, hi - 1);
    }
  }

  /** The whole block adds at most one per visited cell, and nothing for (i, j). */
  lemma {:induction false} BlockSumBound(g: Grid, i: int, j: int, xlo: int, xhi: int, ylo: int, yhi: int)
    requires g.Valid() && g.Binary() && 0 <= xlo && xhi <= g.rows && 0 <= ylo && yhi <= g.cols
    ensures 0 <= g.BlockSum(i, j, xlo, xhi, ylo, yhi)
    ensures g.BlockSum(i, j, xlo, xhi, ylo, yhi)
            <= Width(xlo, xhi) * Width(ylo, yhi) - (if xlo <= i < xhi && ylo <= j < yhi then 1 else 0)
    decreases xhi - xlo
  {
    if xlo < xhi {
      BlockSumBound(g, i, j, xlo, xhi - 1, ylo, yhi);
      RowSumBound(g, i, j, xhi - 1, ylo, yhi);
      assert Width(xlo, xhi) * Width(ylo, yhi) == Width(xlo, xhi - 1) * Width(ylo, yhi) + Width(ylo, yhi);
    }
  }

  /** On a grid of dead and live cells the neighbour count lies in [0, 8]. */
  lemma NeighbourSumBound(g: Grid, i: int, j: int)
    requires g.Valid() && g.Binary() && g.InRange(i, j)
    ensures 0 <= g.NeighbourSum(i, j) <= 8
  {
    var rs, cs := Span(i, g.rows), Span(j, g.cols);
    BlockSumBound(g, i, j, rs.lo, rs.hi, cs.lo, cs.hi);
    SpanWidth(i, g.rows);
    SpanWidth(j, g.cols);
    var wx, wy := Width(rs.lo, rs.hi), Width(cs.lo, cs.hi);
    if wx == 3 && wy == 3 {
      assert wx * wy == 9;
    } else if wx <= 2 {
      MulAtMost(wx, 2, wy, 3);
    } else {
      MulAtMost(wx, 3, wy, 2);
    }
  }

  /** Monotonicity of multiplication on naturals. */
  lemma MulAtMost(a: nat, a': nat, b: nat, b': nat)
    requires a <= a' && b <= b'
    ensures a * b <= a' * b'
  {
    assert a * b <= a' * b by {
      if a < a' {
        MulNonPositive(a - a', b);
        assert (a - a') * b == a * b - a' * b;
      }
    }
    assert a' * b <= a' * b' by {
      if b < b' {
        MulNonPositive(b - b', a');
        assert (b - b') * a' == a' * b - a' * b';
      }
    }
  }

  // ---------------------------------------------------------------------
  // The cell itself is never counted
  // ---------------------------------------------------------------------

  /** Overwriting (i, j) leaves every row of its count unchanged. */
  lemma {:induction false} RowSumIgnoresSelf(g: Grid, i: int, j: int, v: int, dx: int, lo: int, hi: int)
    requires g.Valid() && g.InRange(i, j) && 0 <= dx < g.rows && 0 <= lo && hi <= g.cols
    ensures g.Update(i, j, v).RowSum(i, j, dx, lo, hi) == g.RowSum(i, j, dx, lo, hi)
    decreases hi - lo
  {
    if lo < hi {
      RowSumIgnoresSelf(g, i, j, v, dx, lo, hi - 1);
    }
  }

  /** Overwriting (i, j) leaves the whole block of its count unchanged. */
  lemma {:induction false} BlockSumIgnoresSelf(g: Grid, i: int, j: int, v: int, xlo: int, xhi: int, ylo: int, yhi: int)
    requires g.Valid() && g.InRange(i, j) && 0 <= xlo && xhi <= g.rows && 0 <= ylo && yhi <= g.cols
    ensures g.Update(i, j, v).BlockSum(i, j, xlo, xhi, ylo, yhi) == g.BlockSum(i, j, xlo, xhi, ylo, yhi)
    decreases xhi - xlo
  {
    if xlo < xhi {
      BlockSumIgnoresSelf(g, i, j, v, xlo, xhi - 1, ylo, yhi);
      RowSumIgnoresSelf(g, i, j, v, xhi - 1, ylo, yhi);
    }
  }

  /** The count for (i, j) does not depend on the value of (i, j) itself. */
  lemma NeighbourSumIgnoresSelf(g: Grid, i: int, j: int, v: int)
    requires g.Valid() && g.InRange(i, j)
    ensures g.Update(i, j, v).NeighbourSum(i, j) == g.NeighbourSum(i, j)
  {
    var rs, cs := Span(i, g.rows), Span(j, g.cols);
    BlockSumIgnoresSelf(g, i, j, v, rs.lo, rs.hi, cs.lo, cs.hi);
  }

  // ---------------------------------------------------------------------
  // Interior cells: the eight surrounding cells
  // ---------------------------------------------------------------------

  /** A row over three columns adds those three terms. */
  lemma RowOfThree(g: Grid, i: int, j: int, dx: int, lo: int)
    requires g.Valid() && 0 <= dx < g.rows && 0 <= lo && lo + 3 <= g.cols
    ensures g.RowSum(i, j, dx, lo, lo + 3)
            == g.Term(i, j, dx, lo) + g.Term(i, j, dx, lo + 1) + g.Term(i, j, dx, lo + 2)
  {
    assert g.RowSum(i, j, dx, lo, lo + 1) == g.Term(i, j, dx, lo);
    assert g.RowSum(i, j, dx, lo, lo + 2) == g.RowSum(i, j, dx, lo, lo + 1) + g.Term(i, j, dx, lo + 1);
  }

  /**
   * For 1 <= i <= rows-2 and 1 <= j <= cols-2 the count is the sum of
   * the eight cells (i+a, j+b) with a, b in {-1, 0, 1}, not both 0.
   */
  lemma InteriorSum(g: Grid, i: int, j: int)
    requires g.Valid() && 1 <= i <= g.rows - 2 && 1 <= j <= g.cols - 2
    ensures g.NeighbourSum(i, j)
            == g.At(i - 1, j - 1) + g.At(i - 1, j) + g.At(i - 1, j + 1)
             + g.At(i, j - 1)                       + g.At(i, j + 1)
             + g.At(i + 1, j - 1) + g.At(i + 1, j) + g.At(i + 1, j + 1)
  {
    SpanShape(i, g.rows);
    SpanShape(j, g.cols);
    RowOfThree(g, i, j, i - 1, j - 1);
    RowOfThree(g, i, j, i, j - 1);
    RowOfThree(g, i, j, i + 1, j - 1);
    assert g.BlockSum(i, j, i - 1, i, j - 1, j + 2) == g.RowSum(i, j, i - 1, j - 1, j + 2);
    assert g.BlockSum(i, j, i - 1, i + 1, j - 1, j + 2)
           == g.BlockSum(i, j, i - 1, i, j - 1, j + 2) + g.RowSum(i, j, i, j - 1, j + 2);
  }

  // ---------------------------------------------------------------------
  // Edge cells: an empty loop range, so a count of 0
  // ---------------------------------------------------------------------

  /** With an empty column range every row adds nothing. */
  lemma {:induction false} BlockSumNoColumns(g: Grid, i: int, j: int, xlo: int, xhi: int, ylo: int, yhi: int)
    requires g.Valid() && 0 <= xlo && xhi <= g.rows && 0 <= ylo && yhi <= g.cols && yhi <= ylo
    ensures g.BlockSum(i, j, xlo, xhi, ylo, yhi) == 0
    decreases xhi - xlo
  {
    if xlo < xhi {
      BlockSumNoColumns(g, i, j, xlo, xhi - 1, ylo, yhi);
    }
  }

  /** Whether (i, j) lies in the first or last row or column. */
  predicate OnEdge(g: Grid, i: int, j: int) {
    i == 0 || i == g.rows - 1 || j == 0 || j == g.cols - 1
  }

  /**
   * With at least three rows and three columns, a cell on the edge gets a
   * count of 0 whatever the grid holds: no neighbour, wrapped or not, is read.
   */
  lemma EdgeSumZero(g: Grid, i: int, j: int)
    requires g.Valid() && g.InRange(i, j) && 3 <= g.rows && 3 <= g.cols && OnEdge(g, i, j)
    ensures g.NeighbourSum(i, j) == 0
  {
    SpanShape(i, g.rows);
    SpanShape(j, g.cols);
    var rs, cs := Span(i, g.rows), Span(j, g.cols);
    if cs.hi <= cs.lo {
      BlockSumNoColumns(g, i, j, rs.lo, rs.hi, cs.lo, cs.hi);
    }
  }

  /** Consequently every edge cell is dead in the next generation. */
  lemma EdgeCellsDie(g: Grid, i: int, j: int)
    requires g.Valid() && g.InRange(i, j) && 3 <= g.rows && 3 <= g.cols && OnEdge(g, i, j)
    ensures g.Next().At(i, j) == DEAD
  {
    EdgeSumZero(g, i, j);
  }

  // ---------------------------------------------------------------------
  // The rule
  // ---------------------------------------------------------------------

  /**
   * The rule as a table: a live cell survives with 2 or 3 neighbours, a
   * dead cell is born with exactly 3, every other pair gives a dead cell.
   */
  lemma RuleTable(state: int, n: int)
    requires state == DEAD || state == ALIVE
    ensures state == ALIVE ==> (Rule(state, n) <==> n == 2 || n == 3)
    ensures state == DEAD ==> (Rule(state, n) <==> n == 3)
  {
  }
}
