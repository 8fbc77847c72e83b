/**
 * Value-level model of a Game of Life universe: the grid a `Universe`
 * holds (its dimensions and its row-major cells), the neighbour count as
 * the loops of `sumNeighbours` compute it, the survival rule, the next
 * generation and the random seeding, all as pure functions, with the
 * lemmas that say what they mean.
 */
module Life {

  /** The two cell values the program uses. */
  const DEAD: int := 0
  const ALIVE: int := 1

  // ---------------------------------------------------------------------
  // Row-major storage
  // ---------------------------------------------------------------------

  /** 1 * b <= a * b when 1 <= a. */
  lemma {:induction false} MulAtLeastOnce(a: int, b: nat)
    requires 1 <= a
    ensures b <= a * b
  {
    if a > 1 {
      MulAtLeastOnce(a - 1, b);
      assert a * b == (a - 1) * b + b;
    }
  }

  /**
   * Offset of cell (i, j) in the row-major slice of a grid with `rows`
   * rows and `cols` columns. The offset is in bounds and gives (i, j)
   * back, so the storage is a bijection between cells and offsets.
   */
  function Index(rows: nat, cols: nat, i: int, j: int): (k: nat)
    requires 0 <= i < rows && 0 <= j < cols
    ensures k < rows * cols
    ensures k / cols == i && k % cols == j
  {
    MulAtLeastOnce(rows - i, cols);
    assert (rows - i) * cols == rows * cols - i * cols;
    DivModUnique(i * cols + j, cols, i, j);
    i * cols + j
  }

  /** Euclidean division has only one quotient and remainder. */
  lemma DivModUnique(x: int, d: int, q: int, r: int)
    requires 0 <= r < d && x == q * d + r
    ensures x / d == q && x % d == r
  {
    var q', r' := x / d, x % d;
    assert (q - q') * d == r' - r;
    MulOutside(q - q', d);
  }

  /** A product with a factor outside (-1, 1) is at least the other factor in size. */
  lemma MulOutside(a: int, b: nat)
    ensures 1 <= a ==> b <= a * b
    ensures a <= -1 ==> a * b + b <= 0
  {
    if 1 <= a {
      MulAtLeastOnce(a, b);
    } else if a <= -1 {
      MulAtLeastOnce(-a, b);
      assert a * b == -((-a) * b);
    }
  }

  /** A non-positive factor makes a non-positive product. */
  lemma {:induction false} MulNonPositive(a: int, b: nat)
    requires a <= 0
    ensures a * b <= 0
    decreases -a
  {
    if a < 0 {
      MulNonPositive(a + 1, b);
      assert a * b == (a + 1) * b - b;
    }
  }

  /** Every offset below rows*cols is the offset of exactly one cell. */
  lemma CellOf(rows: nat, cols: nat, k: int)
    requires 0 <= k < rows * cols
    ensures 0 < cols && 0 <= k / cols < rows && 0 <= k % cols < cols
    ensures Index(rows, cols, k / cols, k % cols) == k
  {
    MulNonPositive(0 - cols, rows);
    assert 0 < cols;
    var q := k / cols;
    assert (rows - q) * cols == rows * cols - q * cols;
    MulNonPositive(if q < rows then 0 else rows - q, cols);
  }

  /** The dimensions and row-major cells of one generation. */
  datatype Grid = Grid(rows: nat, cols: nat, cells: seq<int>)
  {
    /** The slice holds exactly rows*cols cells. */
    predicate Valid() {
      |cells| == rows * cols
    }

    predicate InRange(i: int, j: int) {
      0 <= i < rows && 0 <= j < cols
    }

    /** Every cell is dead or alive. */
    predicate Binary() {
      forall k :: 0 <= k < |cells| ==> cells[k] == DEAD || cells[k] == ALIVE
    }

    /** The cell at row i, column j (the source's `get`). */
    function At(i: int, j: int): int
      requires Valid() && InRange(i, j)
    {
      cells[Index(rows, cols, i, j)]
    }

    /** The grid with cell (i, j) overwritten (the source's `set`). */
    function Update(i: int, j: int, v: int): (g: Grid)
      requires Valid() && InRange(i, j)
      ensures g.Valid() && g.rows == rows && g.cols == cols
      ensures g.At(i, j) == v
      ensures forall r, c :: InRange(r, c) && (r != i || c != j) ==> g.At(r, c) == At(r, c)
    {
      Grid(rows, cols, cells[Index(rows, cols, i, j) := v])
    }

    // -------------------------------------------------------------------
    // The neighbour count exactly as the loops of sumNeighbours run
    // -------------------------------------------------------------------

    /** What one iteration of the inner loop adds: cell (dx, dy), unless it is (i, j). */
    function Term(i: int, j: int, dx: int, dy: int): int
      requires Valid() && InRange(dx, dy)
    {
      if dx != i || dy != j then At(dx, dy) else 0
    }

    /** What the inner loop adds for row dx while dy runs over [lo, hi). */
    function RowSum(i: int, j: int, dx: int, lo: int, hi: int): int
      requires Valid() && 0 <= dx < rows && 0 <= lo && hi <= cols
      decreases hi - lo
    {
      if hi <= lo then 0 else RowSum(i, j, dx, lo, hi - 1) + Term(i, j, dx, hi - 1)
    }

    /** What the outer loop adds while dx runs over [xlo, xhi), each row over [ylo, yhi). */
    function BlockSum(i: int, j: int, xlo: int, xhi: int, ylo: int, yhi: int): int
      requires Valid() && 0 <= xlo && xhi <= rows && 0 <= ylo && yhi <= cols
      decreases xhi - xlo
    {
      if xhi <= xlo then 0
      else BlockSum(i, j, xlo, xhi - 1, ylo, yhi) + RowSum(i, j, xhi - 1, ylo, yhi)
    }

    /**
     * The source's `sumNeighbours(i, j)`: rows from (i-1+rows)%rows up to
     * and including (i+1+rows)%rows, columns likewise, skipping (i, j).
     */
    function NeighbourSum(i: int, j: int): int
      requires Valid() && InRange(i, j)
    {
      var rs, cs := Span(i, rows), Span(j, cols);
      BlockSum(i, j, rs.lo, rs.hi, cs.lo, cs.hi)
    }

    /** The source's `Lives(i, j)`. */
    predicate Lives(i: int, j: int)
      requires Valid() && InRange(i, j)
    {
      Rule(At(i, j), NeighbourSum(i, j))
    }

    /**
     * The source's `NextGeneration`: same dimensions, and every cell is
     * alive exactly when `Lives` holds for it in this (old) grid.
     */
    function Next(): (g: Grid)
      requires Valid()
      ensures g.Valid() && g.rows == rows && g.cols == cols && g.Binary()
      ensures forall i, j :: InRange(i, j) ==> g.At(i, j) == if Lives(i, j) then ALIVE else DEAD
    {
      var g := Grid(rows, cols, seq(rows * cols, k requires 0 <= k < rows * cols => NextAt(k)));
      assert forall i, j :: InRange(i, j) ==> g.At(i, j) == NextAt(Index(rows, cols, i, j));
      g
    }

    /** The next value of the cell stored at offset k. */
    function NextAt(k: int): (v: int)
      requires Valid() && 0 <= k < rows * cols
      ensures v == DEAD || v == ALIVE
    {
      CellOf(rows, cols, k);
      if Lives(k / cols, k % cols) then ALIVE else DEAD
    }
  }

  /** Two grids of the same size that agree on every cell are the same grid. */
  lemma GridExt(a: Grid, b: Grid)
    requires a.Valid() && b.Valid() && a.rows == b.rows && a.cols == b.cols
    requires forall i, j :: a.InRange(i, j) ==> a.At(i, j) == b.At(i, j)
    ensures a == b
  {
    forall k | 0 <= k < |a.cells|
      ensures a.cells[k] == b.cells[k]
    {
      CellOf(a.rows, a.cols, k);
      assert a.At(k / a.cols, k % a.cols) == b.At(k / a.cols, k % a.cols);
    }
  }

  /** A cell position (row, column). */
  type Cell = (int, int)

  /** 1 when (i, j) is live in `live`, else 0. */
  function In(live: set<Cell>, i: int, j: int): int {
    if (i, j) in live then ALIVE else DEAD
  }

  /** The grid of the given size whose live cells are exactly those of `live`. */
  function FromCells(rows: nat, cols: nat, live: set<Cell>): (g: Grid)
    ensures g.Valid() && g.rows == rows && g.cols == cols && g.Binary()
    ensures forall i, j :: g.InRange(i, j) ==> g.At(i, j) == In(live, i, j)
  {
    Grid(rows, cols, seq(rows * cols, k requires 0 <= k < rows * cols =>
      CellOf(rows, cols, k); In(live, k / cols, k % cols)))
  }

  /** A half-open range [lo, hi) of loop indices; empty when hi <= lo. */
  datatype Range = Range(lo: int, hi: int)

  /**
   * The indices one loop of `sumNeighbours` visits for coordinate c of a
   * dimension of size n: from (c-1+n)%n while the index is <= (c+1+n)%n.
   * Both bounds are wrapped values, so the range never leaves [0, n).
   */
  function Span(c: int, n: nat): (s: Range)
    requires 0 <= c < n
    ensures 0 <= s.lo < n && 0 < s.hi <= n
  {
    Range((c - 1 + n) % n, (c + 1 + n) % n + 1)
  }

  /**
   * The source's survival rule on a cell value and a neighbour count: a
   * live cell survives with 2 or 3 neighbours, a dead one is born with 3.
   */
  predicate Rule(state: int, n: int)
  {
    n == 3 || (state == ALIVE && n == 2)
  }

  /** The grid `New(rows, cols)` allocates: every cell dead. */
  function Empty(rows: nat, cols: nat): (g: Grid)
    ensures g.Valid() && g.rows == rows && g.cols == cols && g.Binary()
    ensures forall i, j :: g.InRange(i, j) ==> g.At(i, j) == DEAD
  {
    Grid(rows, cols, seq(rows * cols, _ => DEAD))
  }

  /**
   * What `Populate(threshold)` writes, given the draws of the random
   * source in row-major order: a cell is alive exactly when its draw
   * exceeds the threshold.
   */
  function Seed(rows: nat, cols: nat, draws: seq<int>, threshold: int): (g: Grid)
    requires |draws| == rows * cols
    ensures g.Valid() && g.rows == rows && g.cols == cols && g.Binary()
    ensures forall i, j :: g.InRange(i, j) ==>
              (g.At(i, j) == ALIVE <==> draws[Index(rows, cols, i, j)] > threshold)
  {
    Grid(rows, cols, seq(|draws|, k requires 0 <= k < |draws| => if draws[k] > threshold then ALIVE else DEAD))
  }

  /** A threshold of 99 or more leaves every cell dead, since every draw is below 100. */
  lemma SeedHighThreshold(rows: nat, cols: nat, draws: seq<int>, threshold: int)
    requires |draws| == rows * cols && 99 <= threshold
    requires forall k :: 0 <= k < |draws| ==> 0 <= draws[k] < 100
    ensures Seed(rows, cols, draws, threshold) == Empty(rows, cols)
  {
    GridExt(Seed(rows, cols, draws, threshold), Empty(rows, cols));
  }

  /**
   * A threshold of 0 leaves dead exactly the cells whose draw is 0; a
   * negative threshold makes every cell alive.
   */
  lemma SeedLowThreshold(rows: nat, cols: nat, draws: seq<int>, threshold: int, i: int, j: int)
    requires |draws| == rows * cols && threshold <= 0 && 0 <= i < rows && 0 <= j < cols
    requires forall k :: 0 <= k < |draws| ==> 0 <= draws[k] < 100
    ensures threshold < 0 ==> Seed(rows, cols, draws, threshold).At(i, j) == ALIVE
    ensures threshold == 0 ==>
              (Seed(rows, cols, draws, threshold).At(i, j) == DEAD <==> draws[Index(rows, cols, i, j)] == 0)
  {
  }

  /** Raising the threshold never brings a cell to life. */
  lemma SeedMonotone(rows: nat, cols: nat, draws: seq<int>, low: int, high: int, i: int, j: int)
    requires |draws| == rows * cols && low <= high && 0 <= i < rows && 0 <= j < cols
    ensures Seed(rows, cols, draws, high).At(i, j) == ALIVE ==> Seed(rows, cols, draws, low).At(i, j) == ALIVE
  {
  }
}
