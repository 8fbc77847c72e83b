/**
 * The `Universe` of the Game of Life program: a grid of `rows` by `cols`
 * cells stored row-major in one slice, read with `Get`, written with `Set`,
 * stepped by `NextGeneration` into a freshly allocated universe and seeded
 * by `Populate`. Each method is proved against the value-level model of
 * module Life: `Model()` is the grid a universe holds.
 */
module Conway {
  import opened Life

  class Universe {
    // The program never reassigns these after `New`; only the cells change.
    const rows: nat
    const cols: nat
    const content: array<int>

    /** The slice holds exactly rows*cols cells. */
    ghost predicate Valid() {
      content.Length == rows * cols
    }

    /** The grid this universe currently holds. */
    ghost function Model(): (g: Grid)
      reads content
      requires Valid()
      ensures g.Valid() && g.rows == rows && g.cols == cols
    {
      Grid(rows, cols, content[..])
    }

    /** `New(rows, cols)`: a universe of the given size with every cell dead. */
    constructor New(rows: nat, cols: nat)
      ensures Valid() && fresh(content)
      ensures this.rows == rows && this.cols == cols
      ensures Model() == Empty(rows, cols)
    {
      this.rows := rows;
      this.cols := cols;
      content := new int[rows * cols](_ => DEAD);
    }

    /** `get`: the cell at row i, column j. */
    function Get(i: int, j: int): (v: int)
      reads content
      requires Valid() && 0 <= i < rows && 0 <= j < cols
      ensures v == Model().At(i, j)
    {
      content[Index(rows, cols, i, j)]
    }

    /** `set`: overwrite the cell at row i, column j and nothing else. */
    method Set(i: int, j: int, value: int)
      requires Valid() && 0 <= i < rows && 0 <= j < cols
      modifies content
      ensures Model() == old(Model()).Update(i, j, value)
    {
      content[Index(rows, cols, i, j)] := value;
    }

    /**
     * `sumNeighbours`: the two nested loops, with the loop bounds the
     * program computes, accumulating every visited cell except (i, j).
     */
    method SumNeighbours(i: int, j: int) returns (sum: int)
      requires Valid() && 0 <= i < rows && 0 <= j < cols
      ensures sum == Model().NeighbourSum(i, j)
    {
      ghost var g := Model();
      ghost var rs, cs := Span(i, rows), Span(j, cols);
      sum := 0;
      var dx := (i - 1 + rows) % rows;
      while dx <= (i + 1 + rows) % rows
        invariant rs.lo <= dx <= if rs.lo < rs.hi then rs.hi else rs.lo
        invariant sum == g.BlockSum(i, j, rs.lo, dx, cs.lo, cs.hi)
      {
        var dy := (j - 1 + cols) % cols;
        while dy <= (j + 1 + cols) % cols
          invariant cs.lo <= dy <= if cs.lo < cs.hi then cs.hi else cs.lo
          invariant sum == g.BlockSum(i, j, rs.lo, dx, cs.lo, cs.hi) + g.RowSum(i, j, dx, cs.lo, dy)
        {
          if dx != i || dy != j {
            sum := sum + Get(dx, dy);
          }
          dy := dy + 1;
        }
        dx := dx + 1;
      }
    }

    /** `Lives`: the survival rule applied to cell (i, j) and its neighbour sum. */
    method Lives(i: int, j: int) returns (live: bool)
      requires Valid() && 0 <= i < rows && 0 <= j < cols
      ensures live <==> Rule(Get(i, j), Model().NeighbourSum(i, j))
    {
      var neighbours := SumNeighbours(i, j);
      live := neighbours == 3 || (Get(i, j) == ALIVE && neighbours == 2);
    }

    /**
     * `NextGeneration`: a new universe of the same size whose every cell is
     * written, alive exactly when `Lives` holds for it in this universe,
     * which is left untouched.
     */
    method NextGeneration() returns (u: Universe)
      requires Valid()
      ensures fresh(u) && fresh(u.content) && u.Valid()
      ensures u.rows == rows && u.cols == cols
      ensures u.Model() == old(Model()).Next()
      ensures Model() == old(Model())
    {
      ghost var g := Model();
      ghost var next := g.Next();
      u := new Universe.New(rows, cols);
      var i := 0;
      while i < rows
        invariant 0 <= i <= rows
        invariant fresh(u.content) && u.Valid() && u.rows == rows && u.cols == cols
        invariant Model() == g
        invariant i * cols <= rows * cols
        invariant u.content[..i * cols] == next.cells[..i * cols]
      {
        var j := 0;
        while j < cols
          invariant 0 <= j <= cols
          invariant fresh(u.content) && u.Valid() && u.rows == rows && u.cols == cols
          invariant Model() == g
          invariant i * cols + j <= rows * cols
          invariant u.content[..i * cols + j] == next.cells[..i * cols + j]
        {
          ghost var p := Index(rows, cols, i, j);
          ghost var before := u.content[..];
          var live := Lives(i, j);
          if live {
            u.Set(i, j, ALIVE);
          } else {
            u.Set(i, j, DEAD);
          }
          assert u.content[..] == before[p := next.At(i, j)];
          assert u.content[..p + 1] == u.content[..p] + [next.cells[p]];
          j := j + 1;
        }
        assert i * cols + cols == (i + 1) * cols;
        i := i + 1;
      }
      assert u.content[..] == u.content[..rows * cols];
    }

    /**
     * `Populate(threshold)`: the random source is abstracted as `draws`,
     * the values `rand.Intn(100)` returns, one per cell in row-major order.
     * Every cell is written: alive when its draw exceeds the threshold.
     */
    method Populate(threshold: int, draws: seq<int>)
      requires Valid() && |draws| == rows * cols
      modifies content
      ensures Model() == Seed(rows, cols, draws, threshold)
    {
      ghost var seeded := Seed(rows, cols, draws, threshold);
      var i := 0;
      while i < rows
        invariant 0 <= i <= rows
        invariant i * cols <= rows * cols
        invariant content[..i * cols] == seeded.cells[..i * cols]
      {
        var j := 0;
        while j < cols
          invariant 0 <= j <= cols
          invariant i * cols + j <= rows * cols
          invariant content[..i * cols + j] == seeded.cells[..i * cols + j]
        {
          ghost var p := Index(rows, cols, i, j);
          ghost var before := content[..];
          var value := draws[Index(rows, cols, i, j)];
          if value > threshold {
            Set(i, j, ALIVE);
          } else {
            Set(i, j, DEAD);
          }
          assert content[..] == before[p := seeded.At(i, j)];
          assert content[..p + 1] == content[..p] + [seeded.cells[p]];
          j := j + 1;
        }
        assert i * cols + cols == (i + 1) * cols;
        i := i + 1;
      }
      assert content[..] == content[..rows * cols];
    }
  }
}
