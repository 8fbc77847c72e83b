# Conway's Game of Life: the Universe grid

This project models the `Universe` of go-conway (`conway.go`) in Dafny and proves what its operations compute.

A universe is a grid of `rows` by `cols` cells. Each cell is dead (0) or alive (1). The cells are stored row-major in one slice of length `rows*cols`:

- `get` reads a cell and `set` writes one.
- `sumNeighbours` counts the live cells around a position.
- `Lives` applies the survival rule.
- `NextGeneration` writes the next generation into a freshly allocated universe.
- `Populate` seeds every cell from a random draw.

The model has two layers:

- **Module `Life`** is the value layer. `Grid` holds the dimensions and the row-major cells. Pure functions give the program's neighbour count (`Grid.NeighbourSum`, the two loops exactly as written), the rule (`Rule`, `Grid.Lives`), the next generation (`Grid.Next`), the empty grid of `New` (`Empty`) and the seeded grid (`Seed`).
- **Module `Conway`** holds the class `Universe`. It has the same fields as the Go struct, and the slice is an `array<int>`. Each method keeps the source's loops and is proved against the value layer through `Model()`.

Three more modules hold lemmas:

- **`Neighbourhood`** says what the neighbour count amounts to.
- **`Patterns`** proves the block, blinker and glider behave as expected under the program's step.
- **`Torus`** gives the wrap-around count the program evidently intends, and shows how it differs from the code.

## How the neighbour count really behaves

The loops of `sumNeighbours` run from `(i-1+rows)%rows` while the index is `<= (i+1+rows)%rows`, and columns the same way. The model keeps these bounds (`Life.Span`). Here is the range one loop visits, in a dimension of size `n`:

- For an interior coordinate, it visits the three indices around it.
- For a coordinate on the edge, once `n >= 3`, the range is empty.
- When `n == 2`, it visits only the other index.
- When `n == 1`, it visits index 0.

So for grids of at least 3 by 3:

- An interior cell's count is the sum of its eight neighbours.
- Every cell in the first or last row or column gets a count of 0, so it is always dead in the next generation.
- Nothing wraps around the edges.

The wrapped bounds show that the grid is meant to be toroidal, with eight wrapped neighbours for every cell. The model follows the code, not that intent. The difference is recorded under "## Findings".

Go's `%` truncates toward zero, while Dafny's is Euclidean. They agree here because both operands are non-negative whenever `0 <= i < rows`.

## Model

| member | source | states |
|---|---|---|
| `Life.Index` | conway.go:28-35 | The offset `i*cols+j` of an in-range cell is below `rows*cols`, and dividing it by `cols` gives back `i` and `j`. So cells and offsets are in one-to-one correspondence. |
| `Life.Grid.Update` | conway.go:32-35 | Writing `v` at (i, j) makes that cell `v` and leaves every other cell and the dimensions unchanged. |
| `Life.Span` | conway.go:43-44 | The range a loop of `sumNeighbours` visits starts inside `[0, n)` and ends at most at `n`, so only in-grid cells are read. |
| `Life.Empty` | conway.go:108-112 | The grid `New` allocates has `rows*cols` cells, all dead. |
| `Life.Grid.Next` | conway.go:60-75 | The next generation has the same dimensions and only 0/1 cells. Cell (i, j) is alive exactly when `Lives(i, j)` holds in the old grid. |
| `Life.Seed` | conway.go:95-106 | Seeding writes every cell. A cell is alive exactly when its row-major draw exceeds the threshold, and the dimensions are kept. |
| `Life.SeedHighThreshold` | conway.go:96-106 | With draws in [0, 100), a threshold of 99 or more leaves the whole grid dead. |
| `Life.SeedLowThreshold` | conway.go:96-106 | With draws in [0, 100), threshold 0 leaves dead exactly the cells that drew 0, and a negative threshold makes every cell alive. |
| `Life.SeedMonotone` | conway.go:96-106 | Raising the threshold never turns a dead cell alive. |
| `Conway.Universe.New` | conway.go:108-112 | A fresh universe of the given dimensions whose grid is `Empty(rows, cols)`. |
| `Conway.Universe.Get` | conway.go:27-30 | Returns the cell at (i, j) of the universe's grid. |
| `Conway.Universe.Set` | conway.go:32-35 | The new grid is the old grid with (i, j) overwritten and nothing else changed. |
| `Conway.Universe.SumNeighbours` | conway.go:37-51 | The nested loops, with the program's own bounds, return the neighbour count of the grid. |
| `Conway.Universe.Lives` | conway.go:53-58 | The result is true exactly when the count is 3, or when the cell holds 1 and the count is 2. |
| `Conway.Universe.NextGeneration` | conway.go:60-75 | Returns a fresh universe of the same dimensions whose grid is the next generation of the old one. The receiver's cells are unchanged, so every `Lives` call sees only the old generation. |
| `Conway.Universe.Populate` | conway.go:95-106 | Given one draw per cell in row-major order, every cell is written: 1 when its draw exceeds the threshold, else 0. The dimensions are unchanged. |
| `Neighbourhood.SpanShape` | conway.go:43-44 | The loop range around an interior coordinate is its three neighbours. It is empty on the edge when the dimension is at least 3, is the other index when the dimension is 2, and is index 0 when it is 1. |
| `Neighbourhood.SpanWidth` | conway.go:43-44 | A loop visits at most three indices, and when it visits three, the coordinate itself is one of them. |
| `Neighbourhood.NeighbourSumBound` | conway.go:41-49 | On a grid of 0/1 cells, the count lies in [0, 8] for every grid size. |
| `Neighbourhood.NeighbourSumIgnoresSelf` | conway.go:45-47 | Changing cell (i, j) never changes the count for (i, j), so the cell itself is never counted. |
| `Neighbourhood.InteriorSum` | conway.go:37-50 | For 1 <= i <= rows-2 and 1 <= j <= cols-2, the count is the sum of the eight cells (i+a, j+b), for a and b in {-1, 0, 1} and not both 0. |
| `Neighbourhood.EdgeSumZero` | conway.go:43-44 | With at least 3 rows and 3 columns, a cell in the first or last row or column gets a count of 0, whatever the grid holds. |
| `Neighbourhood.EdgeCellsDie` | conway.go:62-75 | With at least 3 rows and 3 columns, every edge cell is dead in the next generation. |
| `Neighbourhood.RuleTable` | conway.go:55-58 | A live cell survives with 2 or 3 neighbours, a dead cell is born with exactly 3, and every other (state, count) pair gives a dead cell. |
| `Patterns.StepBetween` | conway.go:62-75 | Take two live-cell sets that stay off the edge. If the rule, applied to eight-neighbour counts, turns the first into the second, then one step of the program does too. |
| `Patterns.BlockIsStill` | conway.go:62-75 | A 2x2 block off the edge is unchanged by a step. |
| `Patterns.BlinkerOscillates` | conway.go:62-75 | A horizontal blinker off the edge changes after one step and returns to itself after two. |
| `Patterns.GliderGlides` | conway.go:62-75 | A glider whose 4x4 box stays off the edge becomes, after four steps, the same shape moved by (1, 1). |
| `Torus.WrappedNeighbours` | conway.go:43-44 | The intended neighbours are eight in-grid cells. On a grid of at least 3 by 3, they are pairwise distinct and none is the cell itself. |
| `Torus.WrappedSumBound` | conway.go:41-49 | The intended count lies in [0, 8] on a grid of 0/1 cells. |
| `Torus.WrappedSumInside` | conway.go:37-50 | For interior cells, the program's count equals the intended wrap-around count. |
| `Torus.CornerMissesWrappedNeighbour` | conway.go:43-44 | On a grid of at least 3 by 3 whose only live cell is (0, 0), the program counts 0 at the opposite corner, while the wrap-around count is 1. |

## Findings

| source | as written | input that shows it | evidently intended | confidence | as-written member | corrected member |
|---|---|---|---|---|---|---|
| conway.go:43-44 | The loop bounds are wrapped indices compared with `<=`. For a cell in the first or last row or column of a grid of at least 3 by 3, the range is empty, so its count is 0. | A grid of at least 3 by 3 whose only live cell is (0, 0). The count at (rows-1, cols-1) is 0. | Count the eight wrapped neighbours, which gives 1 here. Every cell has eight distinct neighbours. | high; not executed | `Torus.CornerMissesWrappedNeighbour` | `Torus.WrappedNeighbours` |

The corrected count is `Torus.WrappedSum`, the sum over `Torus.WrappedNeighbours`. It is proved to be bounded by 8 and to agree with the program's count on every interior cell. The `Universe` class keeps the count as written, because it models `conway.go`.

A smaller point: `Populate(0)` does not make every cell alive. The code compares `value > threshold`, so with threshold 0 a draw of 0 leaves the cell dead (`Life.SeedLowThreshold`).

## Left out

- `Show` (conway.go:77-93): it only writes ANSI escape sequences and cells to the terminal.
- `main` and the channel `ch` (conway.go:114-136) are not modelled: the goroutine per generation, `time.Sleep` pacing, the generation loop and `rand.Seed(time.Now().Unix())`.
- `rand.Intn(100)` (conway.go:99) is a foreign random source. `Populate` takes the draws as a parameter instead, one per cell in row-major order. The lemmas that need the draws to lie in [0, 100) take that as a hypothesis.
- The package `conway/universe` imported at conway.go:4 and used at conway.go:120 is not part of this model. The local `New` (conway.go:108-112) is modelled instead.
- The configuration constants (conway.go:10-20) are left out, except `dead = 0` and `alive = 1`.
- Go's `int` is 32 or 64 bits wide, depending on the platform. The model's integers are unbounded, so an overflow of `rows*cols` or `i*cols+j` is not modelled.
- Dimensions are `nat`. Go's `make` panics when `rows*cols` is negative, and a universe with two negative dimensions has no meaning in the program. Neither case is modelled.
- Runtime panics on an out-of-range slice index are not modelled as results. The `requires` clauses exclude them.
- The fields `rows`, `cols` and `content` are `const`. Nothing in the program reassigns them after `New`; only the slice's elements change.
- Conway.Universe.Get: requires 0 <= i < rows and 0 <= j < cols. Go only needs `i*cols+j` to fall inside the slice, but every caller in conway.go passes in-range coordinates.
- Conway.Universe.Set: requires 0 <= i < rows and 0 <= j < cols, for the same reason as `Get`.
- Conway.Universe.SumNeighbours: requires (i, j) in range. Go computes a count for other `i` and `j` too, but `Lives` and `NextGeneration` only pass in-range cells.
