/**
 * Classic patterns under the step the program computes. Placed away from
 * the edge, where the count of `sumNeighbours` is the eight-cell sum, the
 * block is a still life, the blinker has period 2 and the glider moves one
 * cell diagonally every four generations.
 */
module Patterns {
  import opened Life
  import opened Neighbourhood

  /** Number of the eight cells around (i, j) that are live in `live`. */
  function Count8(live: set<Cell>, i: int, j: int): int {
    In(live, i - 1, j - 1) + In(live, i - 1, j) + In(live, i - 1, j + 1)
    + In(live, i, j - 1)                        + In(live, i, j + 1)
    + In(live, i + 1, j - 1) + In(live, i + 1, j) + In(live, i + 1, j + 1)
  }

  /** The rule, applied to the eight neighbours of (i, j) in `p`, makes (i, j) live exactly when it is in `q`. */
  predicate StepsTo(p: set<Cell>, q: set<Cell>, i: int, j: int) {
    Rule(In(p, i, j), Count8(p, i, j)) <==> (i, j) in q
  }

  /** Every cell of `live` is an interior cell of a grid of rows by cols. */
  predicate Inside(rows: nat, cols: nat, live: set<Cell>) {
    forall c :: c in live ==> 1 <= c.0 <= rows - 2 && 1 <= c.1 <= cols - 2
  }

  /**
   * If `p` and `q` keep off the edge and the rule, applied to the eight
   * neighbours of every interior cell, turns `p` into `q`, then one step
   * of the program turns the grid of `p` into the grid of `q`.
   */
  lemma StepBetween(rows: nat, cols: nat, p: set<Cell>, q: set<Cell>)
    requires 3 <= rows && 3 <= cols && Inside(rows, cols, p) && Inside(rows, cols, q)
    requires forall i, j :: 1 <= i <= rows - 2 && 1 <= j <= cols - 2 ==> StepsTo(p, q, i, j)
    ensures FromCells(rows, cols, p).Next() == FromCells(rows, cols, q)
  {
    var g, h := FromCells(rows, cols, p), FromCells(rows, cols, q);
    forall i, j | g.InRange(i, j)
      ensures g.Next().At(i, j) == h.At(i, j)
    {
      if OnEdge(g, i, j) {
        EdgeCellsDie(g, i, j);
      } else {
        InteriorSum(g, i, j);
        assert g.NeighbourSum(i, j) == Count8(p, i, j);
        assert StepsTo(p, q, i, j);
      }
    }
    GridExt(g.Next(), h);
  }

  // ---------------------------------------------------------------------
  // Block: a still life
  // ---------------------------------------------------------------------

  function Block(r: int, c: int): set<Cell> {
    {(r, c), (r, c + 1), (r + 1, c), (r + 1, c + 1)}
  }

  /** A 2x2 block off the edge is unchanged by a step. */
  lemma BlockIsStill(rows: nat, cols: nat, r: int, c: int)
    requires 1 <= r && r + 1 <= rows - 2 && 1 <= c && c + 1 <= cols - 2
    ensures FromCells(rows, cols, Block(r, c)).Next() == FromCells(rows, cols, Block(r, c))
  {
    var p := Block(r, c);
    forall i, j | 1 <= i <= rows - 2 && 1 <= j <= cols - 2
      ensures StepsTo(p, p, i, j)
    {
    }
    StepBetween(rows, cols, p, p);
  }

  // ---------------------------------------------------------------------
  // Blinker: period 2
  // ---------------------------------------------------------------------

  /** Three live cells in a row, centred on (r, c). */
  function Horizontal(r: int, c: int): set<Cell> {
    {(r, c - 1), (r, c), (r, c + 1)}
  }

  /** Three live cells in a column, centred on (r, c). */
  function Vertical(r: int, c: int): set<Cell> {
    {(r - 1, c), (r, c), (r + 1, c)}
  }

  /** Off the edge, the horizontal blinker turns vertical. */
  lemma HorizontalTurns(rows: nat, cols: nat, r: int, c: int)
    requires 2 <= r <= rows - 3 && 2 <= c <= cols - 3
    ensures FromCells(rows, cols, Horizontal(r, c)).Next() == FromCells(rows, cols, Vertical(r, c))
  {
    var p, q := Horizontal(r, c), Vertical(r, c);
    forall i, j | 1 <= i <= rows - 2 && 1 <= j <= cols - 2
      ensures StepsTo(p, q, i, j)
    {
    }
    StepBetween(rows, cols, p, q);
  }

  /** Off the edge, the vertical blinker turns horizontal. */
  lemma VerticalTurns(rows: nat, cols: nat, r: int, c: int)
    requires 2 <= r <= rows - 3 && 2 <= c <= cols - 3
    ensures FromCells(rows, cols, Vertical(r, c)).Next() == FromCells(rows, cols, Horizontal(r, c))
  {
    var p, q := Vertical(r, c), Horizontal(r, c);
    forall i, j | 1 <= i <= rows - 2 && 1 <= j <= cols - 2
      ensures StepsTo(p, q, i, j)
    {
    }
    StepBetween(rows, cols, p, q);
  }

  /** The blinker returns to itself after two generations. */
  lemma {:induction false} BlinkerOscillates(rows: nat, cols: nat, r: int, c: int)
    requires 2 <= r <= rows - 3 && 2 <= c <= cols - 3
    ensures FromCells(rows, cols, Horizontal(r, c)).Next() != FromCells(rows, cols, Horizontal(r, c))
    ensures FromCells(rows, cols, Horizontal(r, c)).Next().Next() == FromCells(rows, cols, Horizontal(r, c))
  {
    HorizontalTurns(rows, cols, r, c);
    VerticalTurns(rows, cols, r, c);
    var h, v := FromCells(rows, cols, Horizontal(r, c)), FromCells(rows, cols, Vertical(r, c));
    assert h.At(r, c - 1) != v.At(r, c - 1);
  }

  // ---------------------------------------------------------------------
  // Glider: moves by (1, 1) every four generations
  // ---------------------------------------------------------------------

  /** The glider in phase k (0 to 3) within the 4x4 box whose top-left cell is (r, c). */
  function Glider(k: int, r: int, c: int): set<Cell>
    requires 0 <= k < 4
  {
    if k == 0 then {(r, c + 1), (r + 1, c + 2), (r + 2, c), (r + 2, c + 1), (r + 2, c + 2)}
    else if k == 1 then {(r + 1, c), (r + 1, c + 2), (r + 2, c + 1), (r + 2, c + 2), (r + 3, c + 1)}
    else if k == 2 then {(r + 1, c + 2), (r + 2, c), (r + 2, c + 2), (r + 3, c + 1), (r + 3, c + 2)}
    else {(r + 1, c + 1), (r + 2, c + 2), (r + 2, c + 3), (r + 3, c + 1), (r + 3, c + 2)}
  }

  /** The box of a glider keeps off the edge. */
  predicate GliderRoom(rows: nat, cols: nat, r: int, c: int) {
    1 <= r && r + 3 <= rows - 2 && 1 <= c && c + 3 <= cols - 2
  }

  /** The glider phase that follows phase k. */
  function GliderNext(k: int, r: int, c: int): set<Cell>
    requires 0 <= k < 4
  {
    if k < 3 then Glider(k + 1, r, c) else Glider(0, r + 1, c + 1)
  }

  /** The rule takes phase k to the next phase at every cell (i, j). */
  lemma GliderStepsAt(k: int, r: int, c: int, i: int, j: int)
    requires 0 <= k < 4
    ensures StepsTo(Glider(k, r, c), GliderNext(k, r, c), i, j)
  {
    if k == 0 {
      assert StepsTo(Glider(0, r, c), Glider(1, r, c), i, j);
    } else if k == 1 {
      assert StepsTo(Glider(1, r, c), Glider(2, r, c), i, j);
    } else if k == 2 {
      assert StepsTo(Glider(2, r, c), Glider(3, r, c), i, j);
    } else {
      assert StepsTo(Glider(3, r, c), Glider(0, r + 1, c + 1), i, j);
    }
  }

  /** Each step takes the glider to its next phase; the fourth moves it by (1, 1). */
  lemma GliderStep(rows: nat, cols: nat, k: int, r: int, c: int)
    requires 0 <= k < 4 && GliderRoom(rows, cols, r, c)
    ensures FromCells(rows, cols, Glider(k, r, c)).Next() == FromCells(rows, cols, GliderNext(k, r, c))
  {
    var p, q := Glider(k, r, c), GliderNext(k, r, c);
    forall i, j | 1 <= i <= rows - 2 && 1 <= j <= cols - 2
      ensures StepsTo(p, q, i, j)
    {
      GliderStepsAt(k, r, c, i, j);
    }
    StepBetween(rows, cols, p, q);
  }

  /** After four generations the glider is its own shape moved one cell down and right. */
  lemma GliderGlides(rows: nat, cols: nat, r: int, c: int)
    requires GliderRoom(rows, cols, r, c)
    ensures FromCells(rows, cols, Glider(0, r, c)).Next().Next().Next().Next()
            == FromCells(rows, cols, Glider(0, r + 1, c + 1))
  {
    GliderStep(rows, cols, 0, r, c);
    GliderStep(rows, cols, 1, r, c);
    GliderStep(rows, cols, 2, r, c);
    GliderStep(rows, cols, 3, r, c);
  }
}
