/** Small configurations whose evolution under the rule is known. */
module Patterns {
  import opened Grids
  import opened Rules

  /**
   * Where the live cells of each pattern are, as a condition on any position:
   * a horizontal or vertical line of three centred at (cx, cy), and a 2 by 2
   * block whose lowest corner is (x0, y0).
   */
  predicate HorizontalAt(cx: int, cy: int, p: int, q: int) { q == cy && cx - 1 <= p <= cx + 1 }
  predicate VerticalAt(cx: int, cy: int, p: int, q: int) { p == cx && cy - 1 <= q <= cy + 1 }
  predicate BlockAt(x0: int, y0: int, p: int, q: int) { x0 <= p <= x0 + 1 && y0 <= q <= y0 + 1 }

  /** The next state of one cell, with its eight neighbour tests written out. */
  lemma NextAt(g: Grid, x: int, y: int)
    requires 0 <= x < |g| && 0 <= y < |g[x]|
    ensures Step(g)[x][y] == NextCell(g[x][y],
      Bit(IsLive(g, x - 1, y - 1)) + Bit(IsLive(g, x, y - 1)) + Bit(IsLive(g, x + 1, y - 1))
      + Bit(IsLive(g, x + 1, y)) + Bit(IsLive(g, x + 1, y + 1)) + Bit(IsLive(g, x, y + 1))
      + Bit(IsLive(g, x - 1, y + 1)) + Bit(IsLive(g, x - 1, y)))
  {
    NeighbourCountUnfolded(g, x, y);
  }

  /**
   * A grid whose cells are alive exactly where `live` holds, with every such
   * position inside the grid, is live at exactly those positions of the plane.
   */
  lemma LiveWhere(g: Grid, nx: nat, ny: nat, live: (int, int) -> bool, p: int, q: int)
    requires IsGrid(g, nx, ny)
    requires forall x, y :: 0 <= x < nx && 0 <= y < ny ==> g[x][y] == live(x, y)
    requires live(p, q) ==> 0 <= p < nx && 0 <= q < ny
    ensures IsLive(g, p, q) == live(p, q)
  {
  }

  /** The rule applied to the neighbour counts of each pattern, at any position of the plane. */
  lemma HorizontalRule(cx: int, cy: int, x: int, y: int)
    ensures NextCell(HorizontalAt(cx, cy, x, y),
      Bit(HorizontalAt(cx, cy, x - 1, y - 1)) + Bit(HorizontalAt(cx, cy, x, y - 1)) + Bit(HorizontalAt(cx, cy, x + 1, y - 1))
      + Bit(HorizontalAt(cx, cy, x + 1, y)) + Bit(HorizontalAt(cx, cy, x + 1, y + 1)) + Bit(HorizontalAt(cx, cy, x, y + 1))
      + Bit(HorizontalAt(cx, cy, x - 1, y + 1)) + Bit(HorizontalAt(cx, cy, x - 1, y))) == VerticalAt(cx, cy, x, y)
  {
  }

  lemma VerticalRule(cx: int, cy: int, x: int, y: int)
    ensures NextCell(VerticalAt(cx, cy, x, y),
      Bit(VerticalAt(cx, cy, x - 1, y - 1)) + Bit(VerticalAt(cx, cy, x, y - 1)) + Bit(VerticalAt(cx, cy, x + 1, y - 1))
      + Bit(VerticalAt(cx, cy, x + 1, y)) + Bit(VerticalAt(cx, cy, x + 1, y + 1)) + Bit(VerticalAt(cx, cy, x, y + 1))
      + Bit(VerticalAt(cx, cy, x - 1, y + 1)) + Bit(VerticalAt(cx, cy, x - 1, y))) == HorizontalAt(cx, cy, x, y)
  {
  }

  lemma BlockRule(x0: int, y0: int, x: int, y: int)
    ensures NextCell(BlockAt(x0, y0, x, y),
      Bit(BlockAt(x0, y0, x - 1, y - 1)) + Bit(BlockAt(x0, y0, x, y - 1)) + Bit(BlockAt(x0, y0, x + 1, y - 1))
      + Bit(BlockAt(x0, y0, x + 1, y)) + Bit(BlockAt(x0, y0, x + 1, y + 1)) + Bit(BlockAt(x0, y0, x, y + 1))
      + Bit(BlockAt(x0, y0, x - 1, y + 1)) + Bit(BlockAt(x0, y0, x - 1, y))) == BlockAt(x0, y0, x, y)
  {
  }

  /** A cell of a grid whose live positions are those where `live` holds becomes `next` at that cell. */
  lemma PatternCell(g: Grid, live: (int, int) -> bool, next: bool, x: int, y: int)
    requires 0 <= x < |g| && 0 <= y < |g[x]|
    requires forall p, q :: IsLive(g, p, q) == live(p, q)
    requires NextCell(live(x, y), Bit(live(x - 1, y - 1)) + Bit(live(x, y - 1)) + Bit(live(x + 1, y - 1))
      + Bit(live(x + 1, y)) + Bit(live(x + 1, y + 1)) + Bit(live(x, y + 1))
      + Bit(live(x - 1, y + 1)) + Bit(live(x - 1, y))) == next
    ensures Step(g)[x][y] == next
  {
    NextAt(g, x, y);
    assert g[x][y] == IsLive(g, x, y);
  }

  /**
   * In any grid, a horizontal line of three live cells and nothing else,
   * centred away from the border, becomes the vertical line through its centre.
   */
  lemma HorizontalBecomesVertical(g: Grid, nx: nat, ny: nat, cx: int, cy: int)
    requires IsGrid(g, nx, ny) && 1 <= cx < nx - 1 && 1 <= cy < ny - 1
    requires forall x, y :: 0 <= x < nx && 0 <= y < ny ==> g[x][y] == HorizontalAt(cx, cy, x, y)
    ensures IsGrid(Step(g), nx, ny)
    ensures forall x, y :: 0 <= x < nx && 0 <= y < ny ==> Step(g)[x][y] == VerticalAt(cx, cy, x, y)
  {
    var live := (p, q) => HorizontalAt(cx, cy, p, q);
    forall p, q ensures IsLive(g, p, q) == live(p, q) {
      LiveWhere(g, nx, ny, live, p, q);
    }
    forall x, y | 0 <= x < nx && 0 <= y < ny ensures Step(g)[x][y] == VerticalAt(cx, cy, x, y) {
      HorizontalRule(cx, cy, x, y);
      PatternCell(g, live, VerticalAt(cx, cy, x, y), x, y);
    }
  }

  /** The same for the vertical line, which becomes the horizontal one. */
  lemma VerticalBecomesHorizontal(g: Grid, nx: nat, ny: nat, cx: int, cy: int)
    requires IsGrid(g, nx, ny) && 1 <= cx < nx - 1 && 1 <= cy < ny - 1
    requires forall x, y :: 0 <= x < nx && 0 <= y < ny ==> g[x][y] == VerticalAt(cx, cy, x, y)
    ensures IsGrid(Step(g), nx, ny)
    ensures forall x, y :: 0 <= x < nx && 0 <= y < ny ==> Step(g)[x][y] == HorizontalAt(cx, cy, x, y)
  {
    var live := (p, q) => VerticalAt(cx, cy, p, q);
    forall p, q ensures IsLive(g, p, q) == live(p, q) {
      LiveWhere(g, nx, ny, live, p, q);
    }
    forall x, y | 0 <= x < nx && 0 <= y < ny ensures Step(g)[x][y] == HorizontalAt(cx, cy, x, y) {
      VerticalRule(cx, cy, x, y);
      PatternCell(g, live, HorizontalAt(cx, cy, x, y), x, y);
    }
  }

  /**
   * The blinker is an oscillator of period 2 in any grid: a lone horizontal
   * line of three becomes vertical, and two steps give the grid back.
   */
  lemma BlinkerOscillates(g: Grid, nx: nat, ny: nat, cx: int, cy: int)
    requires IsGrid(g, nx, ny) && 1 <= cx < nx - 1 && 1 <= cy < ny - 1
    requires forall x, y :: 0 <= x < nx && 0 <= y < ny ==> g[x][y] == HorizontalAt(cx, cy, x, y)
    ensures forall x, y :: 0 <= x < nx && 0 <= y < ny ==> Step(g)[x][y] == VerticalAt(cx, cy, x, y)
    ensures Step(g) != g
    ensures Step(Step(g)) == g
  {
    HorizontalBecomesVertical(g, nx, ny, cx, cy);
    assert Step(g)[cx][cy - 1] != g[cx][cy - 1];
    VerticalBecomesHorizontal(Step(g), nx, ny, cx, cy);
    SameCells(Step(Step(g)), g, nx, ny);
  }

  /**
   * The block is a still life in any grid: a lone 2 by 2 block is unchanged
   * by a step, since each of its cells has three live neighbours and no dead
   * cell has three.
   */
  lemma BlockIsStill(g: Grid, nx: nat, ny: nat, x0: int, y0: int)
    requires IsGrid(g, nx, ny) && 0 <= x0 < nx - 1 && 0 <= y0 < ny - 1
    requires forall x, y :: 0 <= x < nx && 0 <= y < ny ==> g[x][y] == BlockAt(x0, y0, x, y)
    ensures Step(g) == g
  {
    var live := (p, q) => BlockAt(x0, y0, p, q);
    forall p, q ensures IsLive(g, p, q) == live(p, q) {
      LiveWhere(g, nx, ny, live, p, q);
    }
    forall x, y | 0 <= x < nx && 0 <= y < ny ensures Step(g)[x][y] == g[x][y] {
      BlockRule(x0, y0, x, y);
      PatternCell(g, live, BlockAt(x0, y0, x, y), x, y);
    }
    SameCells(Step(g), g, nx, ny);
  }

  /** A live cell without a live cell in its Moore neighbourhood dies of underpopulation. */
  lemma LonelyCellDies(g: Grid, x: int, y: int)
    requires 0 <= x < |g| && 0 <= y < |g[x]|
    requires LiveNeighbours(g, x, y) == {}
    ensures !Step(g)[x][y]
  {
    NeighbourCountIsLiveNeighbours(g, x, y);
  }
}
