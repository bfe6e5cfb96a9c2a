/**
 * The cell grid. The program keeps `squares` as a list of `num_x` columns of
 * `num_y` cells each, indexed `squares[x][y]`; here that is an `array2<bool>`
 * whose first dimension is x and second is y. `Cells` is its value as a
 * sequence of columns, which the specification functions work on.
 */
module Grids {
  /** A grid value: a sequence of columns, `g[x][y]`. */
  type Grid = seq<seq<bool>>

  /** `g` has `nx` columns of `ny` cells each. */
  ghost predicate IsGrid(g: Grid, nx: int, ny: int) {
    |g| == nx && forall x :: 0 <= x < |g| ==> |g[x]| == ny
  }

  /** The value currently stored in the array, column by column. */
  ghost function Cells(a: array2<bool>): (g: Grid)
    reads a
    ensures IsGrid(g, a.Length0, a.Length1)
    ensures forall x, y :: 0 <= x < a.Length0 && 0 <= y < a.Length1 ==> g[x][y] == a[x, y]
  {
    seq(a.Length0, x requires 0 <= x < a.Length0 reads a =>
      seq(a.Length1, y requires 0 <= y < a.Length1 reads a => a[x, y]))
  }

  /** Every cell is dead. */
  ghost predicate AllDead(g: Grid) {
    forall x, y :: 0 <= x < |g| && 0 <= y < |g[x]| ==> !g[x][y]
  }

  /** Two grids of the same shape that agree on every cell are equal. */
  lemma SameCells(g: Grid, h: Grid, nx: nat, ny: nat)
    requires IsGrid(g, nx, ny) && IsGrid(h, nx, ny)
    requires forall x, y :: 0 <= x < nx && 0 <= y < ny ==> g[x][y] == h[x][y]
    ensures g == h
  {
    forall x | 0 <= x < nx ensures g[x] == h[x] {
      assert forall y :: 0 <= y < ny ==> g[x][y] == h[x][y];
    }
  }

  /** `copy.deepcopy` of a grid: fresh storage holding the same cells. */
  method DeepCopy(a: array2<bool>) returns (r: array2<bool>)
    ensures fresh(r) && r.Length0 == a.Length0 && r.Length1 == a.Length1
    ensures Cells(r) == Cells(a)
  {
    r := new bool[a.Length0, a.Length1]((x, y) reads a =>
      if 0 <= x < a.Length0 && 0 <= y < a.Length1 then a[x, y] else false);
    SameCells(Cells(r), Cells(a), a.Length0, a.Length1);
  }

  /** `reset_squares`: every cell is set dead in place. */
  method ResetSquares(a: array2<bool>)
    modifies a
    ensures AllDead(Cells(a))
  {
    for i := 0 to a.Length0
      invariant forall x, y :: 0 <= x < i && 0 <= y < a.Length1 ==> !a[x, y]
    {
      for j := 0 to a.Length1
        invariant forall x, y :: 0 <= x < i && 0 <= y < a.Length1 ==> !a[x, y]
        invariant forall y :: 0 <= y < j ==> !a[i, y]
      {
        a[i, j] := false;
      }
    }
  }

  /**
   * `generate_random`: each cell becomes alive exactly when its draw of
   * `random.randint(0, spawnRate)` is 0. The draws are supplied from outside,
   * `draws[x][y]` being the one taken for cell (x, y).
   */
  method GenerateRandom(a: array2<bool>, spawnRate: nat, draws: seq<seq<int>>)
    requires |draws| == a.Length0 && forall x :: 0 <= x < |draws| ==> |draws[x]| == a.Length1
    requires forall x, y :: 0 <= x < a.Length0 && 0 <= y < a.Length1 ==> 0 <= draws[x][y] <= spawnRate
    modifies a
    ensures forall x, y :: 0 <= x < a.Length0 && 0 <= y < a.Length1 ==> (a[x, y] <==> draws[x][y] == 0)
    ensures spawnRate == 0 ==> forall x, y :: 0 <= x < a.Length0 && 0 <= y < a.Length1 ==> a[x, y]
  {
    for i := 0 to a.Length0
      invariant forall x, y :: 0 <= x < i && 0 <= y < a.Length1 ==> (a[x, y] <==> draws[x][y] == 0)
    {
      for j := 0 to a.Length1
        invariant forall x, y :: 0 <= x < i && 0 <= y < a.Length1 ==> (a[x, y] <==> draws[x][y] == 0)
        invariant forall y :: 0 <= y < j ==> (a[i, y] <==> draws[i][y] == 0)
      {
        a[i, j] := !(draws[i][j] != 0);
      }
    }
  }
}
