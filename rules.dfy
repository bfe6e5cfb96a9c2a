/**
 * The generation rule: `neighbours` counts the live cells around a cell, and
 * `pro` builds the next generation by the B3/S23 rule (a dead cell with three
 * live neighbours is born, a live cell with two or three survives).
 */
module Rules {
  import opened Grids

  /**
   * The eight Moore offsets (dx, dy), in the order `neighbours` tests them:
   * up-left, up, up-right, right, down-right, down, down-left, left.
   */
  const Offsets: seq<(int, int)> := [(-1, -1), (0, -1), (1, -1), (1, 0), (1, 1), (0, 1), (-1, 1), (-1, 0)]

  /** Cell (p, q) lies on the grid and is alive; a position off the grid reads as dead. */
  predicate IsLive(g: Grid, p: int, q: int) {
    0 <= p < |g| && 0 <= q < |g[p]| && g[p][q]
  }

  function Bit(b: bool): nat { if b then 1 else 0 }

  /** How many of the positions (x + dx, y + dy), for (dx, dy) in `offs`, hold a live cell. */
  function LiveAmong(g: Grid, x: int, y: int, offs: seq<(int, int)>): nat {
    if offs == [] then 0
    else Bit(IsLive(g, x + offs[0].0, y + offs[0].1)) + LiveAmong(g, x, y, offs[1..])
  }

  /** The neighbour count of cell (x, y): the live cells among its eight offsets. */
  function NeighbourCount(g: Grid, x: int, y: int): nat {
    LiveAmong(g, x, y, Offsets)
  }

  /** The live cells of the grid in the Moore neighbourhood of (x, y), as positions. */
  ghost function LiveNeighbours(g: Grid, x: int, y: int): set<(int, int)> {
    set p, q | x - 1 <= p <= x + 1 && y - 1 <= q <= y + 1 && (p != x || q != y) && IsLive(g, p, q) :: (p, q)
  }

  /** The positions reached from (x, y) through those offsets in `offs` that land on a live cell. */
  ghost function Reached(g: Grid, x: int, y: int, offs: seq<(int, int)>): set<(int, int)> {
    set d | d in offs && IsLive(g, x + d.0, y + d.1) :: (x + d.0, y + d.1)
  }

  ghost predicate Distinct(offs: seq<(int, int)>) {
    forall k, l :: 0 <= k < l < |offs| ==> offs[k] != offs[l]
  }

  lemma {:induction false} LiveAmongAtMost(g: Grid, x: int, y: int, offs: seq<(int, int)>)
    ensures LiveAmong(g, x, y, offs) <= |offs|
  {
    if offs != [] {
      LiveAmongAtMost(g, x, y, offs[1..]);
    }
  }

  /** Counting along a list of distinct offsets counts the distinct live positions they reach. */
  lemma {:induction false} LiveAmongIsReached(g: Grid, x: int, y: int, offs: seq<(int, int)>)
    requires Distinct(offs)
    ensures LiveAmong(g, x, y, offs) == |Reached(g, x, y, offs)|
  {
    if offs == [] {
      assert Reached(g, x, y, offs) == {};
    } else {
      DistinctTail(offs);
      LiveAmongIsReached(g, x, y, offs[1..]);
      ReachedSplit(g, x, y, offs);
    }
  }

  lemma DistinctTail(offs: seq<(int, int)>)
    requires Distinct(offs) && offs != []
    ensures Distinct(offs[1..]) && offs[0] !in offs[1..]
  {
    var rest := offs[1..];
    forall k, l | 0 <= k < l < |rest| ensures rest[k] != rest[l] {
      assert rest[k] == offs[k + 1] && rest[l] == offs[l + 1];
    }
    forall k | 0 <= k < |rest| ensures rest[k] != offs[0] {
      assert rest[k] == offs[k + 1];
    }
  }

  /** The first offset adds its position, which no later offset reaches, exactly when it is live. */
  lemma ReachedSplit(g: Grid, x: int, y: int, offs: seq<(int, int)>)
    requires offs != [] && offs[0] !in offs[1..]
    ensures |Reached(g, x, y, offs)| ==
      Bit(IsLive(g, x + offs[0].0, y + offs[0].1)) + |Reached(g, x, y, offs[1..])|
  {
    var d := offs[0];
    ReachedCovered(g, x, y, offs);
    if IsLive(g, x + d.0, y + d.1) {
      FirstNotReachedLater(g, x, y, offs);
      AddFresh(Reached(g, x, y, offs[1..]), (x + d.0, y + d.1));
    }
  }

  /** No later offset reaches the position of the first one, when the first is not repeated. */
  lemma FirstNotReachedLater(g: Grid, x: int, y: int, offs: seq<(int, int)>)
    requires offs != [] && offs[0] !in offs[1..]
    ensures (x + offs[0].0, y + offs[0].1) !in Reached(g, x, y, offs[1..])
  {
    var d, rest := offs[0], offs[1..];
    if (x + d.0, y + d.1) in Reached(g, x, y, rest) {
      var e :| e in rest && IsLive(g, x + e.0, y + e.1) && (x + d.0, y + d.1) == (x + e.0, y + e.1);
      assert false;
    }
  }

  lemma AddFresh(s: set<(int, int)>, e: (int, int))
    requires e !in s
    ensures |s + {e}| == |s| + 1
  {
  }

  /** Every position reached from `offs` is reached by its first offset or by the rest. */
  lemma ReachedCovered(g: Grid, x: int, y: int, offs: seq<(int, int)>)
    requires offs != []
    ensures Reached(g, x, y, offs) ==
      Reached(g, x, y, offs[1..]) + (if IsLive(g, x + offs[0].0, y + offs[0].1) then {(x + offs[0].0, y + offs[0].1)} else {})
  {
    var d, rest := offs[0], offs[1..];
    var first: set<(int, int)> := if IsLive(g, x + d.0, y + d.1) then {(x + d.0, y + d.1)} else {};
    forall p | p in Reached(g, x, y, offs) ensures p in Reached(g, x, y, rest) + first {
      var e :| e in offs && IsLive(g, x + e.0, y + e.1) && p == (x + e.0, y + e.1);
      InOffsets(offs, e);
    }
    forall p | p in Reached(g, x, y, rest) ensures p in Reached(g, x, y, offs) {
      var e :| e in rest && IsLive(g, x + e.0, y + e.1) && p == (x + e.0, y + e.1);
      assert e in offs;
    }
    assert offs[0] in offs;
  }

  lemma InOffsets(offs: seq<(int, int)>, e: (int, int))
    requires e in offs
    ensures e == offs[0] || e in offs[1..]
  {
    var k :| 0 <= k < |offs| && offs[k] == e;
    if k > 0 {
      assert offs[1..][k - 1] == e;
    }
  }

  /**
   * `neighbours` counts exactly the live cells of the grid among the eight
   * Moore positions; positions off the grid count as dead, so there is no
   * wrap-around, and the count is at most 8.
   */
  lemma NeighbourCountIsLiveNeighbours(g: Grid, x: int, y: int)
    ensures NeighbourCount(g, x, y) == |LiveNeighbours(g, x, y)|
    ensures NeighbourCount(g, x, y) <= 8
  {
    assert Distinct(Offsets);
    LiveAmongIsReached(g, x, y, Offsets);
    LiveAmongAtMost(g, x, y, Offsets);
    LiveNeighboursAreReached(g, x, y);
  }

  lemma LiveNeighboursAreReached(g: Grid, x: int, y: int)
    ensures LiveNeighbours(g, x, y) == Reached(g, x, y, Offsets)
  {
    forall pq | pq in LiveNeighbours(g, x, y) ensures pq in Reached(g, x, y, Offsets) {
      var d := (pq.0 - x, pq.1 - y);
      assert d in Offsets;
    }
  }

  /** Nothing is counted around any cell of an all-dead grid. */
  lemma {:induction false} LiveAmongDead(g: Grid, x: int, y: int, offs: seq<(int, int)>)
    requires AllDead(g)
    ensures LiveAmong(g, x, y, offs) == 0
  {
    if offs != [] {
      LiveAmongDead(g, x, y, offs[1..]);
    }
  }

  /**
   * The rule as `pro` applies it to one cell: a live cell whose count is
   * neither 2 nor 3 dies, a dead cell whose count is 3 is born, every other
   * cell keeps its state.
   */
  function NextCell(alive: bool, n: nat): (r: bool)
    ensures r <==> (alive && (n == 2 || n == 3)) || (!alive && n == 3)
  {
    if alive && n != 2 && n != 3 then false
    else if n == 3 && !alive then true
    else alive
  }

  /** The next generation, every cell computed from the counts of the given one. */
  function Step(g: Grid): (r: Grid)
    ensures |r| == |g| && forall x :: 0 <= x < |g| ==> |r[x]| == |g[x]|
    ensures forall x, y :: 0 <= x < |g| && 0 <= y < |g[x]| ==>
      (r[x][y] <==>
         (g[x][y] && (NeighbourCount(g, x, y) == 2 || NeighbourCount(g, x, y) == 3)) ||
         (!g[x][y] && NeighbourCount(g, x, y) == 3))
  {
    seq(|g|, x requires 0 <= x < |g| =>
      seq(|g[x]|, y requires 0 <= y < |g[x]| => NextCell(g[x][y], NeighbourCount(g, x, y))))
  }

  /** An all-dead grid steps to an all-dead grid of the same shape. */
  lemma StepAllDead(g: Grid)
    requires AllDead(g)
    ensures AllDead(Step(g))
  {
    forall x, y | 0 <= x < |g| && 0 <= y < |g[x]| ensures !Step(g)[x][y] {
      LiveAmongDead(g, x, y, Offsets);
    }
  }

  /** `neighbours`: the eight bounds-checked tests, one per offset. */
  method Neighbours(a: array2<bool>, i: int, j: int) returns (n: nat)
    requires 0 <= i < a.Length0 && 0 <= j < a.Length1
    ensures n == NeighbourCount(Cells(a), i, j)
  {
    ghost var g := Cells(a);
    n := 0;
    if i - 1 >= 0 && j - 1 >= 0 && a[i - 1, j - 1] { n := n + 1; }
    ghost var s := Bit(IsLive(g, i - 1, j - 1));
    assert n == s;
    if j - 1 >= 0 && a[i, j - 1] { n := n + 1; }
    s := s + Bit(IsLive(g, i, j - 1));
    assert n == s;
    if i + 1 < a.Length0 && j - 1 >= 0 && a[i + 1, j - 1] { n := n + 1; }
    s := s + Bit(IsLive(g, i + 1, j - 1));
    assert n == s;
    if i + 1 < a.Length0 && a[i + 1, j] { n := n + 1; }
    s := s + Bit(IsLive(g, i + 1, j));
    assert n == s;
    if i + 1 < a.Length0 && j + 1 < a.Length1 && a[i + 1, j + 1] { n := n + 1; }
    s := s + Bit(IsLive(g, i + 1, j + 1));
    assert n == s;
    if j + 1 < a.Length1 && a[i, j + 1] { n := n + 1; }
    s := s + Bit(IsLive(g, i, j + 1));
    assert n == s;
    if i - 1 >= 0 && j + 1 < a.Length1 && a[i - 1, j + 1] { n := n + 1; }
    s := s + Bit(IsLive(g, i - 1, j + 1));
    assert n == s;
    if i - 1 >= 0 && a[i - 1, j] { n := n + 1; }
    s := s + Bit(IsLive(g, i - 1, j));
    assert n == s;
    NeighbourCountUnfolded(g, i, j);
  }

  lemma NeighbourCountUnfolded(g: Grid, x: int, y: int)
    ensures NeighbourCount(g, x, y) ==
      Bit(IsLive(g, x - 1, y - 1)) + Bit(IsLive(g, x, y - 1)) + Bit(IsLive(g, x + 1, y - 1))
      + Bit(IsLive(g, x + 1, y)) + Bit(IsLive(g, x + 1, y + 1)) + Bit(IsLive(g, x, y + 1))
      + Bit(IsLive(g, x - 1, y + 1)) + Bit(IsLive(g, x - 1, y))
  {
    var o := Offsets;
    assert LiveAmong(g, x, y, o[8..]) == 0;
    assert LiveAmong(g, x, y, o[7..]) == Bit(IsLive(g, x - 1, y)) by { assert o[7..][1..] == o[8..]; }
    assert LiveAmong(g, x, y, o[6..]) == Bit(IsLive(g, x - 1, y + 1)) + LiveAmong(g, x, y, o[7..]) by { assert o[6..][1..] == o[7..]; }
    assert LiveAmong(g, x, y, o[5..]) == Bit(IsLive(g, x, y + 1)) + LiveAmong(g, x, y, o[6..]) by { assert o[5..][1..] == o[6..]; }
    assert LiveAmong(g, x, y, o[4..]) == Bit(IsLive(g, x + 1, y + 1)) + LiveAmong(g, x, y, o[5..]) by { assert o[4..][1..] == o[5..]; }
    assert LiveAmong(g, x, y, o[3..]) == Bit(IsLive(g, x + 1, y)) + LiveAmong(g, x, y, o[4..]) by { assert o[3..][1..] == o[4..]; }
    assert LiveAmong(g, x, y, o[2..]) == Bit(IsLive(g, x + 1, y - 1)) + LiveAmong(g, x, y, o[3..]) by { assert o[2..][1..] == o[3..]; }
    assert LiveAmong(g, x, y, o[1..]) == Bit(IsLive(g, x, y - 1)) + LiveAmong(g, x, y, o[2..]) by { assert o[1..][1..] == o[2..]; }
    assert LiveAmong(g, x, y, o) == Bit(IsLive(g, x - 1, y - 1)) + LiveAmong(g, x, y, o[1..]);
  }

  /**
   * `pro`: deep-copy the grid, then overwrite cells of the copy from counts
   * taken on the untouched original. The result is the next generation of
   * the input, whatever order the cells are visited in, and the input is
   * left as it was.
   */
  method Pro(a: array2<bool>) returns (r: array2<bool>)
    ensures fresh(r) && r.Length0 == a.Length0 && r.Length1 == a.Length1
    ensures Cells(r) == Step(Cells(a))
  {
    ghost var g := Cells(a);
    r := DeepCopy(a);
    for i := 0 to a.Length0
      invariant forall x, y :: 0 <= x < a.Length0 && 0 <= y < a.Length1 ==>
        r[x, y] == if x < i then NextCell(a[x, y], NeighbourCount(g, x, y)) else a[x, y]
    {
      for j := 0 to a.Length1
        invariant forall x, y :: 0 <= x < a.Length0 && 0 <= y < a.Length1 ==>
          r[x, y] == if x < i || (x == i && y < j) then NextCell(a[x, y], NeighbourCount(g, x, y)) else a[x, y]
      {
        var n := Neighbours(a, i, j);
        if a[i, j] == true && n != 2 && n != 3 {
          r[i, j] := false;
        }
        if n == 3 && !a[i, j] {
          r[i, j] := true;
        }
      }
    }
    SameCells(Cells(r), Step(g), a.Length0, a.Length1);
  }
}
