/**
 * Pixel and cell arithmetic: `int(a / b)` (true division truncated toward
 * zero), the cell counts a window of pixels yields, the check that the window
 * is a whole number of cells, and Python's list indexing, which accepts
 * negative indices from the end.
 */
module Geometry {
  import opened Wrappers

  function Abs(a: int): nat { if a < 0 then -a else a }

  /** `int(a / b)`: the quotient truncated toward zero. */
  function TruncDiv(a: int, b: int): int
    requires b != 0
  {
    var m := Abs(a) / Abs(b);
    if (a < 0) != (b < 0) then -m else m
  }

  /** Euclidean division is determined by its defining equation and remainder bound. */
  lemma DivModUnique(x: int, m: int, q: int, r: int)
    requires m > 0 && x == q * m + r && 0 <= r < m
    ensures x / m == q && x % m == r
  {
    var q0, r0 := x / m, x % m;
    assert (q - q0) * m == r0 - r;
    MulSign(q - q0, m);
  }

  lemma MulSign(d: int, m: int)
    requires m > 0
    ensures d >= 1 ==> d * m >= m
    ensures d <= -1 ==> d * m <= -m
  {
    if d >= 1 {
      assert d * m == (d - 1) * m + m;
    } else if d <= -1 {
      assert d * m == (d + 1) * m - m;
    }
  }

  /** A whole number of cells gives back its cell count. */
  lemma TruncDivExact(n: nat, s: int)
    requires s != 0
    ensures TruncDiv(n * s, s) == n
  {
    assert Abs(n * s) == n * Abs(s);
    DivModUnique(n * Abs(s), Abs(s), n, 0);
  }

  /** `int(a / b) == n` for a natural n, stated with products instead of a quotient. */
  predicate QuotientIs(a: int, b: int, n: nat) {
    b != 0 && n * Abs(b) <= Abs(a) < (n + 1) * Abs(b) && (n == 0 || (a < 0) == (b < 0))
  }

  lemma QuotientIsTruncDiv(a: int, b: int, n: nat)
    requires b != 0
    ensures QuotientIs(a, b, n) <==> TruncDiv(a, b) == n
  {
    var m := Abs(b);
    var k, r := Abs(a) / m, Abs(a) % m;
    assert Abs(a) == k * m + r;
    if QuotientIs(a, b, n) {
      DivModUnique(Abs(a), m, n, Abs(a) - n * m);
    }
    if TruncDiv(a, b) == n {
      assert k == n;
      MulSign(n + 1 - k, m);
      assert n * m <= Abs(a) by {
        MulSign(k - n, m);
      }
    }
  }

  /** How many cells `[0] * k` or `range(k)` makes of `k = int(pixels / scale)`: none when k is negative. */
  function CellCount(pixels: int, scale: int): nat
    requires scale != 0
  {
    var k := TruncDiv(pixels, scale);
    if k < 0 then 0 else k
  }

  /**
   * `width % scale or height % scale` rejects the settings; accepted exactly
   * when both sizes are a whole number of cells.
   */
  function Divisible(width: int, height: int, scale: int): (ok: bool)
    requires scale != 0
    ensures ok <==> TruncDiv(width, scale) * scale == width && TruncDiv(height, scale) * scale == height
  {
    ExactIffNoRemainder(width, scale);
    ExactIffNoRemainder(height, scale);
    !(width % scale != 0 || height % scale != 0)
  }

  lemma ExactIffNoRemainder(a: int, b: int)
    requires b != 0
    ensures TruncDiv(a, b) * b == a <==> a % b == 0
  {
    var m := Abs(b);
    var k, r := Abs(a) / m, Abs(a) % m;
    assert Abs(a) == k * m + r;
    ModAbs(a, b);
    // a's remainder by m vanishes exactly when |a|'s does
    if a >= 0 {
      assert a % m == r;
    } else {
      if r == 0 {
        DivModUnique(a, m, -k, 0);
      } else {
        DivModUnique(a, m, -k - 1, m - r);
      }
    }
    // TruncDiv(a, b) * b is |a| - r carrying the sign of a
    var q := TruncDiv(a, b);
    if a >= 0 && b > 0 {
      assert q * b == k * m;
    } else if a >= 0 {
      assert q * b == (-k) * (-m);
    } else if b > 0 {
      assert q * b == -(k * m);
    } else {
      assert q * b == k * (-m);
    }
  }

  /** Dafny's remainder depends only on the size of the divisor. */
  lemma ModAbs(a: int, b: int)
    requires b != 0
    ensures a % b == a % Abs(b)
  {
    if b < 0 {
      DivModUnique(a, -b, -(a / b), a % b);
    }
  }

  /** Python's `xs[i]` on a list of length n: the position it reaches, or None for IndexError. */
  function PyIndex(i: int, n: nat): (p: Option<nat>)
    ensures p.Some? <==> -(n as int) <= i < n
    ensures p.Some? ==> p.value < n && (p.value == i || p.value == i + n)
  {
    if 0 <= i < n then Some(i) else if -(n as int) <= i < 0 then Some(i + n) else None
  }
}
