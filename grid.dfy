/** The cell state and the row-major grid arithmetic of the universe:
    the state of one cell, the 1-D index of a (row, column) pair, the
    toroidal wrap of a coordinate and the initial pattern. */
module Grid {

  /** The state of one cell; no other states exist. */
  datatype Cell = Dead | Alive

  /** `get_index`: the position of (row, column) in the row-major buffer.
      The source multiplies the row by the width whatever the row's bound is. */
  function Index(width: nat, row: nat, column: nat): nat
  {
    row * width + column
  }

  /** The row and column are recovered from the index by division and
      remainder whenever column < width. */
  lemma IndexRecover(width: nat, row: nat, column: nat)
    requires column < width
    ensures Index(width, row, column) / width == row && Index(width, row, column) % width == column
  {
    DivModUnique(width, row, column);
  }

  /** Every (row, column) with row < width and column < height lands inside a
      buffer of width * height cells exactly when width <= height. */
  lemma IndexInBounds(width: nat, height: nat, row: nat, column: nat)
    requires width <= height && row < width && column < height
    ensures Index(width, row, column) < width * height
  {
    calc {
      Index(width, row, column);
      <= (width - 1) * width + column;
      < (width - 1) * width + height;
      <= (width - 1) * height + height;
      == width * height;
    }
  }

  /** On a square n-by-n grid the index is a bijection from [0, n) x [0, n)
      onto [0, n*n): every cell is reached, by exactly one pair. */
  lemma IndexSquare(n: nat, row: nat, column: nat)
    requires row < n && column < n
    ensures Index(n, row, column) < n * n
    ensures Index(n, row, column) / n == row && Index(n, row, column) % n == column
  {
    IndexInBounds(n, n, row, column);
    IndexRecover(n, row, column);
  }

  /** Every index of a width-by-height buffer is reached by the pair
      (k / width, k % width), which lies inside the grid. */
  lemma IndexOnto(width: nat, height: nat, k: nat) returns (row: nat, column: nat)
    requires k < width * height
    ensures row == k / width && column == k % width
    ensures row < height && column < width && Index(width, row, column) == k
  {
    row, column := k / width, k % width;
  }

  /** Helper: the quotient and remainder of row*n + column for column < n. */
  lemma DivModUnique(n: nat, row: nat, column: nat)
    requires column < n
    ensures (row * n + column) / n == row && (row * n + column) % n == column
  {
    var k := row * n + column;
    var q, r := k / n, k % n;
    assert q * n + r == k;
    assert (q - row) * n == column - r;
    ZeroMultiple(q - row, n);
  }

  /** Helper: the only multiple of n strictly between -n and n is 0. */
  lemma ZeroMultiple(d: int, n: int)
    requires n > 0 && -n < d * n < n
    ensures d == 0
  {
  }

  /** Quirk of `tick` when 0 < height < width: at its very first cell (0, 0)
      the neighbour count reads offset (-1, 0), whose row wraps to
      width - 1 and whose column wraps to 0, and that index is past the end
      of the width * height buffer, so the read panics. */
  lemma IndexOverrunsWhenWide(width: nat, height: nat)
    requires 0 < height < width
    ensures Wrap(0, -1, width) == width - 1 && Wrap(0, 0, height) == 0
    ensures Index(width, Wrap(0, -1, width), Wrap(0, 0, height)) >= width * height
  {
    WrapCases(0, -1, width);
    WrapCases(0, 0, height);
    var extra := width - 1 - height;
    assert (width - 1) * width == height * width + extra * width by {
      assert width - 1 == height + extra;
    }
  }

  /** Quirk of `tick` when 2 <= width < height: the pairs (0, width) and
      (1, 0) both lie inside its loop ranges (row below the width, column
      below the height) and share one index, so one cell is written twice. */
  lemma IndexCollidesWhenTall(width: nat, height: nat)
    requires 2 <= width < height
    ensures Index(width, 0, width) == Index(width, 1, 0)
  {
  }

  /** The toroidal step of `get_live_neighbor_count`: coordinate v moved by
      delta in {-1, 0, 1}, brought back into [0, n). The source adds
      `delta as u32` with wrap-around, which is this value without overflow. */
  function Wrap(v: nat, delta: int, n: nat): (w: nat)
    requires n > 0 && -1 <= delta <= 1
    ensures w < n
  {
    (v + delta + n) % n
  }

  /** On a coordinate inside [0, n), the step is the identity for offset 0,
      the next coordinate (0 after n - 1) for +1 and the previous one
      (n - 1 before 0) for -1. */
  lemma WrapCases(v: nat, delta: int, n: nat)
    requires n > 0 && -1 <= delta <= 1 && v < n
    ensures delta == 0 ==> Wrap(v, delta, n) == v
    ensures delta == 1 ==> Wrap(v, delta, n) == if v == n - 1 then 0 else v + 1
    ensures delta == -1 ==> Wrap(v, delta, n) == if v == 0 then n - 1 else v - 1
  {
    var x := v + delta + n;
    if x < n {
      ModBelow(x, n);
    } else if x < 2 * n {
      ModOnce(x, n);
    } else {
      ModTwice(x, n);
    }
  }

  /** Helper: x % n == x for 0 <= x < n. */
  lemma ModBelow(x: nat, n: nat)
    requires x < n
    ensures x % n == x
  {
  }

  /** Helper: x % n == x - n for n <= x < 2n. */
  lemma ModOnce(x: nat, n: nat)
    requires 0 < n <= x < 2 * n
    ensures x % n == x - n
  {
  }

  /** Helper: x % n == x - 2n for 2n <= x < 3n. */
  lemma ModTwice(x: nat, n: nat)
    requires 0 < n && 2 * n <= x < 3 * n
    ensures x % n == x - 2 * n
  {
  }

  /** The initial state of cell i built by `new`. */
  function InitialCell(i: nat): Cell
  {
    if i % 2 == 0 || i % 7 == 0 then Alive else Dead
  }

  /** The buffer `new` collects over 0 .. count. */
  function InitialCells(count: nat): (cells: seq<Cell>)
    ensures |cells| == count
    ensures forall i :: 0 <= i < count ==> cells[i] == InitialCell(i)
  {
    seq(count, i requires 0 <= i => InitialCell(i))
  }

  /** The initial pattern repeats every 14 cells; its live cells in one period
      are those at offsets 0, 2, 4, 6, 7, 8, 10 and 12. */
  lemma InitialPatternPeriod(i: nat)
    ensures InitialCell(i + 14) == InitialCell(i)
    ensures i < 14 ==> (InitialCell(i) == Alive <==> i in {0, 2, 4, 6, 7, 8, 10, 12})
  {
    assert (i + 14) % 2 == i % 2 && (i + 14) % 7 == i % 7;
  }

  /** Helper: (a)m is (a - 1)m plus m. */
  lemma MulStep(a: nat, m: nat)
    requires a > 0
    ensures a * m == (a - 1) * m + m
  {
  }

  /** k is q times m, stated as q repeated additions of m (which keeps the
      inductive proofs below free of multiplication). */
  predicate Multiple(k: nat, m: nat, q: nat)
  {
    if q == 0 then k == 0 else k >= m && Multiple(k - m, m, q - 1)
  }

  /** q * m is q times m in the sense of Multiple. */
  lemma {:induction false} MultipleOf(q: nat, m: nat)
    ensures Multiple(q * m, m, q)
  {
    if q > 0 {
      MulStep(q, m);
      MultipleOf(q - 1, m);
    }
  }

  /** A Multiple is the product. */
  lemma {:induction false} MultipleValue(k: nat, m: nat, q: nat)
    requires Multiple(k, m, q)
    ensures k == q * m
  {
    if q > 0 {
      MultipleValue(k - m, m, q - 1);
      MulStep(q, m);
    }
  }
}
