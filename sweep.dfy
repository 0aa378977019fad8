/** The next generation in the order the loops of `tick` compute it: row
    by row, and within a row column by column, each cell written just after
    the cells before it in row-major order. */
module Sweep {
  import opened Grid
  import opened Life

  /** The index `tick` writes at (i, j) of an n-by-n grid, after
      rowStart = i * n cells, is rowStart + j, inside the buffer. */
  lemma SweepIndex(n: nat, i: nat, j: nat, rowStart: nat)
    requires i < n && j < n && Multiple(rowStart, n, i)
    ensures Index(n, i, j) == rowStart + j < n * n
  {
    MultipleValue(rowStart, n, i);
    IndexInBounds(n, n, i, j);
  }

  /** One step of the loops of `tick` at (i, j) of a square snapshot b,
      after rowStart = i * width cells: the index written is rowStart + j,
      and the state the match computes there from the old cell and its old
      live-neighbour count is that cell of the next generation. */
  lemma SweepCell(b: Board, i: nat, j: nat, rowStart: nat, cell: Cell, count: nat)
    requires Square(b) && i < b.width && j < b.width && Multiple(rowStart, b.width, i)
    requires Index(b.width, i, j) < |b.cells| && cell == b.cells[Index(b.width, i, j)]
    requires count == LiveNeighbors(b, i, j)
    ensures Index(b.width, i, j) == rowStart + j < |b.cells|
    ensures NextGen(b).cells[rowStart + j] == NextState(cell, count)
  {
    SweepIndex(b.width, i, j, rowStart);
    NextGenAt(b, i, j);
  }

  /** Writing v == target[p] at position p of a buffer whose first p
      cells already agree with target makes its first p + 1 cells agree. */
  lemma PrefixWrite(buffer: seq<Cell>, target: seq<Cell>, p: nat, v: Cell)
    requires p < |buffer| && p < |target| && buffer[..p] == target[..p] && v == target[p]
    ensures buffer[p := v][..p + 1] == target[..p + 1]
  {
    assert buffer[p := v][..p + 1] == buffer[..p] + [v];
    assert target[..p + 1] == target[..p] + [target[p]];
  }
}
