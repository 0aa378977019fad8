/** Whole-board consequences of the rule of `tick`: nothing is born from
    nothing, and a board with every cell alive dies of overcrowding. */
module Patterns {
  import opened Grid
  import opened Life

  /** Every cell of the buffer holds the given state. */
  predicate Uniform(cells: seq<Cell>, state: Cell)
  {
    forall k :: 0 <= k < |cells| ==> cells[k] == state
  }

  /** An all-dead square board stays all dead: every count is 0. */
  lemma {:induction false} DeadStaysDead(b: Board)
    requires Square(b) && Uniform(b.cells, Dead)
    ensures Uniform(NextGen(b).cells, Dead)
  {
    forall k | 0 <= k < |b.cells|
      ensures NextGen(b).cells[k] == Dead
    {
      var row, column := IndexOnto(b.width, b.height, k);
      LiveNeighborsByOffset(b, row, column);
    }
  }

  /** An all-alive square board dies in one step: every offset of every
      cell, on a 1-by-1 or 2-by-2 torus the cell itself or one cell
      several times, is alive, so every count is 8. */
  lemma {:induction false} FullDies(b: Board)
    requires Square(b) && Uniform(b.cells, Alive)
    ensures Uniform(NextGen(b).cells, Dead)
  {
    forall k | 0 <= k < |b.cells|
      ensures NextGen(b).cells[k] == Dead
    {
      var row, column := IndexOnto(b.width, b.height, k);
      LiveNeighborsByOffset(b, row, column);
    }
  }
}
