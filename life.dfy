/** The rules of the game as pure functions over a snapshot of the universe:
    the live-neighbour count of `get_live_neighbor_count`, the transition of
    the match in `tick`, and the whole next generation. */
module Life {
  import opened Grid

  /** A snapshot of a universe: its dimensions and its row-major cells. */
  datatype Board = Board(width: nat, height: nat, cells: seq<Cell>)

  /** The buffer holds exactly width * height cells. */
  predicate WellFormed(b: Board)
  {
    |b.cells| == b.width * b.height
  }

  /** Neighbour reads stay inside the buffer: the wrapped row is below the
      width, the wrapped column below the height, and their index below
      width * height, which holds exactly when width <= height. */
  predicate Readable(b: Board)
  {
    WellFormed(b) && 0 < b.width <= b.height
  }

  /** One of the offsets -1, 0, 1 the neighbour loops range over. */
  predicate IsDelta(d: int)
  {
    -1 <= d <= 1
  }

  /** The buffer index of the cell at offset (di, dj) from (row, column):
      the row wraps modulo the width and the column modulo the height. */
  function NeighborIndex(b: Board, row: nat, column: nat, di: int, dj: int): (k: nat)
    requires Readable(b) && IsDelta(di) && IsDelta(dj)
    ensures k < |b.cells|
  {
    var x := Wrap(row, di, b.width);
    var y := Wrap(column, dj, b.height);
    IndexInBounds(b.width, b.height, x, y);
    Index(b.width, x, y)
  }

  /** 1 if the cell at offset (di, dj) is alive, 0 otherwise; the centre
      offset (0, 0) is skipped and contributes 0. */
  function AliveAt(b: Board, row: nat, column: nat, di: int, dj: int): (n: nat)
    requires Readable(b) && IsDelta(di) && IsDelta(dj)
    ensures n <= 1
  {
    if di == 0 && dj == 0 then 0
    else if b.cells[NeighborIndex(b, row, column, di, dj)] == Alive then 1
    else 0
  }

  /** The offsets -1, 0, 1, in the order both loops of
      `get_live_neighbor_count` iterate over them. */
  const Deltas: seq<int> := [-1, 0, 1]

  /** The live cells at offsets (di, dj) for dj in djs, a prefix of Deltas:
      what the inner loop has counted after visiting djs. */
  function ColumnsThrough(b: Board, row: nat, column: nat, di: int, djs: seq<int>): nat
    requires Readable(b) && IsDelta(di) && djs <= Deltas
    decreases |djs|
  {
    if djs == [] then 0
    else ColumnsThrough(b, row, column, di, djs[..|djs| - 1]) + AliveAt(b, row, column, di, djs[|djs| - 1])
  }

  /** The live cells at offsets (di, dj) for di in dis, a prefix of Deltas,
      and every dj: what the outer loop has counted after visiting dis. */
  function RowsThrough(b: Board, row: nat, column: nat, dis: seq<int>): nat
    requires Readable(b) && dis <= Deltas
    decreases |dis|
  {
    if dis == [] then 0
    else RowsThrough(b, row, column, dis[..|dis| - 1]) + ColumnsThrough(b, row, column, dis[|dis| - 1], Deltas)
  }

  /** The value `get_live_neighbor_count` returns for (row, column). */
  function LiveNeighbors(b: Board, row: nat, column: nat): nat
    requires Readable(b)
  {
    RowsThrough(b, row, column, Deltas)
  }

  /** Visiting the t-th column offset adds its cell to the columns before it. */
  lemma ColumnStep(b: Board, row: nat, column: nat, di: int, t: nat)
    requires Readable(b) && IsDelta(di) && t < |Deltas|
    ensures ColumnsThrough(b, row, column, di, Deltas[..t + 1]) ==
      ColumnsThrough(b, row, column, di, Deltas[..t]) + AliveAt(b, row, column, di, Deltas[t])
  {
    assert Deltas[..t + 1][..t] == Deltas[..t];
  }

  /** One step of the inner loop of `get_live_neighbor_count` at the t-th
      column offset, other than the centre: the index it computes is in the
      buffer, and the count grows by one exactly when the cell there is alive. */
  lemma CountStep(b: Board, row: nat, column: nat, di: int, t: nat, index: nat)
    requires Readable(b) && IsDelta(di) && t < |Deltas| && !(di == 0 && Deltas[t] == 0)
    requires index == Index(b.width, (row + di + b.width) % b.width, (column + Deltas[t] + b.height) % b.height)
    ensures index < |b.cells|
    ensures ColumnsThrough(b, row, column, di, Deltas[..t + 1]) ==
      ColumnsThrough(b, row, column, di, Deltas[..t]) + (if b.cells[index] == Alive then 1 else 0)
  {
    ColumnStep(b, row, column, di, t);
    assert index == NeighborIndex(b, row, column, di, Deltas[t]);
  }

  /** The `continue` at the centre offset leaves the count unchanged. */
  lemma CentreStep(b: Board, row: nat, column: nat, t: nat)
    requires Readable(b) && t < |Deltas| && Deltas[t] == 0
    ensures ColumnsThrough(b, row, column, 0, Deltas[..t + 1]) == ColumnsThrough(b, row, column, 0, Deltas[..t])
  {
    ColumnStep(b, row, column, 0, t);
  }

  /** The end of one pass of the inner loop: the row offset's count is added
      to the rows counted before it. */
  lemma RowStep(b: Board, row: nat, column: nat, s: nat)
    requires Readable(b) && s < |Deltas|
    ensures RowsThrough(b, row, column, Deltas[..s + 1]) ==
      RowsThrough(b, row, column, Deltas[..s]) + ColumnsThrough(b, row, column, Deltas[s], Deltas[..|Deltas|])
  {
    assert Deltas[..s + 1][..s] == Deltas[..s];
    assert Deltas[..|Deltas|] == Deltas;
  }

  /** The three column offsets of row offset di, one by one. */
  lemma ColumnsByOffset(b: Board, row: nat, column: nat, di: int)
    requires Readable(b) && IsDelta(di)
    ensures ColumnsThrough(b, row, column, di, Deltas) ==
      AliveAt(b, row, column, di, -1) + AliveAt(b, row, column, di, 0) + AliveAt(b, row, column, di, 1)
  {
    ColumnStep(b, row, column, di, 0);
    ColumnStep(b, row, column, di, 1);
    ColumnStep(b, row, column, di, 2);
    assert Deltas[..0] == [] && Deltas[..3] == Deltas;
  }

  /** The count is the number of the eight offsets (di, dj) != (0, 0) whose
      wrapped cell is alive, counted per offset (not per distinct cell). */
  lemma LiveNeighborsByOffset(b: Board, row: nat, column: nat)
    requires Readable(b)
    ensures LiveNeighbors(b, row, column) ==
      AliveAt(b, row, column, -1, -1) + AliveAt(b, row, column, -1, 0) + AliveAt(b, row, column, -1, 1) +
      AliveAt(b, row, column, 0, -1) + AliveAt(b, row, column, 0, 1) +
      AliveAt(b, row, column, 1, -1) + AliveAt(b, row, column, 1, 0) + AliveAt(b, row, column, 1, 1)
  {
    RowStep(b, row, column, 0);
    RowStep(b, row, column, 1);
    RowStep(b, row, column, 2);
    assert Deltas[..0] == [] && Deltas[..3] == Deltas;
    ColumnsByOffset(b, row, column, -1);
    ColumnsByOffset(b, row, column, 0);
    ColumnsByOffset(b, row, column, 1);
  }

  /** The count never exceeds 8, and is 8 exactly when all eight offsets hit live cells. */
  lemma LiveNeighborsBound(b: Board, row: nat, column: nat)
    requires Readable(b)
    ensures LiveNeighbors(b, row, column) <= 8
    ensures LiveNeighbors(b, row, column) == 8 <==>
      forall di, dj :: IsDelta(di) && IsDelta(dj) && !(di == 0 && dj == 0) ==>
        b.cells[NeighborIndex(b, row, column, di, dj)] == Alive
  {
    LiveNeighborsByOffset(b, row, column);
    if LiveNeighbors(b, row, column) == 8 {
      forall di, dj | IsDelta(di) && IsDelta(dj) && !(di == 0 && dj == 0)
        ensures b.cells[NeighborIndex(b, row, column, di, dj)] == Alive
      {
        assert AliveAt(b, row, column, di, dj) == 1 by {
          if di == -1 {
            if dj == -1 {} else if dj == 0 {} else {}
          } else if di == 0 {
            if dj == -1 {} else {}
          } else {
            if dj == -1 {} else if dj == 0 {} else {}
          }
        }
      }
    }
  }

  /** The count depends only on the eight wrapped neighbour cells, not on
      the cell itself: two snapshots of the same shape that agree there give
      the same count, whatever they hold at (row, column). */
  lemma LiveNeighborsLocal(b1: Board, b2: Board, row: nat, column: nat)
    requires Readable(b1) && b2.width == b1.width && b2.height == b1.height && |b2.cells| == |b1.cells|
    requires forall di, dj :: IsDelta(di) && IsDelta(dj) && !(di == 0 && dj == 0) ==>
      b1.cells[NeighborIndex(b1, row, column, di, dj)] == b2.cells[NeighborIndex(b1, row, column, di, dj)]
    ensures LiveNeighbors(b1, row, column) == LiveNeighbors(b2, row, column)
  {
    LiveNeighborsByOffset(b1, row, column);
    LiveNeighborsByOffset(b2, row, column);
  }

  /** The grid is a torus: on an n-by-n grid the cell at (0, 0) has the cell
      at (n - 1, n - 1) as its (-1, -1) diagonal neighbour; with n >= 3 and
      that cell the only live one, the count at (0, 0) is exactly 1. */
  lemma CornerSeesOppositeCorner(b: Board)
    requires Readable(b) && b.width == b.height
    ensures NeighborIndex(b, 0, 0, -1, -1) == Index(b.width, b.width - 1, b.width - 1)
    ensures b.width >= 3 && (forall k :: 0 <= k < |b.cells| ==>
        (b.cells[k] == Alive <==> k == Index(b.width, b.width - 1, b.width - 1)))
      ==> LiveNeighbors(b, 0, 0) == 1
  {
    var n := b.width;
    WrapCases(0, -1, n);
    if n >= 3 && (forall k :: 0 <= k < |b.cells| ==> (b.cells[k] == Alive <==> k == Index(n, n - 1, n - 1))) {
      LiveNeighborsByOffset(b, 0, 0);
      forall di, dj | IsDelta(di) && IsDelta(dj) && !(di == -1 && dj == -1)
        ensures AliveAt(b, 0, 0, di, dj) == 0
      {
        OtherOffset(b, di, dj);
      }
    }
  }

  /** Helper: on an n-by-n torus with n >= 3, every offset from (0, 0) other
      than (-1, -1) reaches a cell other than (n - 1, n - 1). */
  lemma OtherOffset(b: Board, di: int, dj: int)
    requires Readable(b) && b.width == b.height >= 3
    requires IsDelta(di) && IsDelta(dj) && !(di == -1 && dj == -1)
    ensures NeighborIndex(b, 0, 0, di, dj) != Index(b.width, b.width - 1, b.width - 1)
  {
    var n := b.width;
    WrapCases(0, di, n);
    WrapCases(0, dj, n);
    var x, y := Wrap(0, di, n), Wrap(0, dj, n);
    assert NeighborIndex(b, 0, 0, di, dj) == Index(n, x, y);
    IndexRecover(n, x, y);
    IndexRecover(n, n - 1, n - 1);
  }

  /** The match of `tick`, arm by arm: live cells with fewer than 2 or more
      than 3 neighbours die, live cells with 2 or 3 survive, dead cells with
      exactly 3 are born, and every other cell keeps its state. */
  function NextState(cell: Cell, count: nat): (next: Cell)
    ensures next == Alive <==> count == 3 || (cell == Alive && count == 2)
    ensures cell == Alive && (count < 2 || count > 3) ==> next == Dead
    ensures cell == Dead && count != 3 ==> next == Dead
  {
    match cell
    case Alive =>
      if count < 2 then Dead
      else if count == 2 || count == 3 then Alive
      else if count > 3 then Dead
      else cell
    case Dead =>
      if count == 3 then Alive
      else cell
  }

  /** A square snapshot that `tick` can advance. */
  predicate Square(b: Board)
  {
    WellFormed(b) && b.width == b.height
  }

  /** The next state of the cell at buffer index k of a square snapshot. */
  function NextCell(b: Board, k: nat): Cell
    requires Square(b) && k < |b.cells|
  {
    NextState(b.cells[k], LiveNeighbors(b, k / b.width, k % b.width))
  }

  /** The generation after b on a square grid, computed from b alone. */
  function NextGen(b: Board): (r: Board)
    requires Square(b)
    ensures Square(r) && r.width == b.width && r.height == b.height
  {
    Board(b.width, b.height, seq(|b.cells|, k requires 0 <= k < |b.cells| => NextCell(b, k)))
  }

  /** Every cell of the next generation is the rule applied to that cell's
      state and live-neighbour count in the old generation. */
  lemma NextGenAt(b: Board, row: nat, column: nat)
    requires Square(b) && row < b.width && column < b.width
    ensures Index(b.width, row, column) < |b.cells|
    ensures NextGen(b).cells[Index(b.width, row, column)] ==
      NextState(b.cells[Index(b.width, row, column)], LiveNeighbors(b, row, column))
  {
    IndexSquare(b.width, row, column);
  }

  /** One generation changes a cell only where the rule says so: a cell
      keeps its state exactly when it is alive with 2 or 3 live neighbours,
      or dead with a count other than 3. */
  lemma NextGenKeeps(b: Board, row: nat, column: nat)
    requires Square(b) && row < b.width && column < b.width
    ensures Index(b.width, row, column) < |b.cells|
    ensures var k := Index(b.width, row, column);
      NextGen(b).cells[k] == b.cells[k] <==>
        (b.cells[k] == Alive && 2 <= LiveNeighbors(b, row, column) <= 3) ||
        (b.cells[k] == Dead && LiveNeighbors(b, row, column) != 3)
  {
    NextGenAt(b, row, column);
  }
}
