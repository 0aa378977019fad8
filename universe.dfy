/** The `Universe` of the game: a grid of cells that `tick` advances in
    place, one generation at a time, and `render` draws as text. */
module GameOfLife {
  import opened Grid
  import opened Life
  import opened Display
  import opened Sweep

  /** Entering a chunk in `fmt`: the text still to write is the chunk's
      glyphs, a newline and the text of the cells after it. */
  lemma ChunkEntry(width: nat, cells: seq<Cell>, start: nat, end: nat, s: string, text: string)
    requires width > 0 && start < |cells| && end == start + ChunkLength(width, |cells| - start)
    requires s + Lines(width, cells[start..]) == text
    ensures end <= |cells|
    ensures s + RowText(cells[start..end][0..]) + "\n" + Lines(width, cells[end..]) == text
  {
    LinesUnfold(width, cells, start, end);
    assert cells[start..end][0..] == cells[start..end];
  }

  /** Writing the glyph of cell c of a chunk leaves the glyphs of the cells
      after it to write. */
  lemma GlyphStep(line: seq<Cell>, c: nat, s: string, rows: string, text: string)
    requires c < |line| && s + RowText(line[c..]) + "\n" + rows == text
    ensures s + Glyph(line[c]) + RowText(line[c + 1..]) + "\n" + rows == text
  {
    RowTextUnfold(line, c);
  }

  /** After the last glyph of a chunk only its newline and the later chunks
      remain. */
  lemma ChunkExit(line: seq<Cell>, s: string, rows: string, text: string)
    requires s + RowText(line[|line|..]) + "\n" + rows == text
    ensures s + "\n" + rows == text
  {
    assert line[|line|..] == [];
  }

  /** Once every chunk is written the text is complete. */
  lemma TextDone(width: nat, cells: seq<Cell>, s: string, text: string)
    requires width > 0 && s + Lines(width, cells[|cells|..]) == text
    ensures s == text
  {
    assert cells[|cells|..] == [];
  }

  class Universe {
    var width: nat
    var height: nat
    var cells: seq<Cell>

    /** The buffer holds one cell per (row, column) of the grid. */
    ghost predicate Valid()
      reads this
    {
      |cells| == width * height
    }

    /** The current state as a value. */
    function Snapshot(): Board
      reads this
    {
      Board(width, height, cells)
    }

    /** `new`: a width-by-height universe whose cell i is alive exactly when
        i is even or a multiple of 7. */
    constructor (width: nat, height: nat)
      ensures Valid() && this.width == width && this.height == height
      ensures cells == InitialCells(width * height)
      ensures forall i :: 0 <= i < |cells| ==> (cells[i] == Alive <==> i % 2 == 0 || i % 7 == 0)
    {
      this.width := width;
      this.height := height;
      cells := InitialCells(width * height);
    }

    /** `get_live_neighbor_count`: the live cells among the eight offsets
        around (row, column), the row wrapping modulo the width and the
        column modulo the height. Every read stays inside the buffer exactly
        when width <= height. */
    method LiveNeighborCount(row: nat, column: nat) returns (count: nat)
      requires Valid() && 0 < width <= height
      ensures count == LiveNeighbors(Snapshot(), row, column)
      ensures count <= 8
    {
      ghost var b := Snapshot();
      count := 0;
      for s := 0 to |Deltas|
        invariant count == RowsThrough(b, row, column, Deltas[..s])
      {
        var i := Deltas[s];
        for t := 0 to |Deltas|
          invariant count == RowsThrough(b, row, column, Deltas[..s]) + ColumnsThrough(b, row, column, i, Deltas[..t])
        {
          var j := Deltas[t];
          if i == 0 && j == 0 {
            CentreStep(b, row, column, t);
            continue;
          }
          var x := (row + i + width) % width;
          var y := (column + j + height) % height;
          var index := Index(width, x, y);
          CountStep(b, row, column, i, t, index);
          if cells[index] == Alive {
            count := count + 1;
          }
        }
        RowStep(b, row, column, s);
      }
      assert Deltas[..|Deltas|] == Deltas;
      LiveNeighborsBound(b, row, column);
    }

    /** `tick`: one simultaneous generation step. The next buffer starts as a
        copy (a `clone`) of the cells; every cell of it is overwritten from the
        old cells only, and it then replaces the cells. The loops bound the row by the
        width and the column by the height, so this is only consistent on a
        square grid. */
    method Tick()
      requires Valid() && width == height
      modifies this
      ensures Valid() && width == old(width) && height == old(height)
      ensures Snapshot() == NextGen(old(Snapshot()))
    {
      ghost var b := Snapshot();
      ghost var target := NextGen(b).cells;
      ghost var n := width;
      ghost var rowStart: nat := 0;
      var cellsNext := cells;
      for i := 0 to width
        invariant Snapshot() == b && width == n && height == n && |cellsNext| == |cells| == |target|
        invariant Multiple(rowStart, n, i) && rowStart <= |cells|
        invariant cellsNext[..rowStart] == target[..rowStart]
      {
        for j := 0 to height
          invariant Snapshot() == b && width == n && height == n && |cellsNext| == |cells| == |target|
          invariant rowStart + j <= |cells|
          invariant cellsNext[..rowStart + j] == target[..rowStart + j]
        {
          SweepIndex(n, i, j, rowStart);
          var index := Index(width, i, j);
          var cellState := cells[index];
          var liveNeighbourCount := LiveNeighborCount(i, j);
          SweepCell(b, i, j, rowStart, cellState, liveNeighbourCount);
          ghost var p := rowStart + j;
          assert index == p;
          PrefixWrite(cellsNext, target, p, NextState(cellState, liveNeighbourCount));
          cellsNext := cellsNext[index := NextState(cellState, liveNeighbourCount)];
        }
        rowStart := rowStart + n;
      }
      MultipleValue(rowStart, n, n);
      assert cellsNext == cellsNext[..rowStart];
      assert target == target[..rowStart];
      cells := cellsNext;
    }

    /** `render` (through `Display::fmt`): the cells cut into chunks of
        `width`, each chunk's glyphs followed by a newline. Nothing is
        modified, so two calls without a `tick` between return the same text. */
    method Render() returns (s: string)
      requires width > 0
      ensures s == Lines(width, cells)
    {
      ghost var text := Lines(width, cells);
      s := "";
      var start := 0;
      while start < |cells|
        invariant 0 <= start <= |cells|
        invariant s + Lines(width, cells[start..]) == text
      {
        var end := start + ChunkLength(width, |cells| - start);
        ChunkEntry(width, cells, start, end, s, text);
        var line := cells[start..end];
        ghost var rows := Lines(width, cells[end..]);
        for c := 0 to |line|
          invariant s + RowText(line[c..]) + "\n" + rows == text
        {
          GlyphStep(line, c, s, rows, text);
          s := s + Glyph(line[c]);
        }
        ChunkExit(line, s, rows, text);
        s := s + "\n";
        start := end;
      }
      TextDone(width, cells, s, text);
    }
  }
}
