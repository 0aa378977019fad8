/** The text `render` returns (the `Display` implementation of the universe):
    the buffer split into rows of `width` cells, each cell a two-character
    glyph, each row followed by a newline. */
module Display {
  import opened Grid

  const DeadChar: char := '\U{2591}'
  const AliveChar: char := '\U{2588}'

  /** The character a cell is drawn with: light shade for a dead cell,
      full block otherwise. */
  function GlyphChar(cell: Cell): char
  {
    if cell == Dead then DeadChar else AliveChar
  }

  /** The glyph of one cell: its character, twice. */
  function Glyph(cell: Cell): string
  {
    [GlyphChar(cell), GlyphChar(cell)]
  }

  /** The glyphs of one row, left to right. */
  function RowText(line: seq<Cell>): string
  {
    if line == [] then "" else Glyph(line[0]) + RowText(line[1..])
  }

  /** The length of the next chunk of a buffer split into chunks of `width`
      cells: `width`, or what is left when fewer cells remain. */
  function ChunkLength(width: nat, remaining: nat): (n: nat)
    requires width > 0
    ensures 0 < n <= width && (remaining > 0 ==> n <= remaining)
  {
    if width <= remaining || remaining == 0 then width else remaining
  }

  /** The text of a buffer split into chunks of `width` cells: each chunk's
      glyphs followed by a newline, the last chunk included. */
  function Lines(width: nat, cells: seq<Cell>): string
    requires width > 0
    decreases |cells|
  {
    if cells == [] then ""
    else
      var n := ChunkLength(width, |cells|);
      RowText(cells[..n]) + "\n" + Lines(width, cells[n..])
  }

  /** The first chunk of a non-empty buffer and the text of the rest. */
  lemma LinesUnfold(width: nat, cells: seq<Cell>, start: nat, end: nat)
    requires width > 0 && start < |cells| && end == start + ChunkLength(width, |cells| - start)
    ensures end <= |cells|
    ensures Lines(width, cells[start..]) == RowText(cells[start..end]) + "\n" + Lines(width, cells[end..])
  {
    var rest := cells[start..];
    assert rest[..end - start] == cells[start..end] && rest[end - start..] == cells[end..];
  }

  /** The glyphs of cells c.. of a row: cell c's glyph, then the rest. */
  lemma RowTextUnfold(line: seq<Cell>, c: nat)
    requires c < |line|
    ensures RowText(line[c..]) == Glyph(line[c]) + RowText(line[c + 1..])
  {
    assert line[c..][1..] == line[c + 1..];
  }

  /** A row of k cells is 2k characters; the characters 2c and 2c + 1 are
      both the glyph character of cell c. */
  lemma {:induction false} RowTextShape(line: seq<Cell>)
    ensures |RowText(line)| == 2 * |line|
    ensures forall c :: 0 <= c < |line| ==>
      RowText(line)[2 * c] == GlyphChar(line[c]) && RowText(line)[2 * c + 1] == GlyphChar(line[c])
  {
    if line != [] {
      var tail := line[1..];
      RowTextShape(tail);
      forall c | 0 <= c < |line|
        ensures RowText(line)[2 * c] == GlyphChar(line[c]) && RowText(line)[2 * c + 1] == GlyphChar(line[c])
      {
        if c > 0 {
          assert tail[c - 1] == line[c];
          assert RowText(line)[2 * c] == RowText(tail)[2 * (c - 1)];
        }
      }
    }
  }

  /** A width-by-height grid renders to height * (2 * width + 1) characters. */
  lemma {:induction false} LinesLength(width: nat, height: nat, cells: seq<Cell>)
    requires width > 0 && |cells| == width * height
    ensures |Lines(width, cells)| == height * (2 * width + 1)
  {
    if height > 0 {
      MulStep(height, width);
      MulStep(height, 2 * width + 1);
      LinesLength(width, height - 1, cells[width..]);
      RowTextLength(cells[..width]);
    }
  }

  /** Dropping the first `row` full chunks of the buffer (start cells) drops
      the first `row` lines of the text (offset characters). */
  lemma {:induction false} LinesDrop(width: nat, cells: seq<Cell>, len: nat, row: nat, start: nat, offset: nat)
    requires width > 0 && len == 2 * width + 1
    requires Multiple(start, width, row) && Multiple(offset, len, row) && start <= |cells|
    ensures offset <= |Lines(width, cells)|
    ensures Lines(width, cells)[offset..] == Lines(width, cells[start..])
  {
    if row > 0 {
      var first, rest := cells[..width], cells[width..];
      var head := RowText(first) + "\n";
      RowTextLength(first);
      assert |head| == len;
      assert Lines(width, cells) == head + Lines(width, rest);
      LinesDrop(width, rest, len, row - 1, start - width, offset - len);
      DropAppend(head, Lines(width, rest), offset);
      assert rest[start - width..] == cells[start..];
    } else {
      assert cells[start..] == cells;
    }
  }

  /** Helper: dropping k >= |a| characters of a + b drops k - |a| of b. */
  lemma DropAppend(a: string, b: string, k: nat)
    requires |a| <= k <= |a| + |b|
    ensures (a + b)[k..] == b[k - |a|..]
  {
  }

  /** A row of k cells is drawn with 2k characters. */
  lemma {:induction false} RowTextLength(line: seq<Cell>)
    ensures |RowText(line)| == 2 * |line|
  {
    if line != [] {
      RowTextLength(line[1..]);
    }
  }

  /** When the buffer holds a full chunk, the text begins with its glyphs
      and a newline. */
  lemma FirstLine(width: nat, cells: seq<Cell>, column: nat)
    requires 0 < width <= |cells| && column < width
    ensures 2 * width < |Lines(width, cells)|
    ensures Lines(width, cells)[2 * column] == GlyphChar(cells[column])
    ensures Lines(width, cells)[2 * column + 1] == GlyphChar(cells[column])
    ensures Lines(width, cells)[2 * width] == '\n'
  {
    var first := cells[..width];
    RowTextShape(first);
    assert Lines(width, cells) == RowText(first) + "\n" + Lines(width, cells[width..]);
    assert first[column] == cells[column];
  }

  /** In a width-by-height grid the cell at (row, column) is drawn by the
      two characters at offsets row * (2 * width + 1) + 2 * column and the
      one after, and every row, the last included, ends with a newline at
      offset row * (2 * width + 1) + 2 * width. */
  lemma LinesAt(width: nat, height: nat, cells: seq<Cell>, row: nat, column: nat)
    requires width > 0 && |cells| == width * height && row < height && column < width
    ensures Index(width, row, column) < |cells|
    ensures row * (2 * width + 1) + 2 * width < |Lines(width, cells)|
    ensures Lines(width, cells)[row * (2 * width + 1) + 2 * column] == GlyphChar(cells[Index(width, row, column)])
    ensures Lines(width, cells)[row * (2 * width + 1) + 2 * column + 1] == GlyphChar(cells[Index(width, row, column)])
    ensures Lines(width, cells)[row * (2 * width + 1) + 2 * width] == '\n'
  {
    MultipleOf(row, width);
    MultipleOf(row, 2 * width + 1);
    RowFits(width, height, row);
    DrawnAt(width, cells, row, row * width, row * (2 * width + 1), column);
  }

  /** Helper: LinesAt with the products row * width and row * (2 * width + 1)
      given as start and offset. */
  lemma DrawnAt(width: nat, cells: seq<Cell>, row: nat, start: nat, offset: nat, column: nat)
    requires width > 0 && column < width && start + width <= |cells|
    requires Multiple(start, width, row) && Multiple(offset, 2 * width + 1, row)
    ensures offset + 2 * width < |Lines(width, cells)|
    ensures Lines(width, cells)[offset + 2 * column] == GlyphChar(cells[start + column])
    ensures Lines(width, cells)[offset + 2 * column + 1] == GlyphChar(cells[start + column])
    ensures Lines(width, cells)[offset + 2 * width] == '\n'
  {
    LinesDrop(width, cells, 2 * width + 1, row, start, offset);
    FirstLine(width, cells[start..], column);
    var s := Lines(width, cells);
    assert s[offset + 2 * column] == s[offset..][2 * column];
    assert s[offset + 2 * column + 1] == s[offset..][2 * column + 1];
    assert s[offset + 2 * width] == s[offset..][2 * width];
    assert cells[start..][column] == cells[start + column];
  }

  /** Helper: a row below the height lies inside a width * height buffer. */
  lemma {:induction false} RowFits(width: nat, height: nat, row: nat)
    requires row < height
    ensures row * width + width <= width * height
  {
    MulStep(height, width);
    if row + 1 < height {
      RowFits(width, height - 1, row);
    } else {
      MulStep(row + 1, width);
    }
  }

  /** Rendering loses nothing: two grids of the same shape with the same
      text have the same cells. */
  lemma LinesInjective(width: nat, height: nat, cells1: seq<Cell>, cells2: seq<Cell>)
    requires width > 0 && |cells1| == width * height && |cells2| == width * height
    requires Lines(width, cells1) == Lines(width, cells2)
    ensures cells1 == cells2
  {
    forall k | 0 <= k < |cells1|
      ensures cells1[k] == cells2[k]
    {
      var row, column := IndexOnto(width, height, k);
      SameCell(width, height, cells1, cells2, row, column);
    }
  }

  /** Helper: equal texts draw the cell at (row, column) with the same glyph. */
  lemma SameCell(width: nat, height: nat, cells1: seq<Cell>, cells2: seq<Cell>, row: nat, column: nat)
    requires width > 0 && |cells1| == width * height && |cells2| == width * height
    requires row < height && column < width
    requires Lines(width, cells1) == Lines(width, cells2)
    ensures Index(width, row, column) < |cells1|
    ensures cells1[Index(width, row, column)] == cells2[Index(width, row, column)]
  {
    LinesAt(width, height, cells1, row, column);
    LinesAt(width, height, cells2, row, column);
  }
}
