# Conway's Game of Life universe, modelled in Dafny

The crate keeps a `Universe`: a `width` by `height` grid of `Cell`s (`Dead` or
`Alive`), stored row-major in one buffer. It is built with an initial pattern
by `new`, advanced one generation by `tick`, and drawn as text by `render`
(the `Display` implementation). The grid is a torus: neighbour lookups wrap
around every edge.

The model has six modules:

- `Grid` (grid.dfy): the `Cell` type, `get_index` as `Index`, the
  toroidal step of a coordinate (`Wrap`), and the initial pattern of `new`.
  It also holds the arithmetic facts about the index: it is in bounds, it can
  be inverted, and it goes wrong on non-square grids.
- `Life` (life.dfy): a `Board` value (a snapshot of a universe). On it sit
  the pure specification of the neighbour count (`LiveNeighbors`), the
  transition of the `match` in `tick` (`NextState`) and the whole next
  generation (`NextGen`). The count is summed in the order of the two loops
  of `get_live_neighbor_count`, over the offset list `[-1, 0, 1]` they
  iterate (`Deltas`), one lemma per loop step.
- `Display` (display.dfy): the text `fmt` writes. The buffer is cut into
  chunks of `width` cells. Each cell is drawn as a two-character glyph
  (`░░` for `Dead`, `██` for `Alive`). Each chunk is followed by a newline.
- `Sweep` (sweep.dfy): the order in which the loops of `tick` fill the next
  buffer: step (i, j) writes index i * width + j, the cell right after those
  already written, and writes the next generation's state there.
- `GameOfLife` (universe.dfy): the `Universe` class. Its fields are updated
  in place, and its methods are written as the source's loops:
  - `LiveNeighborCount` has the nested offset loops and the `continue` at
    the centre.
  - `Tick` clones the cells into `cellsNext` (a local sequence, since the
    clone is a separate value), overwrites it cell by cell from the old
    cells only, then replaces the cells.
  - `Render` has the per-chunk, per-cell write loop.

  Each method is proved equal to the matching function of `Life` or
  `Display`.
- `Patterns` (patterns.dfy): whole-board consequences of the rule.

The model follows the code. A reader might expect one character per cell,
a newline only between rows, and a count that wraps rows by the height and
columns by the width; the code does otherwise:

- Every row of the rendered text ends with a newline, the last one
  included.
- Each cell is drawn with two characters.
- The text has one line per chunk of `width` cells.
- The neighbour count wraps the row index modulo `width` and the column
  index modulo `height`. This is harmless on a square grid but not
  otherwise (see `Grid.IndexOverrunsWhenWide` and
  `Grid.IndexCollidesWhenTall`).

A consequence of the toroidal wrap on very small grids: on a 3-by-3 torus
every cell sees every other cell. A line of three live cells therefore does
not oscillate there as a blinker does on a large grid. One offset can also
reach the same cell as another (on 1-by-1 and 2-by-2 grids), and the count
is taken per offset (`Life.LiveNeighborsByOffset`, `Patterns.FullDies`).

## Model

| member | source | states |
|---|---|---|
| GameOfLife.Universe.constructor | src/lib.rs:40-55 | `new` builds exactly `width * height` cells, and cell i is alive exactly when i is even or a multiple of 7 |
| Grid.InitialCells | src/lib.rs:41-49 | the collected buffer has `count` cells, cell i being the pattern's state for i |
| Grid.InitialPatternPeriod | src/lib.rs:43 | the initial pattern repeats every 14 cells, and its live offsets in one period are 0, 2, 4, 6, 7, 8, 10 and 12 |
| Grid.IndexInBounds | src/lib.rs:112-114 | `row * width + column` is below `width * height` for every row below the width and column below the height, given width <= height |
| Grid.IndexRecover | src/lib.rs:112-114 | dividing the index by the width gives back the row, and the remainder gives back the column, when the column is below the width |
| Grid.IndexSquare | src/lib.rs:112-114 | on an n-by-n grid the index of every (row, column) is in bounds and determines the pair |
| Grid.IndexOnto | src/lib.rs:112-114 | every index of a width-by-height buffer is the index of exactly the pair (k / width, k % width), which lies in the grid |
| Grid.IndexOverrunsWhenWide | src/lib.rs:134-137 | when 0 < height < width, the neighbour count at the first cell (0, 0) that `tick` visits reads offset (-1, 0) at row width - 1, column 0, an index past the end of the buffer |
| Grid.IndexCollidesWhenTall | src/lib.rs:62-66 | when 2 <= width < height, the loops of `tick` visit (0, width) and (1, 0), which have the same index |
| Grid.Wrap | src/lib.rs:134-135 | the wrapped coordinate is always below n |
| Grid.WrapCases | src/lib.rs:134-135 | on a coordinate below n, the wrap leaves it unchanged for offset 0, gives the next one (0 after n - 1) for +1, and the previous one (n - 1 before 0) for -1 |
| Life.NeighborIndex | src/lib.rs:134-136 | the index read for a neighbour offset is inside the buffer whenever 0 < width <= height |
| Life.AliveAt | src/lib.rs:129-141 | each offset adds at most one to the count |
| Life.CountStep | src/lib.rs:134-141 | at an offset other than the centre, the index the inner loop computes is inside the buffer, and the count grows by one exactly when the cell there is alive |
| Life.CentreStep | src/lib.rs:129-131 | the `continue` at the centre offset leaves the count unchanged |
| Life.RowStep | src/lib.rs:127-143 | after one pass of the inner loop, the count is the earlier rows' count plus the live cells among that row offset's three column offsets |
| Life.LiveNeighborsByOffset | src/lib.rs:125-145 | the count is the sum over the eight offsets other than (0, 0) of 1 for a live wrapped cell |
| Life.LiveNeighborsBound | src/lib.rs:125-145 | the count is at most 8, and it is 8 exactly when every one of the eight offsets hits a live cell |
| Life.LiveNeighborsLocal | src/lib.rs:125-145 | two boards that agree on the eight wrapped neighbour cells give the same count, whatever the cell itself holds |
| Life.CornerSeesOppositeCorner | src/lib.rs:134-135 | on an n-by-n torus the (-1, -1) neighbour of (0, 0) is (n - 1, n - 1); for n >= 3 with only that cell alive the count at (0, 0) is 1 |
| Life.NextState | src/lib.rs:68-84 | a cell is alive next exactly when it has 3 live neighbours or is alive with 2; a live cell with fewer than 2 or more than 3 dies; a dead cell without exactly 3 stays dead |
| Life.NextGen | src/lib.rs:60-89 | the next generation of a square board is a square board of the same dimensions |
| Life.NextGenAt | src/lib.rs:62-85 | the next state at (row, column) is the rule applied to the old state there and the old live-neighbour count there |
| Life.NextGenKeeps | src/lib.rs:68-84 | a cell keeps its state exactly when it is alive with 2 or 3 live neighbours, or dead with a count other than 3 |
| GameOfLife.Universe.LiveNeighborCount | src/lib.rs:125-145 | the loops return the live-neighbour count of the specification, at most 8, for any grid with 0 < width <= height |
| Sweep.SweepIndex | src/lib.rs:61-63 | on an n-by-n grid, after i full rows (i * n cells), step (i, j) writes index i * n + j, inside the buffer |
| Sweep.SweepCell | src/lib.rs:63-84 | the state the match computes at step (i, j) from the old cell and its old count is the next generation's cell at the index written |
| Sweep.PrefixWrite | src/lib.rs:84 | writing the next generation's value just after a prefix that already agrees with it extends the agreeing prefix by one cell |
| GameOfLife.Universe.Tick | src/lib.rs:60-89 | on a square grid the dimensions are kept, and the new cells are exactly the next generation of the old cells, so every cell is computed from the old cells only |
| GameOfLife.Universe.Render | src/lib.rs:157-174 | the text is the buffer drawn chunk by chunk; nothing is modified, so two calls without a `tick` between them return the same text |
| GameOfLife.ChunkEntry | src/lib.rs:158 | a chunk of `width` cells (or the remainder) is cut from the buffer, and the text still to write is its glyphs, a newline and the text of the later chunks |
| GameOfLife.GlyphStep | src/lib.rs:159-165 | writing a cell's glyph leaves the glyphs of the rest of the chunk to write |
| GameOfLife.ChunkExit | src/lib.rs:167-171 | after a chunk's last glyph only its newline and the later chunks remain |
| Display.ChunkLength | src/lib.rs:158 | each chunk holds between 1 and `width` cells, and never more than remain |
| Display.RowTextLength | src/lib.rs:159-166 | a row of k cells is drawn with 2k characters |
| Display.RowTextShape | src/lib.rs:159-166 | a row of k cells is drawn with 2k characters, characters 2c and 2c + 1 both being the glyph character of cell c |
| Display.LinesLength | src/lib.rs:157-174 | a width-by-height grid is drawn with height * (2 * width + 1) characters |
| Display.LinesAt | src/lib.rs:157-174 | cell (row, column) is drawn at offsets row * (2 * width + 1) + 2 * column and the one after, and every row ends with a newline at offset row * (2 * width + 1) + 2 * width |
| Display.LinesInjective | src/lib.rs:157-174 | two grids of the same shape that render the same text have the same cells |
| Patterns.DeadStaysDead | src/lib.rs:60-89 | on a square board with no live cell, `tick` brings no cell to life |
| Patterns.FullDies | src/lib.rs:60-89 | on a square board with every cell alive, every cell has 8 live neighbours and dies |

## Left out

- The wasm-bindgen attributes and JavaScript glue (src/lib.rs:3, 14, 25, 35), the `wee_alloc` allocator (src/lib.rs:5-9) and `mod utils` (src/lib.rs:1). They are foreign-function plumbing with no logic. `utils` is not part of this model.
- The `#[repr(u8)]` layout of `Cell` (Dead = 0, Alive = 1). Only the host reads the raw buffer, and the host is not modelled.
- The host-side render loop, animation scheduling and DOM output. They are I/O outside the crate.
- The `fmt::Formatter` error paths (src/lib.rs:161-171). The results of the writes are ignored and `fmt` always returns `Ok(())`, so `Render` builds the string directly.
- Machine integers. `width * height`, `row * width + column` and the sums in the neighbour count are unbounded integers here. The source's `u32` arithmetic overflows for grids with more than 2^32 cells. The `i as u32` cast turns -1 into 2^32 - 1 and relies on wrap-around: with wrapping addition the result equals `Grid.Wrap`, and a debug build panics instead. The `u8` count is a `nat`, and its value is at most 8.
- The `cells_next` vector of `tick` is written in place in the source; here it is a local sequence reassigned at each write. It is a fresh clone that nothing else refers to, so no aliasing is lost.
- GameOfLife.Universe.Tick: requires `width == height`. The loops bound the row by the width and the column by the height, while the index multiplies the row by the width. When 0 < height < width, `tick` panics at its first cell (0, 0), inside the neighbour count, whose (-1, 0) read leaves the buffer (`Grid.IndexOverrunsWhenWide`). When 2 <= width < height, some cells are written twice and some not at all (`Grid.IndexCollidesWhenTall`); that result is not specified. Two non-square cases run cleanly in the source and are not modelled either: a grid of width 1 (every cell is written once, at index j, with the rule applied to its wrapped neighbours) and a grid of height 0 with positive width (the inner loop never runs and nothing changes).
- GameOfLife.Universe.LiveNeighborCount: requires `0 < width <= height`. With width 0 the source divides by zero, and with width > height some reads leave the buffer and panic.
- GameOfLife.Universe.Render: requires `width > 0`, because `chunks(0)` panics.
- Concrete pattern runs (a still block, a blinker over two ticks) are not modelled. On literal boards their proofs run into nonlinear arithmetic over the index. The general rule lemmas (`Life.NextGenAt`, `Life.NextGenKeeps`, `Patterns.DeadStaysDead`, `Patterns.FullDies`) are proved instead.
