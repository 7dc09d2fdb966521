/** The integer part of the viewer's visible-range computation
    (public/app.js, `clampScale` and `computeVisibleWorldTiles`): clamping
    the floored screen corners into the world grid and listing the cells
    between them row by row. */
module Viewport {

  /** A world cell. */
  datatype Cell = Cell(wr: int, wc: int)

  /** The cells of margin added on each side of the screen. */
  const ExtraMarginTiles: int := 1

  const MinScale: real := 0.01
  const MaxScale: real := 12.0

  /** `clampScale(s)`: `Math.min(12, Math.max(0.01, s))`. */
  function ClampScale(s: real): (r: real)
  {
    if s < MinScale then MinScale else if s > MaxScale then MaxScale else s
  }

  /** The scale always ends in [0.01, 12]; a scale already there is kept,
      one below goes to 0.01 and one above to 12. */
  lemma ClampScaleRange(s: real)
    ensures MinScale <= ClampScale(s) <= MaxScale
    ensures MinScale <= s <= MaxScale ==> ClampScale(s) == s
    ensures s < MinScale ==> ClampScale(s) == MinScale
    ensures s > MaxScale ==> ClampScale(s) == MaxScale
  {
  }

  /** Clamping is monotone, so zooming in never gives a smaller scale. */
  lemma ClampScaleMonotone(a: real, b: real)
    requires a <= b
    ensures ClampScale(a) <= ClampScale(b)
  {
  }

  /** `Math.max(0, Math.min(count - 1, v))`. */
  function ClampIndex(count: int, v: int): int {
    var m := if count - 1 < v then count - 1 else v;
    if 0 > m then 0 else m
  }

  /** With a non-empty extent the index lands inside [0, count) and an index
      already there is kept; with an empty extent it is 0, so one cell is
      still listed. */
  lemma ClampIndexRange(count: int, v: int)
    ensures count >= 1 ==> 0 <= ClampIndex(count, v) < count
    ensures 0 <= v < count ==> ClampIndex(count, v) == v
    ensures count <= 1 ==> ClampIndex(count, v) == 0
    ensures v <= 0 ==> ClampIndex(count, v) == 0
    ensures count >= 1 && v >= count - 1 ==> ClampIndex(count, v) == count - 1
  {
  }

  /** The inclusive bounds of the listed cells. */
  datatype Range = Range(r0: int, r1: int, c0: int, c1: int)

  /** The floored screen corners `Math.floor(min / tile)` and
      `Math.floor(max / tile)` in cells, widened by the margin and clamped
      into the world. */
  function VisibleRange(worldRows: int, worldCols: int, rowLo: int, rowHi: int, colLo: int, colHi: int): (g: Range)
  {
    Range(
      ClampIndex(worldRows, rowLo - ExtraMarginTiles),
      ClampIndex(worldRows, rowHi + ExtraMarginTiles),
      ClampIndex(worldCols, colLo - ExtraMarginTiles),
      ClampIndex(worldCols, colHi + ExtraMarginTiles))
  }

  /** Every bound lies in the world (in cell 0 for an empty extent), and a
      screen whose corners are ordered gives ordered bounds. */
  lemma VisibleRangeBounds(worldRows: int, worldCols: int, rowLo: int, rowHi: int, colLo: int, colHi: int)
    ensures var g := VisibleRange(worldRows, worldCols, rowLo, rowHi, colLo, colHi);
      && 0 <= g.r0 && 0 <= g.r1 && 0 <= g.c0 && 0 <= g.c1
      && (worldRows >= 1 ==> g.r0 < worldRows && g.r1 < worldRows)
      && (worldCols >= 1 ==> g.c0 < worldCols && g.c1 < worldCols)
      && (rowLo <= rowHi ==> g.r0 <= g.r1)
      && (colLo <= colHi ==> g.c0 <= g.c1)
  {
  }

  /** The range covers every world cell on screen and the margin of one
      cell around the screen. */
  lemma VisibleRangeCovers(worldRows: int, worldCols: int, rowLo: int, rowHi: int, colLo: int, colHi: int, cell: Cell)
    requires 0 <= cell.wr < worldRows && rowLo - ExtraMarginTiles <= cell.wr <= rowHi + ExtraMarginTiles
    requires 0 <= cell.wc < worldCols && colLo - ExtraMarginTiles <= cell.wc <= colHi + ExtraMarginTiles
    ensures var g := VisibleRange(worldRows, worldCols, rowLo, rowHi, colLo, colHi);
      g.r0 <= cell.wr <= g.r1 && g.c0 <= cell.wc <= g.c1
  {
  }

  /** Row `wr`, columns c0 .. c - 1, left to right. */
  function RowCells(wr: int, c0: int, c: int): seq<Cell>
    decreases c - c0
  {
    if c <= c0 then [] else RowCells(wr, c0, c - 1) + [Cell(wr, c - 1)]
  }

  /** Rows r0 .. r - 1 of columns c0 .. c1, in row-major order. */
  function GridCells(r0: int, r: int, c0: int, c1: int): seq<Cell>
    decreases r - r0
  {
    if r <= r0 then [] else GridCells(r0, r - 1, c0, c1) + RowCells(r - 1, c0, c1 + 1)
  }

  /** The cells `computeVisibleWorldTiles` lists for a range: every
      (wr, wc) with r0 <= wr <= r1 and c0 <= wc <= c1. */
  function RangeCells(g: Range): seq<Cell> {
    GridCells(g.r0, g.r1 + 1, g.c0, g.c1)
  }

  /** A row holds exactly its columns, in increasing order. */
  lemma {:induction false} RowCellsContent(wr: int, c0: int, c: int)
    ensures |RowCells(wr, c0, c)| == if c <= c0 then 0 else c - c0
    ensures forall i | 0 <= i < |RowCells(wr, c0, c)| :: RowCells(wr, c0, c)[i] == Cell(wr, c0 + i)
    decreases c - c0
  {
    if c > c0 {
      RowCellsContent(wr, c0, c - 1);
    }
  }

  /** Row-major order: rows top to bottom, each left to right. */
  predicate Before(a: Cell, b: Cell) {
    a.wr < b.wr || (a.wr == b.wr && a.wc < b.wc)
  }

  predicate RowMajor(cells: seq<Cell>) {
    forall i, j | 0 <= i < j < |cells| :: Before(cells[i], cells[j])
  }

  /** A grid of r - r0 rows holds (r - r0) * (c1 - c0 + 1) cells. */
  lemma {:induction false} GridCellsLength(r0: int, r: int, c0: int, c1: int)
    requires c0 <= c1
    ensures |GridCells(r0, r, c0, c1)| == if r <= r0 then 0 else (r - r0) * (c1 - c0 + 1)
    decreases r - r0
  {
    if r > r0 {
      GridCellsLength(r0, r - 1, c0, c1);
      RowCellsContent(r - 1, c0, c1 + 1);
      assert (r - r0) * (c1 - c0 + 1) == (r - 1 - r0) * (c1 - c0 + 1) + (c1 - c0 + 1);
    }
  }

  /** A grid holds exactly the cells of its rows and columns. */
  lemma {:induction false} GridCellsMembership(r0: int, r: int, c0: int, c1: int)
    ensures forall cell :: cell in GridCells(r0, r, c0, c1) <==> r0 <= cell.wr < r && c0 <= cell.wc <= c1
    decreases r - r0
  {
    if r > r0 {
      var row := RowCells(r - 1, c0, c1 + 1);
      GridCellsMembership(r0, r - 1, c0, c1);
      RowCellsContent(r - 1, c0, c1 + 1);
      forall cell ensures cell in row <==> cell.wr == r - 1 && c0 <= cell.wc <= c1 {
        if cell.wr == r - 1 && c0 <= cell.wc <= c1 {
          assert row[cell.wc - c0] == cell;
        }
      }
    }
  }

  /** A grid lists its cells in row-major order, so none twice. */
  lemma {:induction false} GridCellsOrder(r0: int, r: int, c0: int, c1: int)
    ensures RowMajor(GridCells(r0, r, c0, c1))
    decreases r - r0
  {
    if r > r0 {
      var prev := GridCells(r0, r - 1, c0, c1);
      var row := RowCells(r - 1, c0, c1 + 1);
      GridCellsOrder(r0, r - 1, c0, c1);
      GridCellsMembership(r0, r - 1, c0, c1);
      RowCellsContent(r - 1, c0, c1 + 1);
      var all := prev + row;
      forall i, j | 0 <= i < j < |all| ensures Before(all[i], all[j]) {
        if j < |prev| {
          assert all[i] == prev[i] && all[j] == prev[j];
        } else if i >= |prev| {
          assert all[i] == row[i - |prev|] && all[j] == row[j - |prev|];
        } else {
          assert all[i] == prev[i] && prev[i] in prev;
          assert all[j] == row[j - |prev|];
        }
      }
    }
  }

  /** A range lists each of its cells once, in row-major order, and nothing else. */
  lemma RangeCellsContent(g: Range)
    requires g.c0 <= g.c1
    ensures RowMajor(RangeCells(g))
    ensures forall cell :: cell in RangeCells(g) <==> g.r0 <= cell.wr <= g.r1 && g.c0 <= cell.wc <= g.c1
    ensures |RangeCells(g)| == if g.r1 < g.r0 then 0 else (g.r1 - g.r0 + 1) * (g.c1 - g.c0 + 1)
  {
    GridCellsLength(g.r0, g.r1 + 1, g.c0, g.c1);
    GridCellsMembership(g.r0, g.r1 + 1, g.c0, g.c1);
    GridCellsOrder(g.r0, g.r1 + 1, g.c0, g.c1);
  }

  /** `computeVisibleWorldTiles` from the floored corners: the single cell
      (0, 0) when the tile size is unknown, otherwise the clamped range in
      row-major order. */
  method VisibleCells(tileW: int, tileH: int, worldRows: int, worldCols: int,
                      rowLo: int, rowHi: int, colLo: int, colHi: int) returns (out: seq<Cell>)
    ensures tileW == 0 || tileH == 0 ==> out == [Cell(0, 0)]
    ensures tileW != 0 && tileH != 0 ==>
      out == RangeCells(VisibleRange(worldRows, worldCols, rowLo, rowHi, colLo, colHi))
  {
    if tileW == 0 || tileH == 0 {
      return [Cell(0, 0)];
    }
    var g := VisibleRange(worldRows, worldCols, rowLo, rowHi, colLo, colHi);
    out := [];
    var wr := g.r0;
    while wr <= g.r1
      invariant g.r0 <= wr <= g.r1 + 1 || (wr == g.r0 && g.r0 > g.r1)
      invariant out == GridCells(g.r0, wr, g.c0, g.c1)
      decreases g.r1 - wr
    {
      var wc := g.c0;
      while wc <= g.c1
        invariant g.c0 <= wc <= g.c1 + 1 || (wc == g.c0 && g.c0 > g.c1)
        invariant out == GridCells(g.r0, wr, g.c0, g.c1) + RowCells(wr, g.c0, wc)
        decreases g.c1 - wc
      {
        out := out + [Cell(wr, wc)];
        wc := wc + 1;
      }
      assert RowCells(wr, g.c0, wc) == RowCells(wr, g.c0, g.c1 + 1);
      wr := wr + 1;
    }
    assert GridCells(g.r0, wr, g.c0, g.c1) == GridCells(g.r0, g.r1 + 1, g.c0, g.c1);
  }
}
