/**
  The square-grid solver of the default (flat) year view: choose a column
  count for `totalDays` square cells so that the grid fits a window of
  `width` x `height` pixels with `gap` pixels between cells, making the
  cells as large as possible.  Window sizes are whole pixels.
 */
module GridSolver {

  /** Columns of the grid and the edge of one square cell, in pixels. */
  datatype GridDims = GridDims(cols: int, cell: int)

  function Min(a: int, b: int): int { if a <= b then a else b }
  function Max(a: int, b: int): int { if a >= b then a else b }

  /** Edge of a cell when `cols` columns and their gaps share `width` pixels (rounded down). */
  function CellSize(width: int, gap: int, cols: int): int
    requires cols >= 1
  {
    (width - (cols - 1) * gap) / cols
  }

  /** Rows needed for `totalDays` cells in `cols` columns (rounded up). */
  function RowCount(totalDays: int, cols: int): int
    requires cols >= 1
  {
    (totalDays + cols - 1) / cols
  }

  /** The largest column count the search tries. */
  function MaxCols(totalDays: int, width: int): int {
    Min(totalDays, Max(1, width))
  }

  /** `cols` columns give cells of positive size whose rows, with their gaps, fit in `height`. */
  predicate Feasible(totalDays: int, width: int, height: int, gap: int, cols: int)
    requires cols >= 1
  {
    var cell := CellSize(width, gap, cols);
    var rows := RowCount(totalDays, cols);
    cell > 0 && rows * cell + (rows - 1) * gap <= height
  }

  /** Some column count in the searched range is feasible. */
  predicate SomeFeasible(totalDays: int, width: int, height: int, gap: int) {
    exists c :: 1 <= c <= MaxCols(totalDays, width) && Feasible(totalDays, width, height, gap, c)
  }

  /** `x / n` is not positive exactly when `x` is below `n`. */
  lemma DivNotPositive(x: int, n: int)
    requires n >= 1
    ensures x / n <= 0 <==> x < n
  {
    var q, r := x / n, x % n;
    assert x == n * q + r && 0 <= r < n;
    if q >= 1 {
      assert n * q >= n * 1;
    } else {
      assert n * q <= 0;
    }
  }

  /** Once the cells have shrunk to nothing, more columns do not bring them back. */
  lemma NoCellAfterBreak(width: int, gap: int, c: int, d: int)
    requires width > 0 && gap >= 0 && 1 <= c <= d
    requires CellSize(width, gap, c) <= 0
    ensures CellSize(width, gap, d) <= 0
  {
    DivNotPositive(width - (c - 1) * gap, c);
    DivNotPositive(width - (d - 1) * gap, d);
    assert width + gap < c * (gap + 1);
    assert c * (gap + 1) <= d * (gap + 1);
  }

  /**
    `computeSquareGridColumns`: try 1, 2, ... columns up to MaxCols, stop
    as soon as the cells shrink to nothing, and keep the first column count
    with the largest cell whose grid fits the height.  If nothing fits, one
    column as wide as the window (but at least 10 pixels).
   */
  method ComputeSquareGridColumns(totalDays: int, width: int, height: int, gap: nat)
    returns (g: GridDims)
    ensures width <= 0 || height <= 0 ==> g == GridDims(1, 10)
    ensures width > 0 && height > 0 ==> 1 <= g.cols <= Max(1, MaxCols(totalDays, width))
    ensures width > 0 && height > 0 && SomeFeasible(totalDays, width, height, gap) ==>
              && Feasible(totalDays, width, height, gap, g.cols)
              && g.cell == CellSize(width, gap, g.cols)
              && (forall c :: 1 <= c <= MaxCols(totalDays, width) && Feasible(totalDays, width, height, gap, c) ==>
                    CellSize(width, gap, c) <= g.cell)
              && (forall c :: 1 <= c < g.cols && Feasible(totalDays, width, height, gap, c) ==>
                    CellSize(width, gap, c) < g.cell)
    ensures width > 0 && height > 0 && !SomeFeasible(totalDays, width, height, gap) ==>
              g == GridDims(1, Max(10, width))
  {
    if width <= 0 || height <= 0 {
      return GridDims(1, 10);
    }
    var bestCols := 1;
    var bestCell := 0;
    var maxCols := Min(totalDays, Max(1, width));
    var cols := 1;
    while cols <= maxCols
      invariant 1 <= cols <= Max(1, maxCols + 1)
      invariant bestCell == 0 ==> bestCols == 1
      invariant bestCell == 0 ==> forall c :: 1 <= c < cols ==> !Feasible(totalDays, width, height, gap, c)
      invariant bestCell != 0 ==> 1 <= bestCols < cols && Feasible(totalDays, width, height, gap, bestCols)
      invariant bestCell != 0 ==> bestCell == CellSize(width, gap, bestCols)
      invariant forall c :: 1 <= c < cols && Feasible(totalDays, width, height, gap, c) ==>
                  CellSize(width, gap, c) <= bestCell
      invariant forall c :: 1 <= c < bestCols && Feasible(totalDays, width, height, gap, c) ==>
                  CellSize(width, gap, c) < bestCell
    {
      var usableWidth := width - (cols - 1) * gap;
      var cellSize := usableWidth / cols;
      if cellSize <= 0 {
        forall c | cols <= c <= maxCols
          ensures !Feasible(totalDays, width, height, gap, c)
        {
          NoCellAfterBreak(width, gap, cols, c);
        }
        break;
      }
      var rows := (totalDays + cols - 1) / cols;
      var totalHeight := rows * cellSize + (rows - 1) * gap;
      if totalHeight <= height {
        if cellSize > bestCell {
          bestCell := cellSize;
          bestCols := cols;
        }
      }
      cols := cols + 1;
    }
    if bestCell == 0 {
      var usableWidth := width - (bestCols - 1) * gap;
      bestCell := Max(10, usableWidth / bestCols);
    }
    g := GridDims(bestCols, bestCell);
  }
}
