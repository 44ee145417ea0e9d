/**
 * The grid store of the Game of Life controller in src/CanvasController.ts:
 * a grid of booleans (true = alive) held as rows of columns, the pixel-to-cell
 * mapping used by the click handler, the all-dead grid built by `resetCells`
 * and the in-place toggle of one cell.
 */
module Grid {

  /** `Cells` in the source: row-major, `cells[row][col]`. */
  type Cells = seq<seq<bool>>

  /** `CellPos` in the source. */
  datatype CellPos = CellPos(row: int, col: int)

  /** Every row has the length of the first one. */
  ghost predicate Rectangular(g: Cells)
  {
    forall i :: 0 <= i < |g| ==> |g[i]| == |g[0]|
  }

  /** `g` has exactly `rows` rows of `cols` cells each. */
  ghost predicate HasShape(g: Cells, rows: nat, cols: nat)
  {
    |g| == rows && forall i :: 0 <= i < |g| ==> |g[i]| == cols
  }

  ghost predicate InBounds(g: Cells, row: int, col: int)
  {
    0 <= row < |g| && 0 <= col < |g[row]|
  }

  /**
   * Reading a cell as the source's neighbour count does: a position outside
   * its row yields `undefined`, which counts as dead.
   */
  function Alive(g: Cells, row: int, col: int): bool
  {
    0 <= row < |g| && 0 <= col < |g[row]| && g[row][col]
  }

  /** A row of `n` dead cells. */
  function DeadRow(n: nat): (r: seq<bool>)
    ensures |r| == n && forall j :: 0 <= j < n ==> !r[j]
  {
    seq(n, _ => false)
  }

  /** The all-dead grid of `rows` rows and `cols` columns. */
  function AllDead(rows: nat, cols: nat): (g: Cells)
    ensures HasShape(g, rows, cols)
    ensures forall i, j :: 0 <= i < rows && 0 <= j < cols ==> !g[i][j]
  {
    seq(rows, _ => DeadRow(cols))
  }

  /** No cell of `g` is alive. */
  ghost predicate IsAllDead(g: Cells)
  {
    forall i, j :: 0 <= i < |g| && 0 <= j < |g[i]| ==> !g[i][j]
  }

  /** The fixed cell edge, `CELL_SIZE`. */
  const CellSize: int := 25

  /**
   * Rows and columns that `resetCells` allocates for a canvas: one more than
   * fit, so that a click on the bottom or right edge still lands in the grid.
   */
  function GridRows(height: nat): nat { height / CellSize + 1 }
  function GridCols(width: nat): nat { width / CellSize + 1 }

  /**
   * `findCell`: the cell under pixel (x, y). The column is the greatest c with
   * c * size <= x, the row likewise for y (`Math.floor` of the quotient).
   */
  function FindCell(x: int, y: int, size: int): (p: CellPos)
    requires size > 0
    ensures p.col * size <= x < (p.col + 1) * size
    ensures p.row * size <= y < (p.row + 1) * size
  {
    CellPos(y / size, x / size)
  }

  /** The rectangle `renderCells` fills for cell (row, col): left, top, width, height. */
  datatype Rect = Rect(left: int, top: int, width: int, height: int)

  function RenderRect(row: int, col: int, size: int): Rect
  {
    Rect(col * size, row * size, size, size)
  }

  ghost predicate Covers(r: Rect, x: int, y: int)
  {
    r.left <= x < r.left + r.width && r.top <= y < r.top + r.height
  }

  /** Multiplying by a positive size preserves order both ways. */
  lemma ScaleOrder(a: int, b: int, size: int)
    requires size > 0
    ensures a <= b <==> a * size <= b * size
  {
    assert b * size - a * size == (b - a) * size;
  }

  /** The one integer q with q * size <= x < (q + 1) * size is x / size. */
  lemma FloorUnique(x: int, size: int, q: int)
    requires size > 0
    requires q * size <= x < (q + 1) * size
    ensures x / size == q
  {
    var d := x / size;
    assert d * size <= x < (d + 1) * size;
    ScaleOrder(d + 1, q, size);
    ScaleOrder(q + 1, d, size);
  }

  /**
   * `findCell` inverts the rendering: a pixel lies in the rectangle drawn for
   * (row, col) exactly when `findCell` maps it back to (row, col).
   */
  lemma FindCellInvertsRender(row: int, col: int, size: int, x: int, y: int)
    requires size > 0
    ensures Covers(RenderRect(row, col, size), x, y) <==> FindCell(x, y, size) == CellPos(row, col)
  {
    if Covers(RenderRect(row, col, size), x, y) {
      assert (col + 1) * size == col * size + size;
      assert (row + 1) * size == row * size + size;
      FloorUnique(x, size, col);
      FloorUnique(y, size, row);
    }
  }

  /** x <= limit with both non-negative gives x / size <= limit / size. */
  lemma DivMonotone(x: nat, limit: nat, size: int)
    requires size > 0 && x <= limit
    ensures x / size <= limit / size
  {
    var p := FindCell(x, 0, size);
    var q := FindCell(limit, 0, size);
    ScaleOrder(q.col + 1, p.col, size);
  }

  /**
   * Because `resetCells` over-provisions by one row and one column, every
   * click inside the canvas (edges included) maps to a cell of the grid.
   */
  lemma ClickInGrid(width: nat, height: nat, x: int, y: int)
    requires 0 <= x <= width && 0 <= y <= height
    ensures var p := FindCell(x, y, CellSize);
      0 <= p.row < GridRows(height) && 0 <= p.col < GridCols(width)
  {
    DivMonotone(x, width, CellSize);
    DivMonotone(y, height, CellSize);
  }

  /** The click handler's `cells[row][col] = !cells[row][col]`. */
  function Toggled(g: Cells, row: int, col: int): (t: Cells)
    requires InBounds(g, row, col)
    ensures |t| == |g| && forall i :: 0 <= i < |g| ==> |t[i]| == |g[i]|
    ensures t[row][col] == !g[row][col]
    ensures forall i, j :: 0 <= i < |g| && 0 <= j < |g[i]| && (i != row || j != col) ==> t[i][j] == g[i][j]
  {
    g[row := g[row][col := !g[row][col]]]
  }

  /** Toggling the same cell twice restores the grid. */
  lemma ToggleTwice(g: Cells, row: int, col: int)
    requires InBounds(g, row, col)
    ensures Toggled(Toggled(g, row, col), row, col) == g
  {
    var t := Toggled(Toggled(g, row, col), row, col);
    assert forall i :: 0 <= i < |g| ==> t[i] == g[i];
  }
}
