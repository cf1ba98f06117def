/** Grid geometry: the zoom-to-density ladder, the bounds of one cell of the
    square grid laid over the image, and the half-open point-in-cell test.
    Coordinates are exact reals, with the origin at a corner of the image. */
module Grid {

  /** Cap on the number of rows (and columns) the grid may have. */
  const SafeMaxRows: int := 208

  /** An axis-aligned rectangle in image coordinates. */
  datatype Rect = Rect(top: real, left: real, bottom: real, right: real)

  /** Grid density for a (fractional) zoom level: 26, 52, 104 or 208 rows,
      the higher density applying from just above each threshold. */
  function RowsForZoom(z: real): (rows: int)
    ensures rows in {26, 52, 104, 208}
  {
    if z <= 0.0 then 26
    else if z <= 1.0 then 52
    else if z <= 2.0 then 104
    else 208
  }

  /** The ladder read off threshold by threshold: each upper bound is
      inclusive, and each step doubles the density. */
  lemma RowsForZoomLadder(z: real)
    ensures z <= 0.0 ==> RowsForZoom(z) == 26
    ensures 0.0 < z <= 1.0 ==> RowsForZoom(z) == 52 == 2 * RowsForZoom(0.0)
    ensures 1.0 < z <= 2.0 ==> RowsForZoom(z) == 104 == 2 * RowsForZoom(1.0)
    ensures 2.0 < z ==> RowsForZoom(z) == 208 == 2 * RowsForZoom(2.0)
  {
  }

  /** Zooming in never coarsens the grid. */
  lemma RowsForZoomMonotonic(z1: real, z2: real)
    requires z1 <= z2
    ensures RowsForZoom(z1) <= RowsForZoom(z2)
  {
  }

  /** The row count drawGrid uses: the ladder value, capped at SafeMaxRows.
      The cap never fires, because the ladder already tops out at the cap. */
  function GridRows(z: real): (rows: int)
    ensures 26 <= rows <= SafeMaxRows
    ensures rows == RowsForZoom(z)
  {
    var rows := RowsForZoom(z);
    if rows > SafeMaxRows then SafeMaxRows else rows
  }

  /** Half-open membership: the top and left edges belong to the cell, the
      bottom and right edges to its neighbours. */
  predicate PointInRect(x: real, y: real, cell: Rect)
    ensures PointInRect(x, y, cell) ==> cell.top < cell.bottom && cell.left < cell.right
  {
    y >= cell.top && y < cell.bottom && x >= cell.left && x < cell.right
  }

  /** A non-empty cell owns its top and left edges, its top-left corner
      included; points on the bottom or right edge never are inside. */
  lemma PointInRectHalfOpen(cell: Rect, x: real, y: real)
    requires cell.top < cell.bottom && cell.left < cell.right
    ensures PointInRect(cell.left, cell.top, cell)
    ensures cell.left <= x < cell.right ==> PointInRect(x, cell.top, cell)
    ensures cell.top <= y < cell.bottom ==> PointInRect(cell.left, y, cell)
    ensures !PointInRect(x, cell.bottom, cell) && !PointInRect(cell.right, y, cell)
  {
  }

  /** Side of a cell along an image extent split into `rows` parts. */
  function CellSize(extent: real, rows: int): (size: real)
    requires rows > 0
    ensures rows as real * size == extent
    ensures extent > 0.0 ==> size > 0.0
  {
    extent / rows as real
  }

  /** Bounds of the cell in row `row`, column `col` of a `rows` by `rows`
      grid over an image `imageW` wide and `imageH` high. */
  function CellBounds(row: int, col: int, rows: int, imageW: real, imageH: real): (cell: Rect)
    requires rows > 0
    ensures cell.bottom - cell.top == CellSize(imageH, rows)
    ensures cell.right - cell.left == CellSize(imageW, rows)
  {
    var cellH := CellSize(imageH, rows);
    var cellW := CellSize(imageW, rows);
    var top := row as real * cellH;
    var left := col as real * cellW;
    Rect(top, left, top + cellH, left + cellW)
  }

  /** Centre of a cell whose top-left corner is (left, top): where a claim
      stores its point. */
  function CellCentreX(cell: Rect, cellW: real): real { cell.left + cellW / 2.0 }
  function CellCentreY(cell: Rect, cellH: real): real { cell.top + cellH / 2.0 }

  /** A cell of positive size holds its own centre. */
  lemma CentreInCell(cell: Rect, cellW: real, cellH: real)
    requires cellW > 0.0 && cellH > 0.0
    requires cell.bottom == cell.top + cellH && cell.right == cell.left + cellW
    ensures PointInRect(CellCentreX(cell, cellW), CellCentreY(cell, cellH), cell)
  {
  }

  /** A cell of the grid lies inside the image. */
  lemma {:induction false} CellWithinImage(row: int, col: int, rows: int, imageW: real, imageH: real)
    requires 0 <= row < rows && 0 <= col < rows
    requires imageW > 0.0 && imageH > 0.0
    ensures var cell := CellBounds(row, col, rows, imageW, imageH);
      0.0 <= cell.top && cell.bottom <= imageH && 0.0 <= cell.left && cell.right <= imageW
  {
    var h, w := CellSize(imageH, rows), CellSize(imageW, rows);
    BandWithin(row, rows, h, imageH);
    BandWithin(col, rows, w, imageW);
  }

  /** Band `i` of `rows` bands of positive width lies within [0, extent]. */
  lemma BandWithin(i: int, rows: int, size: real, extent: real)
    requires 0 <= i < rows && size > 0.0 && rows as real * size == extent
    ensures 0.0 <= i as real * size
    ensures i as real * size + size <= extent
  {
    MulLe(0.0, i as real, size);
    MulLe(i as real + 1.0, rows as real, size);
    assert (i as real + 1.0) * size == i as real * size + size;
  }

  /** Neighbouring cells share their edges, so the grid has neither gaps
      nor overlaps. */
  lemma CellsAbut(row: int, col: int, rows: int, imageW: real, imageH: real)
    requires rows > 0
    ensures CellBounds(row + 1, col, rows, imageW, imageH).top == CellBounds(row, col, rows, imageW, imageH).bottom
    ensures CellBounds(row, col + 1, rows, imageW, imageH).left == CellBounds(row, col, rows, imageW, imageH).right
  {
  }

  /** Multiplying by a positive size preserves order. */
  lemma MulLe(a: real, b: real, size: real)
    requires a <= b && size > 0.0
    ensures a * size <= b * size
  {
  }

  /** Multiplying by a positive size preserves strict order. */
  lemma MulLt(a: real, b: real, size: real)
    requires a < b && size > 0.0
    ensures a * size < b * size
  {
  }

  /** Scaling the lower end of the bracket k <= q by a positive size. */
  lemma BracketBelow(v: real, q: real, k: real, size: real)
    requires k <= q && size > 0.0 && q * size == v
    ensures k * size <= v
  {
    MulLe(k, q, size);
  }

  /** Scaling the upper end of the bracket q < k + 1 by a positive size. */
  lemma BracketAbove(v: real, q: real, k: real, size: real)
    requires q < k + 1.0 && size > 0.0 && q * size == v
    ensures v < k * size + size
  {
    MulLt(q, k + 1.0, size);
    assert (k + 1.0) * size == k * size + size;
  }

  /** A point lies in at most one cell of a grid. */
  lemma {:induction false} CellUnique(x: real, y: real, row1: int, col1: int, row2: int, col2: int,
                                      rows: int, imageW: real, imageH: real)
    requires rows > 0 && imageW > 0.0 && imageH > 0.0
    requires PointInRect(x, y, CellBounds(row1, col1, rows, imageW, imageH))
    requires PointInRect(x, y, CellBounds(row2, col2, rows, imageW, imageH))
    ensures row1 == row2 && col1 == col2
  {
    var h, w := CellSize(imageH, rows), CellSize(imageW, rows);
    BandBelow(y, row1 as real, row2 as real, h);
    BandBelow(y, row2 as real, row1 as real, h);
    BandBelow(x, col1 as real, col2 as real, w);
    BandBelow(x, col2 as real, col1 as real, w);
  }

  /** A band starting at p * size cannot hold a coordinate below the end of
      band q unless p < q + 1. */
  lemma BandBelow(v: real, p: real, q: real, size: real)
    requires size > 0.0
    requires p * size <= v
    requires v < q * size + size
    ensures p < q + 1.0
  {
    assert (q + 1.0) * size == q * size + size;
    if p >= q + 1.0 { MulLe(q + 1.0, p, size); }
  }

  /** Every point of the image lies in the cell whose indices are its
      coordinates divided by the cell size, rounded down. */
  lemma {:induction false} CellOfPoint(x: real, y: real, rows: int, imageW: real, imageH: real)
    requires rows > 0 && imageW > 0.0 && imageH > 0.0
    requires 0.0 <= x < imageW && 0.0 <= y < imageH
    ensures var row, col := (y / CellSize(imageH, rows)).Floor, (x / CellSize(imageW, rows)).Floor;
      0 <= row < rows && 0 <= col < rows && PointInRect(x, y, CellBounds(row, col, rows, imageW, imageH))
  {
    FloorBand(y, CellSize(imageH, rows), rows);
    FloorBand(x, CellSize(imageW, rows), rows);
  }

  /** Rounding a coordinate's quotient by the cell size down gives the band
      holding it. */
  lemma FloorBand(v: real, size: real, rows: int)
    requires size > 0.0 && rows > 0 && 0.0 <= v < size * rows as real
    ensures var k := (v / size).Floor;
      0 <= k < rows && k as real * size <= v < k as real * size + size
  {
    var q := v / size;
    var k := q.Floor;
    assert q * size == v;
    BracketBelow(v, q, k as real, size);
    BracketAbove(v, q, k as real, size);
    if q >= rows as real { MulLe(rows as real, q, size); }
    if q < 0.0 { MulLt(q, 0.0, size); }
  }
}
