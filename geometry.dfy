/** Integer geometry of the canvas: pixel positions, cell coordinates, the
    rectangle a cell is painted in, the widget's preferred size, and the hit
    test that turns a mouse position into a cell. */
module Geometry {

  /** A pixel position in widget coordinates (`QPoint`). */
  datatype Point = Point(x: int, y: int)

  /** A cell of the grid: column `i`, row `j`. */
  datatype Coord = Coord(i: int, j: int)

  /** `QRect(x, y, w, h)`: the pixels x <= px < x + w, y <= py < y + h. */
  datatype Rect = Rect(x: int, y: int, w: int, h: int)

  /** `QSize(w, h)`. */
  datatype Size = Size(w: int, h: int)

  predicate InGrid(c: Coord, cols: int, rows: int)
  {
    0 <= c.i < cols && 0 <= c.j < rows
  }

  predicate InRect(p: Point, r: Rect)
  {
    r.x <= p.x < r.x + r.w && r.y <= p.y < r.y + r.h
  }

  /** C++ `a / b` on `int` for a positive divisor: the quotient truncated
      toward zero, so that every `a` in (-b, b) gives 0. */
  function Quot(a: int, b: int): (q: int)
    requires b > 0
    ensures a >= 0 ==> q * b <= a < q * b + b
    ensures a < 0 ==> q * b - b < a <= q * b
  {
    if a >= 0 then a / b
    else
      var m := (-a) / b;
      assert m * b <= -a < m * b + b;
      -m
  }

  /** The hit test of the mouse handlers and of setBG/FGImagePixel:
      `(x / xsize, y / ysize)` with C++ division. */
  function HitCell(p: Point, xsize: int, ysize: int): (c: Coord)
    requires xsize > 0 && ysize > 0
    ensures p.x >= 0 ==> c.i * xsize <= p.x < c.i * xsize + xsize
    ensures p.x < 0 ==> c.i * xsize - xsize < p.x <= c.i * xsize
    ensures p.y >= 0 ==> c.j * ysize <= p.y < c.j * ysize + ysize
    ensures p.y < 0 ==> c.j * ysize - ysize < p.y <= c.j * ysize
  {
    Coord(Quot(p.x, xsize), Quot(p.y, ysize))
  }

  /** `pixelRect(i, j)`: the cell's box, shrunk by the one-pixel grid line on
      its left and top when the grid is shown. */
  function PixelRect(xsize: int, ysize: int, showGrid: bool, c: Coord): (r: Rect)
    ensures r.x + r.w == xsize * (c.i + 1) && r.y + r.h == ysize * (c.j + 1)
    ensures showGrid ==> r.x == xsize * c.i + 1 && r.y == ysize * c.j + 1
    ensures !showGrid ==> r.x == xsize * c.i && r.y == ysize * c.j
  {
    if showGrid then Rect(xsize * c.i + 1, ysize * c.j + 1, xsize - 1, ysize - 1)
    else Rect(xsize * c.i, ysize * c.j, xsize, ysize)
  }

  /** `sizeHint()`: the cells, plus the closing grid line when shown. */
  function SizeHint(xsize: int, ysize: int, cols: int, rows: int, showGrid: bool): (s: Size)
    ensures s.w - xsize * cols == s.h - ysize * rows == (if showGrid then 1 else 0)
  {
    var size := Size(xsize * cols, ysize * rows);
    if showGrid then Size(size.w + 1, size.h + 1) else size
  }

  // ---------------------------------------------------------------------
  // Arithmetic helpers

  lemma MulMono(u: int, v: int, b: int)
    requires b > 0 && u <= v
    ensures u * b <= v * b
  {
  }

  lemma MulStrictMono(u: int, v: int, b: int)
    requires b > 0 && u * b < v * b
    ensures u < v
  {
  }

  /** The only `q` with `q * b <= a < q * b + b`, for a non-negative `a`. */
  lemma QuotUnique(a: int, b: int, q: int)
    requires b > 0 && a >= 0 && q * b <= a < q * b + b
    ensures Quot(a, b) == q
  {
    var r := Quot(a, b);
    assert r * b < (q + 1) * b;
    MulStrictMono(r, q + 1, b);
    assert q * b < (r + 1) * b;
    MulStrictMono(q, r + 1, b);
  }

  // ---------------------------------------------------------------------
  // The hit test

  /** One axis of the hit test for a non-negative coordinate. */
  lemma QuotInRangeNonNeg(a: int, b: int, q: int, n: int)
    requires b > 0 && a >= 0 && q * b <= a < q * b + b
    ensures (0 <= q < n) <==> (n > 0 && a < b * n)
  {
    assert q * b + b == (q + 1) * b;
    assert b * n == n * b;
    if 0 <= q < n {
      MulMono(q + 1, n, b);
    }
    if n > 0 && a < b * n {
      if q < 0 {
        MulMono(q + 1, 0, b);
      }
      MulStrictMono(q, n, b);
    }
  }

  /** One axis of the hit test for a negative coordinate: only (-b, 0) hits. */
  lemma QuotInRangeNeg(a: int, b: int, q: int, n: int)
    requires b > 0 && a < 0 && q * b - b < a <= q * b
    ensures (0 <= q < n) <==> (n > 0 && -b < a)
  {
    assert q * b - b == (q - 1) * b;
    if 0 <= q < n {
      MulMono(0, q, b);
    }
    if n > 0 && -b < a {
      assert -1 * b < q * b;
      MulStrictMono(-1, q, b);
      assert (q - 1) * b < 0 * b;
      MulStrictMono(q - 1, 0, b);
    }
  }

  /** One axis of the hit test: the quotient is a valid index below `n`
      exactly when `a` lies in (-b, b * n); the part (-b, 0) is there
      because the division truncates toward zero. */
  lemma QuotInRange(a: int, b: int, n: int)
    requires b > 0
    ensures (0 <= Quot(a, b) < n) <==> (n > 0 && -b < a < b * n)
  {
    var q := Quot(a, b);
    if a >= 0 {
      QuotInRangeNonNeg(a, b, q, n);
    } else {
      QuotInRangeNeg(a, b, q, n);
      if n > 0 {
        MulMono(0, n, b);
        assert 0 <= b * n;
      }
    }
  }

  /** A mouse position hits a cell of a `cols` x `rows` grid exactly when
      it lies in (-xsize, xsize * cols) x (-ysize, ysize * rows). */
  lemma HitInGridIff(p: Point, xsize: int, ysize: int, cols: int, rows: int)
    requires xsize > 0 && ysize > 0
    ensures InGrid(HitCell(p, xsize, ysize), cols, rows) <==>
      (cols > 0 && rows > 0 && -xsize < p.x < xsize * cols && -ysize < p.y < ysize * rows)
  {
    QuotInRange(p.x, xsize, cols);
    QuotInRange(p.y, ysize, rows);
  }

  /** Every pixel a cell is painted in hits that cell. */
  lemma HitOfPixelInRect(xsize: int, ysize: int, showGrid: bool, c: Coord, p: Point)
    requires xsize > 0 && ysize > 0 && c.i >= 0 && c.j >= 0
    requires InRect(p, PixelRect(xsize, ysize, showGrid, c))
    ensures HitCell(p, xsize, ysize) == c
  {
    assert xsize * c.i >= 0 && ysize * c.j >= 0;
    QuotUnique(p.x, xsize, c.i);
    QuotUnique(p.y, ysize, c.j);
  }

  /** The converse fails with the grid shown: the grid-line pixel at the
      top-left corner of a cell hits the cell but is not painted with it. */
  lemma GridLineHitsCellOutsideRect(xsize: int, ysize: int, c: Coord)
    requires xsize > 0 && ysize > 0 && c.i >= 0 && c.j >= 0
    ensures HitCell(Point(xsize * c.i, ysize * c.j), xsize, ysize) == c
    ensures !InRect(Point(xsize * c.i, ysize * c.j), PixelRect(xsize, ysize, true, c))
  {
    assert xsize * c.i >= 0 && ysize * c.j >= 0;
    QuotUnique(xsize * c.i, xsize, c.i);
    QuotUnique(ysize * c.j, ysize, c.j);
  }

  /** Two different cells with non-negative coordinates never share a
      painted pixel. */
  lemma PixelRectsDisjoint(xsize: int, ysize: int, showGrid: bool, c: Coord, d: Coord, p: Point)
    requires xsize > 0 && ysize > 0
    requires c.i >= 0 && c.j >= 0 && d.i >= 0 && d.j >= 0 && c != d
    ensures !(InRect(p, PixelRect(xsize, ysize, showGrid, c)) && InRect(p, PixelRect(xsize, ysize, showGrid, d)))
  {
    if InRect(p, PixelRect(xsize, ysize, showGrid, c)) && InRect(p, PixelRect(xsize, ysize, showGrid, d)) {
      HitOfPixelInRect(xsize, ysize, showGrid, c, p);
      HitOfPixelInRect(xsize, ysize, showGrid, d, p);
    }
  }

  /** One axis of the size hint: the painted extent of cell `k` of `count`
      cells of size `size` lies within the hint, and the last one ends where
      the closing grid line begins. */
  lemma AxisCovers(size: int, count: int, k: int, showGrid: bool)
    requires size > 0 && 0 <= k < count
    ensures var lo, len := (if showGrid then size * k + 1 else size * k), (if showGrid then size - 1 else size);
      var total := if showGrid then size * count + 1 else size * count;
      0 <= lo && lo + len <= total && (k == count - 1 ==> lo + len == total - (if showGrid then 1 else 0))
  {
    MulMono(0, k, size);
    assert 0 * size == 0;
    assert size * k == k * size && size * count == count * size;
    assert k * size + size == (k + 1) * size;
    MulMono(k + 1, count, size);
  }

  /** The size hint covers the painted rectangle of every cell of the grid,
      and with the grid shown it leaves exactly one column and one row of
      pixels after the last cell for the closing grid line. */
  lemma SizeHintCoversCells(xsize: int, ysize: int, cols: int, rows: int, showGrid: bool, c: Coord)
    requires xsize > 0 && ysize > 0 && InGrid(c, cols, rows)
    ensures var r, s := PixelRect(xsize, ysize, showGrid, c), SizeHint(xsize, ysize, cols, rows, showGrid);
      0 <= r.x && r.x + r.w <= s.w && 0 <= r.y && r.y + r.h <= s.h &&
      (c.i == cols - 1 ==> r.x + r.w == s.w - (if showGrid then 1 else 0)) &&
      (c.j == rows - 1 ==> r.y + r.h == s.h - (if showGrid then 1 else 0))
  {
    AxisCovers(xsize, cols, c.i, showGrid);
    AxisCovers(ysize, rows, c.j, showGrid);
  }

  /** Examples on a 26 x 16 grid of 10 x 20 pixel cells. The pixel one to
      the left of the canvas still hits column 0, because the division
      truncates toward zero. */
  lemma HitCellExamples()
    ensures HitCell(Point(15, 25), 10, 20) == Coord(1, 1)
    ensures HitCell(Point(-1, 5), 10, 20) == Coord(0, 0) && InGrid(Coord(0, 0), 26, 16)
    ensures !InGrid(HitCell(Point(10000, 10000), 10, 20), 26, 16)
  {
  }
}
