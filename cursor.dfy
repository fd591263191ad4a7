/** The keyboard side of the canvas: the cursor's transitions under typing,
    Backspace, Enter/Return and the arrow keys. Typing and Backspace wrap
    around the grid like a torus; the arrow keys stop at its edge. */
module Cursor {
  import opened Geometry

  /** The named keys `keyPressEvent` tells apart (`Qt::Key_*`). */
  datatype Key = Backspace | Enter | Return | Up | Down | Left | Right | OtherKey
  {
    predicate IsArrow()
    {
      Up? || Down? || Left? || Right?
    }
  }

  /** A key event as the widget sees it: `ch` is the first character of the
      event's text, `printable` is whether `QChar::isPrint` holds of it, and
      `key` is the key code. */
  datatype KeyEvent = KeyEvent(ch: char, printable: bool, key: Key)

  /** After typing a character: one column on, wrapping to the start of the
      next row and from the last row to row 0. */
  function Advance(c: Coord, cols: int, rows: int): (r: Coord)
    ensures InGrid(c, cols, rows) ==> InGrid(r, cols, rows)
    ensures r.j == c.j || r.i == 0
  {
    if c.i + 1 >= cols then Coord(0, if c.j + 1 >= rows then 0 else c.j + 1)
    else Coord(c.i + 1, c.j)
  }

  /** Backspace: one column back, wrapping to the end of the previous row and
      from row 0 to the last row. */
  function Retreat(c: Coord, cols: int, rows: int): (r: Coord)
    ensures InGrid(c, cols, rows) ==> InGrid(r, cols, rows)
    ensures r.j == c.j || r.i == cols - 1
  {
    if c.i - 1 < 0 then Coord(cols - 1, if c.j - 1 < 0 then rows - 1 else c.j - 1)
    else Coord(c.i - 1, c.j)
  }

  /** Enter/Return: column 0 of the next row, wrapping from the last row to row 0. */
  function NewLine(c: Coord, rows: int): (r: Coord)
    ensures r.i == 0
    ensures 0 <= c.j < rows ==> 0 <= r.j < rows
  {
    Coord(0, if c.j + 1 >= rows then 0 else c.j + 1)
  }

  /** The cursor after `ev`; the printable test comes before the key code. */
  function NextCursor(ev: KeyEvent, c: Coord, cols: int, rows: int): (r: Coord)
    ensures !ev.printable && ev.key.IsArrow() ==>
      (r.i == c.i || r.j == c.j) && -1 <= r.i - c.i <= 1 && -1 <= r.j - c.j <= 1
    ensures !ev.printable && ev.key == OtherKey ==> r == c
  {
    if ev.printable then Advance(c, cols, rows)
    else match ev.key
      case Backspace => Retreat(c, cols, rows)
      case Enter => NewLine(c, rows)
      case Return => NewLine(c, rows)
      case Up => if c.j - 1 < 0 then c else Coord(c.i, c.j - 1)
      case Down => if c.j + 1 >= rows then c else Coord(c.i, c.j + 1)
      case Left => if c.i - 1 < 0 then c else Coord(c.i - 1, c.j)
      case Right => if c.i + 1 >= cols then c else Coord(c.i + 1, c.j)
      case OtherKey => c
  }

  // ---------------------------------------------------------------------
  // An independent description: cells numbered in row-major order

  /** The position of cell `c` when the grid is read row by row. */
  function Index(c: Coord, cols: int): int
  {
    c.j * cols + c.i
  }

  /** Every cell of the grid has a number below `cols * rows`. */
  lemma IndexInRange(c: Coord, cols: int, rows: int)
    requires InGrid(c, cols, rows)
    ensures 0 <= Index(c, cols) < cols * rows
  {
    assert c.j * cols >= 0;
    assert c.j * cols + cols == (c.j + 1) * cols;
    assert (c.j + 1) * cols <= rows * cols by {
      assert rows * cols - (c.j + 1) * cols == (rows - (c.j + 1)) * cols;
    }
  }

  lemma ModOfSmall(x: int, n: int)
    requires 0 <= x < n
    ensures x % n == x
  {
  }

  lemma ModOfBound(n: int)
    requires n > 0
    ensures n % n == 0 && (-1) % n == n - 1
  {
  }

  /** Row `j + 1` starts right after the last cell of row `j`. */
  lemma NextRowStart(j: int, cols: int)
    ensures (j + 1) * cols == j * cols + cols
  {
  }

  /** Typing moves the cursor to the next cell in reading order, and from the
      last cell of the grid back to the first. */
  lemma AdvanceIsNextCell(c: Coord, cols: int, rows: int)
    requires InGrid(c, cols, rows)
    ensures InGrid(Advance(c, cols, rows), cols, rows)
    ensures Index(Advance(c, cols, rows), cols) == (Index(c, cols) + 1) % (cols * rows)
  {
    var a := Advance(c, cols, rows);
    IndexInRange(a, cols, rows);
    if c.i + 1 < cols || c.j + 1 < rows {
      NextRowStart(c.j, cols);
      assert Index(a, cols) == Index(c, cols) + 1;
      ModOfSmall(Index(c, cols) + 1, cols * rows);
    } else {
      NextRowStart(rows - 1, cols);
      assert Index(c, cols) + 1 == cols * rows;
      ModOfBound(cols * rows);
    }
  }

  /** Backspace moves the cursor to the previous cell in reading order, and
      from the first cell of the grid to the last. */
  lemma RetreatIsPreviousCell(c: Coord, cols: int, rows: int)
    requires InGrid(c, cols, rows)
    ensures InGrid(Retreat(c, cols, rows), cols, rows)
    ensures Index(Retreat(c, cols, rows), cols) == (Index(c, cols) - 1) % (cols * rows)
  {
    var r := Retreat(c, cols, rows);
    IndexInRange(r, cols, rows);
    if c.i > 0 || c.j > 0 {
      NextRowStart(c.j - 1, cols);
      assert Index(r, cols) == Index(c, cols) - 1;
      ModOfSmall(Index(c, cols) - 1, cols * rows);
    } else {
      NextRowStart(rows - 1, cols);
      assert Index(r, cols) == cols * rows - 1;
      ModOfBound(cols * rows);
    }
  }

  /** Backspace undoes the cursor movement of typing, and typing undoes that
      of Backspace. */
  lemma RetreatUndoesAdvance(c: Coord, cols: int, rows: int)
    requires InGrid(c, cols, rows)
    ensures Retreat(Advance(c, cols, rows), cols, rows) == c
    ensures Advance(Retreat(c, cols, rows), cols, rows) == c
  {
  }

  /** Enter goes to the first cell of the next row in reading order, and from
      the last row to the first cell of the grid. */
  lemma NewLineIsNextRowStart(c: Coord, cols: int, rows: int)
    requires InGrid(c, cols, rows)
    ensures InGrid(NewLine(c, rows), cols, rows)
    ensures Index(NewLine(c, rows), cols) == ((c.j + 1) % rows) * cols
  {
    if c.j + 1 < rows {
      ModOfSmall(c.j + 1, rows);
    } else {
      ModOfBound(rows);
    }
  }

  /** The cell one step from `c` in the direction of an arrow key. */
  function Neighbour(c: Coord, k: Key): Coord
    requires k.IsArrow()
  {
    match k
    case Up => Coord(c.i, c.j - 1)
    case Down => Coord(c.i, c.j + 1)
    case Left => Coord(c.i - 1, c.j)
    case Right => Coord(c.i + 1, c.j)
  }

  /** An arrow key moves the cursor to the neighbouring cell in its direction
      when that cell is in the grid, and otherwise leaves it where it is. */
  lemma ArrowMovesOrStays(ev: KeyEvent, c: Coord, cols: int, rows: int)
    requires !ev.printable && ev.key.IsArrow() && InGrid(c, cols, rows)
    ensures InGrid(Neighbour(c, ev.key), cols, rows) ==> NextCursor(ev, c, cols, rows) == Neighbour(c, ev.key)
    ensures !InGrid(Neighbour(c, ev.key), cols, rows) ==> NextCursor(ev, c, cols, rows) == c
  {
  }

  /** On a non-empty grid no key event takes the cursor out of the grid. */
  lemma KeyKeepsCursorInGrid(ev: KeyEvent, c: Coord, cols: int, rows: int)
    requires InGrid(c, cols, rows)
    ensures InGrid(NextCursor(ev, c, cols, rows), cols, rows)
  {
    if ev.printable {
      AdvanceIsNextCell(c, cols, rows);
    } else if ev.key == Backspace {
      RetreatIsPreviousCell(c, cols, rows);
    }
  }
}
