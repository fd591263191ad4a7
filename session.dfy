/** Sequences of widget operations as the editor's user or main window
    drives them: typing on a fresh canvas, inserting and then deleting the
    same rows or columns, and deletions whose count is capped so that the
    deleted range stays inside the grid. */
module Session {
  import opened Layers
  import opened Geometry
  import opened Cursor
  import opened Canvas

  /** On the default 26 x 16 canvas, typing "HI" writes 'H' in cell (0, 0)
      and 'I' in cell (1, 0), leaves every other glyph a space, and leaves
      the cursor at (2, 0). */
  method TypeHI() returns (w: MainWidget)
    ensures w.Valid() && w.xasc == 26 && w.yasc == 16
    ensures w.text[0][0] == 'H' && w.text[0][1] == 'I'
    ensures forall j, i :: 0 <= j < 16 && 0 <= i < 26 && (j, i) != (0, 0) && (j, i) != (0, 1) ==> w.text[j][i] == ' '
    ensures w.CursorCell() == Coord(2, 0)
  {
    w := new MainWidget();
    w.KeyPress(KeyEvent('H', true, OtherKey));
    w.KeyPress(KeyEvent('I', true, OtherKey));
  }

  /** Clicking the cell in the last row and then deleting the first row
      leaves the cursor below the grid: the widget does not re-clamp it. */
  method CursorOutlivesDelete() returns (w: MainWidget)
    ensures w.Valid() && w.yasc == 15
    ensures w.CursorCell() == Coord(0, 15) && !InGrid(w.CursorCell(), w.xasc, w.yasc)
  {
    w := new MainWidget();
    assert HitCell(Point(5, 305), 10, 20) == Coord(0, 15);
    w.MousePress(Point(5, 305), OtherButton);
    w.DelRows(0, 1);
  }

  /** delRows with the count capped at the rows left after `place`: the
      corrected deletion, which needs nothing of its caller. */
  method DelRowsFitted(w: MainWidget, place: int, n: int)
    requires w.Valid()
    modifies w
    ensures w.Valid()
    ensures w.xasc == old(w.xasc) && w.CursorCell() == old(w.CursorCell()) && w.Config() == old(w.Config())
    ensures n <= 0 ==> (w.yasc == old(w.yasc) && w.text == old(w.text) &&
      w.background == old(w.background) && w.foreground == old(w.foreground))
    ensures n > 0 ==> (
      var p := ClampPlace(place, old(w.yasc));
      var m := FitCount(p, n, old(w.yasc));
      w.yasc == old(w.yasc) - m &&
      w.text == RemoveRun(old(w.text), p, m) &&
      w.background == RemoveRun(old(w.background), p, m) &&
      w.foreground == RemoveRun(old(w.foreground), p, m))
  {
    if n <= 0 {
      return;
    }
    var p := ClampPlace(place, w.yasc);
    var m := FitCount(p, n, w.yasc);
    if m == 0 {
      assert old(w.text) == RemoveRun(old(w.text), p, 0);
      assert old(w.background) == RemoveRun(old(w.background), p, 0);
      assert old(w.foreground) == RemoveRun(old(w.foreground), p, 0);
      return;
    }
    w.DelRows(p, m);
  }

  /** delColumns with the count capped at the columns left after `place`. */
  method DelColumnsFitted(w: MainWidget, place: int, n: int)
    requires w.Valid()
    modifies w
    ensures w.Valid()
    ensures w.yasc == old(w.yasc) && w.CursorCell() == old(w.CursorCell()) && w.Config() == old(w.Config())
    ensures n <= 0 ==> (w.xasc == old(w.xasc) && w.text == old(w.text) &&
      w.background == old(w.background) && w.foreground == old(w.foreground))
    ensures n > 0 ==> (
      var p := ClampPlace(place, old(w.xasc));
      var m := FitCount(p, n, old(w.xasc));
      w.xasc == old(w.xasc) - m &&
      w.text == DeleteColumns(old(w.text), p, m) &&
      w.background == DeleteColumns(old(w.background), p, m) &&
      w.foreground == DeleteColumns(old(w.foreground), p, m))
  {
    if n <= 0 {
      return;
    }
    var p := ClampPlace(place, w.xasc);
    var m := FitCount(p, n, w.xasc);
    if m == 0 {
      NoColumnsDeleted(old(w.text), p);
      NoColumnsDeleted(old(w.background), p);
      NoColumnsDeleted(old(w.foreground), p);
      return;
    }
    w.DelColumns(p, m);
  }

  /** Inserting `n` rows at a place inside the grid and deleting `n` rows
      at the same place gives back the canvas as it was. */
  method AddThenDelRows(w: MainWidget, place: int, n: int)
    requires w.Valid() && place <= w.yasc
    modifies w
    ensures w.Valid() && w.Config() == old(w.Config()) && w.CursorCell() == old(w.CursorCell())
    ensures w.xasc == old(w.xasc) && w.yasc == old(w.yasc)
    ensures w.text == old(w.text) && w.background == old(w.background) && w.foreground == old(w.foreground)
  {
    w.AddRows(place, n);
    if n > 0 {
      var p := ClampPlace(place, old(w.yasc));
      assert ClampPlace(place, w.yasc) == p;
      InsertThenRemoveRun(old(w.text), p, n, Repeat(' ', w.xasc));
      InsertThenRemoveRun(old(w.background), p, n, Repeat(w.bgColor, w.xasc));
      InsertThenRemoveRun(old(w.foreground), p, n, Repeat(w.fgColor, w.xasc));
    }
    w.DelRows(place, n);
  }

  /** Inserting `n` columns at a place inside the grid and deleting `n`
      columns at the same place gives back the canvas as it was. */
  method AddThenDelColumns(w: MainWidget, place: int, n: int)
    requires w.Valid() && place <= w.xasc
    modifies w
    ensures w.Valid() && w.Config() == old(w.Config()) && w.CursorCell() == old(w.CursorCell())
    ensures w.xasc == old(w.xasc) && w.yasc == old(w.yasc)
    ensures w.text == old(w.text) && w.background == old(w.background) && w.foreground == old(w.foreground)
  {
    w.AddColumns(place, n);
    if n > 0 {
      var p := ClampPlace(place, old(w.xasc));
      assert ClampPlace(place, w.xasc) == p;
      InsertThenDeleteColumns(old(w.text), p, n, ' ');
      InsertThenDeleteColumns(old(w.background), p, n, w.bgColor);
      InsertThenDeleteColumns(old(w.foreground), p, n, w.fgColor);
    }
    w.DelColumns(place, n);
  }

  /** A place past the last row breaks the round trip: addRows clamps it to
      the old row count and inserts there, but delRows clamps it to the new
      row count, so the range it would delete runs past the last row and
      delRows' precondition fails. */
  lemma AddDelPlacesDiffer(place: int, rows: int, n: int)
    requires 0 <= rows < place && 0 < n
    ensures ClampPlace(place, rows) == rows
    ensures ClampPlace(place, rows + n) + ClampCount(n, rows + n) > rows + n
  {
  }
}
