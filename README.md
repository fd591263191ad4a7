# IRC-Paint canvas in Dafny

This project models `MainWidget`, the canvas widget of IRC-Paint, a Qt editor for coloured ASCII art. The canvas is a grid of `xasc` columns by `yasc` rows. It keeps three layers of that shape:

- `text`, a list of rows of glyphs;
- `background` and `foreground`, two colour images.

On top of these sit:

- a keyboard cursor `(lastx, lasty)`;
- the drawing colours `bgColor` and `fgColor`;
- the cell size `xsize` x `ysize` in pixels;
- the grid-line flag `showGrid`.

The widget reacts to key presses, mouse presses, drags and releases. It inserts and deletes whole rows and columns in all three layers at once. It also computes where a cell is painted and how large the widget wants to be.

Files:

- `layers.dfy` (module `Layers`): the layers as lists of rows, and the list operations the widget applies to them. It proves where every cell ends up, that insert-then-delete round trips, and that all three layers keep one shape.
- `geometry.dfy` (module `Geometry`): C++ truncating division, the hit test `(x / xsize, y / ysize)`, `pixelRect` and `sizeHint`, with what is proved about them.
- `cursor.dfy` (module `Cursor`): the cursor's transitions under each key, compared with an independent description that numbers the cells in reading order.
- `main_widget.dfy` (module `Canvas`): the widget itself, as the class `MainWidget`. Its fields are updated in place as the C++ does. It also holds the loops of the four structural edits: snapshot the images into lists, insert or remove, rebuild the images. These are written as methods over values, each proved against the list operations of `Layers`.
- `session.dfy` (module `Session`): sequences of calls on the widget.
  - Typing "HI" on a fresh canvas.
  - Add-then-delete round trips.
  - A deletion that leaves the cursor outside the grid.
  - Deletions whose count is capped so that the range stays inside the grid.

Conventions:

- Cell (i, j) is column `i`, row `j`. It is `text[j][i]`, and `background.pixel(i, j)` is `background[j][i]`.
- A `QRgb` is a `bv32`. `Qt::gray` is `#a0a0a4`.
- A key event is the first character of its text, whether `QChar::isPrint` holds of it, and its key code. The window system supplies all three.

Facts about the code that the model makes explicit:

- C++ division truncates toward zero, so a pixel `x` in `(-xsize, 0)` maps to column 0, which is inside the grid (`HitInGridIff`, `HitCellExamples`).
- Hit-testing is only a one-way inverse of `pixelRect`: every painted pixel of a cell hits that cell (`HitOfPixelInRect`). With the grid shown, the grid-line pixel at a cell's top-left corner also hits the cell but is not painted with it (`GridLineHitsCellOutsideRect`).
- No structural edit touches `lastx` and `lasty`, so a deletion can leave the cursor outside the grid (`CursorOutlivesDelete`).
- `delRows` and `delColumns` cap `n` at the whole row or column count, not at the count left after `place` (see Findings).

## Model

| member | source | states |
|---|---|---|
| Layers.Repeat | MainWidget.cpp:26-28 | the row built by appending `v` `n` times has length `n` and holds only `v` |
| Layers.Fill | MainWidget.cpp:21-24 | a filled `cols` x `rows` image has that shape, and every cell holds the fill value |
| Layers.SetCell | MainWidget.cpp:220 | setting one cell keeps the row lengths, puts the value in that cell, and changes no other cell |
| Layers.Contains | MainWidget.cpp:219 | `QImage::rect().contains(i, j)`: on a `cols` x `rows` layer, it holds exactly when `0 <= i < cols` and `0 <= j < rows` |
| Layers.Insert | MainWidget.cpp:269 | `QList::insert(k, v)`: the list grows by one, `v` is at `k`, the elements before `k` stay, and the rest move up by one |
| Layers.RemoveAt | MainWidget.cpp:309 | `QList::removeAt(k)` inside the list: the list shrinks by one, the elements before `k` stay, and the rest move down by one |
| Layers.SetCellKeepsGrid | MainWidget.cpp:128 | writing one cell keeps a layer at `cols` x `rows` |
| Layers.InsertRunAt | MainWidget.cpp:268-272 | after inserting `n` copies at `k`, elements before `k` are unchanged, `[k, k+n)` hold the copies, and old element `q >= k` is now at `q + n` |
| Layers.RemoveRunAt | MainWidget.cpp:308-312 | after removing `n` elements at `k`, elements before `k` are unchanged and old element `q + n` is now at `q` |
| Layers.InsertRunStep | MainWidget.cpp:268-272 | one more `insert(k, v)` extends an inserted run by one |
| Layers.RemoveRunStep | MainWidget.cpp:308-312 | one more `removeAt(k)` removes one more element |
| Layers.InsertColumnsStep | MainWidget.cpp:346-352 | one pass of the inner loop over the rows inserts one more column |
| Layers.DeleteColumnsStep | MainWidget.cpp:388-394 | one pass of the inner loop over the rows removes one more column |
| Layers.NoColumnsInserted | MainWidget.cpp:346 | before the first pass, no column has been inserted |
| Layers.NoColumnsDeleted | MainWidget.cpp:388 | before the first pass, no column has been removed |
| Layers.InsertThenRemoveRun | MainWidget.cpp:268-311 | removing the `n` elements just inserted at `k` gives the list back |
| Layers.InsertThenDeleteColumns | MainWidget.cpp:346-392 | deleting the `n` columns just inserted at `k` gives every row back |
| Layers.InsertRowsKeepsGrid | MainWidget.cpp:268-283 | inserting `n` rows of length `cols` turns a `cols` x `rows` layer into `cols` x `rows + n` |
| Layers.DeleteRowsKeepsGrid | MainWidget.cpp:308-323 | removing `n` rows inside the grid leaves `cols` x `rows - n` |
| Layers.InsertColumnsKeepsGrid | MainWidget.cpp:346-363 | inserting `n` cells in every row leaves `cols + n` x `rows` |
| Layers.DeleteColumnsKeepsGrid | MainWidget.cpp:388-405 | removing `n` cells from every row leaves `cols - n` x `rows`, and every row has the cells to remove |
| Geometry.Quot | MainWidget.cpp:72-73 | C++ division by a positive divisor: `q*b <= a < q*b + b` for `a >= 0`, `q*b - b < a <= q*b` for `a < 0` |
| Geometry.QuotUnique | MainWidget.cpp:72-73 | for `a >= 0` the quotient is the only `q` with `q*b <= a < q*b + b` |
| Geometry.QuotInRange | MainWidget.cpp:72-74 | the quotient is a valid index below `n` if and only if `a` lies in `(-b, b*n)` |
| Geometry.HitCell | MainWidget.cpp:72-73 | the hit cell's column is the `i` with `i*xsize <= x < i*xsize + xsize` for `x >= 0`, and with `i*xsize - xsize < x <= i*xsize` for `x < 0` (truncating division); the same for rows |
| Geometry.PixelRect | MainWidget.cpp:235-241 | a cell's rectangle ends where the next cell begins, and starts at the cell's corner, one pixel further in on each axis when the grid is shown |
| Geometry.SizeHint | MainWidget.cpp:64-69 | the size hint is the cells' extent on each axis, plus one pixel for the closing grid line when it is shown |
| Geometry.HitInGridIff | MainWidget.cpp:71-76 | a mouse position hits a cell of the grid if and only if it lies in `(-xsize, xsize*cols) x (-ysize, ysize*rows)` |
| Geometry.HitOfPixelInRect | MainWidget.cpp:235-241 | every pixel of a cell's painted rectangle hits that cell |
| Geometry.GridLineHitsCellOutsideRect | MainWidget.cpp:235-237 | with the grid shown, a cell's top-left grid-line pixel hits the cell but lies outside its painted rectangle |
| Geometry.PixelRectsDisjoint | MainWidget.cpp:235-241 | the painted rectangles of two different cells never share a pixel |
| Geometry.AxisCovers | MainWidget.cpp:64-69 | along one axis, every cell's painted extent lies within the size hint, and the last ends where the closing grid line begins |
| Geometry.SizeHintCoversCells | MainWidget.cpp:64-69 | the size hint contains every cell's painted rectangle, with exactly one pixel left for the closing grid line when it is shown |
| Geometry.HitCellExamples | MainWidget.cpp:71-76 | (15, 25) hits (1, 1) on 10 x 20 cells; (-1, 5) hits (0, 0), which is in the grid; (10000, 10000) is outside a 26 x 16 grid |
| Cursor.Advance | MainWidget.cpp:131-136 | typing keeps a cursor in the grid in it, and either stays in the row or lands in column 0 |
| Cursor.Retreat | MainWidget.cpp:141-146 | Backspace keeps a cursor in the grid in it, and either stays in the row or lands in the last column |
| Cursor.NewLine | MainWidget.cpp:152-155 | Enter/Return lands in column 0 of a row of the grid |
| Cursor.NextCursor | MainWidget.cpp:125-183 | an arrow key moves the cursor by at most one cell along one axis; a key that is neither printable nor handled leaves it |
| Cursor.AdvanceIsNextCell | MainWidget.cpp:131-136 | typing moves the cursor to the next cell in reading order, from the last cell back to the first, and keeps it in the grid |
| Cursor.RetreatIsPreviousCell | MainWidget.cpp:141-146 | Backspace moves the cursor to the previous cell in reading order, from the first cell to the last, and keeps it in the grid |
| Cursor.RetreatUndoesAdvance | MainWidget.cpp:131-146 | the Backspace move undoes the typing move, and the typing move undoes the Backspace move |
| Cursor.NewLineIsNextRowStart | MainWidget.cpp:149-155 | Enter/Return moves to the first cell of the next row, and from the last row to the first cell of the grid |
| Cursor.ArrowMovesOrStays | MainWidget.cpp:157-180 | an arrow key moves the cursor to the neighbouring cell in its direction when that cell is in the grid, and otherwise leaves it |
| Cursor.KeyKeepsCursorInGrid | MainWidget.cpp:125-184 | no key event moves a cursor that is in the grid out of it |
| Canvas.ClampPlace | MainWidget.cpp:291-294 | the insertion or deletion place is brought into `[0, hi]`, and is kept when already inside |
| Canvas.ClampCount | MainWidget.cpp:295-296 | a positive count is capped at `hi`: it is `n` or `hi`, and at most both |
| Canvas.DeleteClampOverruns | MainWidget.cpp:295-311 | with 16 rows, place 10 and count 10 pass both clamps, yet the range ends past the last row |
| Canvas.RemoveAtIfIn | MainWidget.cpp:309 | `QList::removeAt(k)` under Qt 4: an index past the end leaves the list as it is; an index inside removes that element, keeping the elements before it and moving the rest down by one |
| Canvas.RemoveRunIfInIsCapped | MainWidget.cpp:308-312 | under Qt 4's `removeAt`, `n` removals at a place `k` inside the list delete exactly the run capped at the end of the list: `n` elements, or all from `k` on when fewer remain |
| Canvas.RemoveRunIfInStopsAtPlace | MainWidget.cpp:308-318 | under Qt 4's `removeAt`, which ignores an index out of range, a removal run that passes the end leaves exactly `k` elements, more than the `rows - n` rows delRows gives the rebuilt images |
| Canvas.RemoveRunIfInFits | MainWidget.cpp:308-312 | under Qt 4's `removeAt`, a run of `n` removals at `k` that fits shortens the list by `n` |
| Canvas.FitCount | MainWidget.cpp:295-296 | the corrected cap: at most `n`, keeps `place + m` inside the grid, and is either `n` or exactly what is left after `place` |
| Canvas.FitCountAgrees | MainWidget.cpp:288-311 | wherever the widget's cap keeps the range inside the grid, it equals the corrected cap; no in-grid count exceeds the corrected cap |
| Canvas.SnapshotLayers | MainWidget.cpp:298-307 | reading both images pixel by pixel into lists of rows gives exactly their contents |
| Canvas.RebuildLayers | MainWidget.cpp:313-322 | new images whose every pixel is set from the edited lists equal those lists, for any `cols` x `rows` fresh images, whatever each of their pixels held |
| Canvas.InsertRowsLoop | MainWidget.cpp:268-272 | `n` inserts of the blank rows at `p` insert a run of `n` blank rows at `p` in all three layers |
| Canvas.RemoveRowsLoop | MainWidget.cpp:308-312 | `m` removals at `p` remove rows `[p, p+m)` from all three layers |
| Canvas.InsertCellInRows | MainWidget.cpp:347-351 | the inner loop inserts one blank cell at `p` into every row of every layer |
| Canvas.InsertColumnsLoop | MainWidget.cpp:346-352 | `n` passes insert `n` blank cells at `p` into every row of all three layers |
| Canvas.RemoveCellFromRows | MainWidget.cpp:389-393 | the inner loop removes the cell at `p` from every row of every layer |
| Canvas.RemoveColumnsLoop | MainWidget.cpp:388-394 | `m` passes remove columns `[p, p+m)` from every row of all three layers |
| Canvas.AddRowsToLayers | MainWidget.cpp:251-282 | addRows after the clamp: blank rows in the drawing colours at `p` in all three layers, all now `cols` x `rows + n` |
| Canvas.DelRowsFromLayers | MainWidget.cpp:298-322 | delRows after the clamps: rows `[p, p+m)` gone from all three layers, all now `cols` x `rows - m` |
| Canvas.AddColumnsToLayers | MainWidget.cpp:336-362 | addColumns after the clamp: blank columns in the drawing colours at `p` in all three layers, all now `cols + n` x `rows` |
| Canvas.DelColumnsFromLayers | MainWidget.cpp:378-404 | delColumns after the clamps: columns `[p, p+m)` gone from every row of all three layers, all now `cols - m` x `rows` |
| Canvas.MainWidget.Valid | MainWidget.cpp:21-31 | the widget's invariant: every cell of the `xasc` x `yasc` grid is in all three layers, and every cell of the glyph layer is in the grid |
| Canvas.MainWidget.constructor | MainWidget.cpp:5-32 | a 26 x 16 grid of spaces with white background and black foreground layers, black and gray drawing colours, yellow selection colour, 10 x 20 cells, grid shown, cursor at (0, 0) |
| Canvas.MainWidget.SetGrid | MainWidget.cpp:34-40 | the grid flag becomes `g`, and nothing else changes |
| Canvas.MainWidget.SetRectWidth | MainWidget.cpp:42-51 | the cell width becomes `x`, or 1 when `x < 1`; nothing else changes |
| Canvas.MainWidget.SetRectHeight | MainWidget.cpp:53-62 | the cell height becomes `y`, or 1 when `y < 1`; nothing else changes |
| Canvas.MainWidget.SetBGImagePixel | MainWidget.cpp:215-223 | the background of the hit cell becomes `bgColor` if the image contains that cell; otherwise nothing changes |
| Canvas.MainWidget.SetFGImagePixel | MainWidget.cpp:225-233 | the foreground of the hit cell becomes `fgColor` if the image contains that cell; otherwise nothing changes |
| Canvas.MainWidget.MousePress | MainWidget.cpp:71-90 | outside the grid nothing changes; inside, the cursor moves to the hit cell, the left button paints its background, the right its foreground, and no glyph changes |
| Canvas.MainWidget.MouseMove | MainWidget.cpp:92-111 | as a press, but from the set of held buttons: left takes priority over right |
| Canvas.MainWidget.MouseRelease | MainWidget.cpp:113-123 | inside the grid the cursor moves to the hit cell; nothing is painted |
| Canvas.MainWidget.KeyPress | MainWidget.cpp:125-184 | the cursor follows `NextCursor`; a printable character is written at the old cursor; Backspace blanks the cell at the new cursor; other keys change no glyph; a cursor in the grid stays in it |
| Canvas.MainWidget.TypeChar | MainWidget.cpp:127-137 | the glyph under the cursor becomes `c`, and the cursor advances with wrap-around |
| Canvas.MainWidget.EraseBack | MainWidget.cpp:138-148 | the cursor retreats with wrap-around, and the glyph it lands on becomes a space |
| Canvas.MainWidget.MoveCursor | MainWidget.cpp:149-183 | Enter/Return and the arrow keys move the cursor as `NextCursor` says; no layer changes |
| Canvas.MainWidget.AddRows | MainWidget.cpp:243-286 | `n <= 0` changes nothing; otherwise `n` blank rows go in at the clamped place in all three layers, `yasc` grows by `n`, and the cursor stays |
| Canvas.MainWidget.DelRows | MainWidget.cpp:288-326 | `n <= 0` changes nothing; otherwise rows `[place, place+n)` (both clamped) go from all three layers, and `yasc` drops by the capped count |
| Canvas.MainWidget.AddColumns | MainWidget.cpp:328-366 | `n <= 0` changes nothing; otherwise every row of every layer gets `n` blank cells at the clamped place, and `xasc` grows by `n` |
| Canvas.MainWidget.DelColumns | MainWidget.cpp:368-408 | `n <= 0` changes nothing; otherwise columns `[place, place+n)` (both clamped) go from every row of every layer, and `xasc` drops by the capped count |
| Session.TypeHI | MainWidget.cpp:125-137 | on the default canvas, typing "HI" puts 'H' at (0, 0) and 'I' at (1, 0), leaves every other glyph a space, and moves the cursor to (2, 0) |
| Session.CursorOutlivesDelete | MainWidget.cpp:288-326 | clicking the last row and deleting row 0 leaves the cursor outside the grid |
| Session.DelRowsFitted | MainWidget.cpp:288-311 | deleting rows with the corrected cap always stays inside the grid and removes `FitCount` rows |
| Session.DelColumnsFitted | MainWidget.cpp:368-393 | deleting columns with the corrected cap always stays inside the grid and removes `FitCount` columns |
| Session.AddThenDelRows | MainWidget.cpp:243-326 | for `place <= yasc`, addRows(place, n) then delRows(place, n) restores all three layers and `yasc` |
| Session.AddThenDelColumns | MainWidget.cpp:328-408 | for `place <= xasc`, addColumns(place, n) then delColumns(place, n) restores all three layers and `xasc` |
| Session.AddDelPlacesDiffer | MainWidget.cpp:243-294 | for every row count and every place past the last row and every positive `n`, addRows clamps the place to the old row count while delRows clamps it to the new one, and the range delRows would then delete runs past the last row; so the add-then-delete round trip needs `place <= yasc` |

## Left out

- `paintEvent` (MainWidget.cpp:186-213) is not modelled: it only renders. The field `selColor` is kept and the constructor sets it to yellow, but only painting reads it (MainWidget.cpp:210, the outline around the cursor cell), so no modelled operation uses it.
- `update()` and `updateGeometry()`, and the forwarding of unhandled events to `QWidget`, only schedule repaints or delegate to the base class. They are no-ops here.
- The key event's text is decoded outside the model: `event->text()[0]` and `QChar::isPrint` arrive as the `ch` and `printable` fields of `KeyEvent`. `OtherKey` stands for every key code not named.
- Glyphs are Dafny `char`s, which hold Unicode scalar values, while a `QChar` is a UTF-16 code unit. So the lone surrogate that `text()[0]` gives for a character outside the Basic Multilingual Plane cannot be held. No modelled operation depends on a glyph's value beyond storing it.
- Mouse buttons are `LeftButton`, `RightButton` and `OtherButton`. A drag's held buttons are a set.
- The fresh `QImage`s the edits allocate hold undefined pixels. `RebuildLayers` is proved for any fresh images of the right shape; the four edits pass it images filled with 0 as one instance.
- Canvas.MainWidget.KeyPress: it requires the cell it writes to be in the grid, because `text[lasty][lastx]` out of range is undefined behaviour in the source. This only bites after a deletion has left the cursor outside the grid.
- Canvas.MainWidget.DelRows: it requires the clamped place plus the capped count to stay inside the grid. Past the end, what `removeAt` does depends on the Qt version: Qt 4 ignores the index, so the glyph list keeps `place` rows while the images and `yasc` get `yasc - n` (`RemoveRunIfInStopsAtPlace`); later Qt versions assert. See Findings.
- Canvas.MainWidget.DelColumns: like DelRows, it requires the clamped place plus the capped count to stay inside the grid, here whenever there is at least one row. Past the end the same Qt-version-dependent `removeAt` behaviour applies to every row.
- Geometry.SizeHint: Dafny's `int` is unbounded, while the C++ computes `xsize*xasc` and `ysize*yasc` in 32-bit signed `int`. Their overflow (say after `setRectWidth(INT_MAX)`) is not modelled.
- Geometry.PixelRect: `xsize * i + 1` and `ysize * j + 1` are unbounded here. 32-bit signed overflow of these sums is not modelled.
- Geometry.AxisCovers: it holds of unbounded integers. Where the C++ products overflow 32 bits it says nothing about the C++.
- Geometry.SizeHintCoversCells: it holds of unbounded integers. Where the C++ products overflow 32 bits it says nothing about the C++.
- Canvas.MainWidget.SetRectWidth: the cell width has no upper bound here, as in the C++. The overflow that a huge width causes later in `sizeHint` and `pixelRect` is not modelled.
- Canvas.MainWidget.SetRectHeight: the same as SetRectWidth, for the cell height.
- Canvas.MainWidget.AddRows: `yasc + n` is unbounded here. In the C++ (MainWidget.cpp:273, 283) it is 32-bit signed `int` and can overflow; that is not modelled.
- Canvas.MainWidget.AddColumns: `xasc + n` is unbounded here. In the C++ (MainWidget.cpp:353, 363) it is 32-bit signed `int` and can overflow; that is not modelled.
- The pixel format (`QImage::Format_ARGB32`) and widget attributes, size policy and focus policy are not modelled.
- MainWindow.h is not part of this model. It declares the main window and its menus, file dialogs, undo stack and settings. Its colour quantiser (`rgbToLab`, `closestColor`) works in floating point and has no visible bodies, and neither do the ANSI/HTML exporters and importers.

## Findings

| source | as written | input that shows it | evidently intended | confidence | as-written member | corrected member |
|---|---|---|---|---|---|---|
| MainWidget.cpp:295-296 | `delRows` caps `n` at `yasc`, not at `yasc - place`; `delColumns` (MainWidget.cpp:375-376) does the same with `xasc` | `delRows(10, 10)` on 16 rows: the seventh `text.removeAt(10)` indexes a list of 10 rows. Qt 4 ignores it, leaving 10 glyph rows beside 6-row images; later Qt versions assert | delete the rows from `place` to the end when fewer than `n` remain | not executed; high | Canvas.DeleteClampOverruns | Canvas.FitCount |
