/** The canvas widget of the colored-ASCII-art editor: a grid of `xasc`
    columns by `yasc` rows held in three parallel layers -- the glyphs
    `text`, and the `background` and `foreground` colour images -- plus the
    cursor, the current drawing colours and the cell size.

    The layers are lists of rows: glyph (i, j) is `text[j][i]` and
    `background.pixel(i, j)` is `background[j][i]`. */
module Canvas {
  import opened Layers
  import opened Geometry
  import opened Cursor

  /** A `QRgb`: 32 bits, 0xAARRGGBB. */
  type Rgb = bv32

  const White: Rgb := 0xFFFF_FFFF   // qRgba(255, 255, 255, 255)
  const Black: Rgb := 0xFF00_0000   // Qt::black
  const Gray: Rgb := 0xFFA0_A0A4    // Qt::gray
  const Yellow: Rgb := 0xFFFF_FF00  // Qt::yellow

  datatype MouseButton = LeftButton | RightButton | OtherButton

  /** `place` brought into [0, hi], as the resize operations do first. */
  function ClampPlace(place: int, hi: int): (p: int)
    requires 0 <= hi
    ensures 0 <= p <= hi
    ensures 0 <= place <= hi ==> p == place
    ensures place < 0 ==> p == 0
    ensures place > hi ==> p == hi
  {
    if place < 0 then 0 else if place > hi then hi else place
  }

  /** A positive count `n` capped at `hi`, as delRows and delColumns do. */
  function ClampCount(n: int, hi: int): (m: int)
    requires 0 < n && 0 <= hi
    ensures 0 <= m <= hi && m <= n
    ensures m == n || m == hi
  {
    if n > hi then hi else n
  }

  /** delRows and delColumns cap `n` at the whole count `hi`, not at what
      is left after `place`: with 16 rows, `delRows(10, 10)` keeps `n` at
      10 and its seventh `removeAt(10)` indexes past the end of the list. */
  lemma DeleteClampOverruns()
    ensures ClampPlace(10, 16) + ClampCount(10, 16) > 16
  {
  }

  /** `QList::removeAt(k)` as Qt 4 implements it: an index out of range is
      ignored. */
  function RemoveAtIfIn<T>(s: seq<T>, k: nat): (r: seq<T>)
    ensures k >= |s| ==> r == s
    ensures k < |s| ==> |r| == |s| - 1 && r[..k] == s[..k] && r[k..] == s[k + 1..]
  {
    if k < |s| then RemoveAt(s, k) else s
  }

  /** The removal loop of delRows and delColumns, `n` times `removeAt(k)`,
      under Qt 4's `removeAt`. */
  function RemoveRunIfIn<T>(s: seq<T>, k: nat, n: nat): seq<T>
  {
    if n == 0 then s else RemoveAtIfIn(RemoveRunIfIn(s, k, n - 1), k)
  }

  /** Under Qt 4's `removeAt`, when the capped count runs past the end the
      removal loop stops shrinking the list at `k` entries, while delRows
      still sizes the rebuilt images and `yasc` at `|s| - n` rows: the
      glyph layer and the colour layers no longer have the same shape. */
  lemma {:induction false} RemoveRunIfInStopsAtPlace<T>(s: seq<T>, k: nat, n: nat)
    requires k <= |s| < k + n
    ensures |RemoveRunIfIn(s, k, n)| == k && k > |s| - n
  {
    if n > 0 {
      if |s| < k + n - 1 {
        RemoveRunIfInStopsAtPlace(s, k, n - 1);
      } else {
        RemoveRunIfInFits(s, k, n - 1);
      }
    }
  }

  /** Under Qt 4's `removeAt` the removal loop deletes the run capped at
      the end of the list: exactly the corrected deletion. */
  lemma {:induction false} RemoveRunIfInIsCapped<T>(s: seq<T>, k: nat, n: nat)
    requires k <= |s|
    ensures RemoveRunIfIn(s, k, n) == RemoveRun(s, k, if k + n <= |s| then n else |s| - k)
  {
    if n > 0 {
      RemoveRunIfInIsCapped(s, k, n - 1);
      if k + n <= |s| {
        RemoveRunStep(s, k, n - 1);
      } else if k + n - 1 <= |s| {
        RemoveRunAt(s, k, n - 1);
      }
    }
  }

  /** While the run fits, the Qt 4 loop removes exactly the run. */
  lemma {:induction false} RemoveRunIfInFits<T>(s: seq<T>, k: nat, n: nat)
    requires k + n <= |s|
    ensures |RemoveRunIfIn(s, k, n)| == |s| - n
  {
    if n > 0 {
      RemoveRunIfInFits(s, k, n - 1);
    }
  }

  /** The cap the deletions need: at most what is left after `place`. */
  function FitCount(place: int, n: int, hi: int): (m: int)
    requires 0 <= place <= hi && 0 < n
    ensures 0 <= m <= n && place + m <= hi
    ensures m == n || place + m == hi
  {
    if place + n > hi then hi - place else n
  }

  /** Wherever the widget's own cap keeps the range inside the grid -- the
      precondition of DelRows and DelColumns -- it agrees with FitCount, and
      FitCount deletes as many as possible without leaving the grid. */
  lemma FitCountAgrees(place: int, n: int, hi: int, m: int)
    requires 0 <= hi && 0 < n
    requires 0 <= m <= n && ClampPlace(place, hi) + m <= hi
    ensures ClampPlace(place, hi) + ClampCount(n, hi) <= hi ==> FitCount(ClampPlace(place, hi), n, hi) == ClampCount(n, hi)
    ensures m <= FitCount(ClampPlace(place, hi), n, hi)
  {
  }

  // ---------------------------------------------------------------------
  // The loops of the structural edits. Each edits the glyph layer and the
  // two colour layers together, as the widget's loops over `text`, `bg`
  // and `fg` do.

  /** The first loop of every structural edit: the two colour images are
      read pixel by pixel into lists of rows. */
  method SnapshotLayers(background: seq<seq<Rgb>>, foreground: seq<seq<Rgb>>, cols: nat, rows: nat)
    returns (bg: seq<seq<Rgb>>, fg: seq<seq<Rgb>>)
    requires IsGrid(background, cols, rows) && IsGrid(foreground, cols, rows)
    ensures bg == background && fg == foreground
  {
    bg, fg := [], [];
    var j := 0;
    while j < rows
      invariant 0 <= j <= rows
      invariant bg == background[..j] && fg == foreground[..j]
    {
      var a: seq<Rgb>, b: seq<Rgb> := [], [];
      var i := 0;
      while i < cols
        invariant 0 <= i <= cols
        invariant a == background[j][..i] && b == foreground[j][..i]
      {
        a, b := a + [background[j][i]], b + [foreground[j][i]];
        i := i + 1;
      }
      assert a == background[j] && b == foreground[j];
      bg, fg := bg + [a], fg + [b];
      j := j + 1;
    }
    assert background[..rows] == background && foreground[..rows] == foreground;
  }

  /** The last loop of every structural edit: two fresh `cols` x `rows`
      images, every pixel of which is then set from the edited lists. A
      fresh `QImage` holds undefined pixels: `fresh0` and `fresh1` are any
      such images, and every one of their pixels is overwritten. */
  method RebuildLayers(bg: seq<seq<Rgb>>, fg: seq<seq<Rgb>>, cols: nat, rows: nat,
                       fresh0: seq<seq<Rgb>>, fresh1: seq<seq<Rgb>>)
    returns (newbg: seq<seq<Rgb>>, newfg: seq<seq<Rgb>>)
    requires IsGrid(bg, cols, rows) && IsGrid(fg, cols, rows)
    requires IsGrid(fresh0, cols, rows) && IsGrid(fresh1, cols, rows)
    ensures newbg == bg && newfg == fg
  {
    newbg, newfg := fresh0, fresh1;
    var j := 0;
    while j < rows
      invariant 0 <= j <= rows
      invariant IsGrid(newbg, cols, rows) && IsGrid(newfg, cols, rows)
      invariant forall r :: 0 <= r < j ==> newbg[r] == bg[r] && newfg[r] == fg[r]
      invariant forall r :: j <= r < rows ==> newbg[r] == fresh0[r] && newfg[r] == fresh1[r]
    {
      var i := 0;
      while i < cols
        invariant 0 <= i <= cols
        invariant IsGrid(newbg, cols, rows) && IsGrid(newfg, cols, rows)
        invariant forall r :: 0 <= r < j ==> newbg[r] == bg[r] && newfg[r] == fg[r]
        invariant forall r :: j < r < rows ==> newbg[r] == fresh0[r] && newfg[r] == fresh1[r]
        invariant newbg[j][..i] == bg[j][..i] && newfg[j][..i] == fg[j][..i]
      {
        newbg := SetCell(newbg, i, j, bg[j][i]);
        newfg := SetCell(newfg, i, j, fg[j][i]);
        i := i + 1;
        assert newbg[j][..i] == newbg[j][..i - 1] + [bg[j][i - 1]];
        assert bg[j][..i] == bg[j][..i - 1] + [bg[j][i - 1]];
        assert newfg[j][..i] == newfg[j][..i - 1] + [fg[j][i - 1]];
        assert fg[j][..i] == fg[j][..i - 1] + [fg[j][i - 1]];
      }
      assert newbg[j] == newbg[j][..cols] && bg[j] == bg[j][..cols];
      assert newfg[j] == newfg[j][..cols] && fg[j] == fg[j][..cols];
      j := j + 1;
    }
  }

  /** addRows' loop: `n` times, a blank row is inserted before row `p` of
      every layer. */
  method InsertRowsLoop<A, B>(t: seq<seq<A>>, bg: seq<seq<B>>, fg: seq<seq<B>>, p: nat, n: nat,
                              textl: seq<A>, bgRow: seq<B>, fgRow: seq<B>)
    returns (t': seq<seq<A>>, bg': seq<seq<B>>, fg': seq<seq<B>>)
    requires p <= |t| && p <= |bg| && p <= |fg|
    ensures t' == InsertRun(t, p, n, textl)
    ensures bg' == InsertRun(bg, p, n, bgRow)
    ensures fg' == InsertRun(fg, p, n, fgRow)
  {
    t', bg', fg' := t, bg, fg;
    var i := 0;
    while i < n
      invariant 0 <= i <= n
      invariant t' == InsertRun(t, p, i, textl)
      invariant bg' == InsertRun(bg, p, i, bgRow)
      invariant fg' == InsertRun(fg, p, i, fgRow)
    {
      InsertRunStep(t, p, i, textl);
      InsertRunStep(bg, p, i, bgRow);
      InsertRunStep(fg, p, i, fgRow);
      t', bg', fg' := Insert(t', p, textl), Insert(bg', p, bgRow), Insert(fg', p, fgRow);
      i := i + 1;
    }
  }

  /** delRows' loop: `m` times, row `p` is removed from every layer. */
  method RemoveRowsLoop<A, B>(t: seq<seq<A>>, bg: seq<seq<B>>, fg: seq<seq<B>>, p: nat, m: nat)
    returns (t': seq<seq<A>>, bg': seq<seq<B>>, fg': seq<seq<B>>)
    requires p + m <= |t| && p + m <= |bg| && p + m <= |fg|
    ensures t' == RemoveRun(t, p, m)
    ensures bg' == RemoveRun(bg, p, m)
    ensures fg' == RemoveRun(fg, p, m)
  {
    t', bg', fg' := t, bg, fg;
    var i := 0;
    while i < m
      invariant 0 <= i <= m
      invariant t' == RemoveRun(t, p, i)
      invariant bg' == RemoveRun(bg, p, i)
      invariant fg' == RemoveRun(fg, p, i)
    {
      RemoveRunStep(t, p, i);
      RemoveRunStep(bg, p, i);
      RemoveRunStep(fg, p, i);
      t', bg', fg' := RemoveAt(t', p), RemoveAt(bg', p), RemoveAt(fg', p);
      i := i + 1;
    }
  }

  /** One pass of addColumns' inner loop: every row of every layer gets a
      blank cell before column `p`. */
  method InsertCellInRows<A, B>(t: seq<seq<A>>, bg: seq<seq<B>>, fg: seq<seq<B>>, p: nat,
                                blank: A, bgColor: B, fgColor: B)
    returns (t': seq<seq<A>>, bg': seq<seq<B>>, fg': seq<seq<B>>)
    requires |bg| == |fg| == |t|
    requires forall j :: 0 <= j < |t| ==> p <= |t[j]| && p <= |bg[j]| && p <= |fg[j]|
    ensures |t'| == |bg'| == |fg'| == |t|
    ensures forall r :: 0 <= r < |t| ==> t'[r] == Insert(t[r], p, blank)
    ensures forall r :: 0 <= r < |t| ==> bg'[r] == Insert(bg[r], p, bgColor)
    ensures forall r :: 0 <= r < |t| ==> fg'[r] == Insert(fg[r], p, fgColor)
  {
    t', bg', fg' := t, bg, fg;
    var j := 0;
    while j < |t|
      invariant 0 <= j <= |t|
      invariant |t'| == |bg'| == |fg'| == |t|
      invariant forall r :: 0 <= r < |t| ==> t'[r] == if r < j then Insert(t[r], p, blank) else t[r]
      invariant forall r :: 0 <= r < |t| ==> bg'[r] == if r < j then Insert(bg[r], p, bgColor) else bg[r]
      invariant forall r :: 0 <= r < |t| ==> fg'[r] == if r < j then Insert(fg[r], p, fgColor) else fg[r]
    {
      t' := t'[j := Insert(t'[j], p, blank)];
      bg' := bg'[j := Insert(bg'[j], p, bgColor)];
      fg' := fg'[j := Insert(fg'[j], p, fgColor)];
      j := j + 1;
    }
  }

  /** addColumns' loops: `n` times, for every row, a blank cell is inserted
      before column `p` of that row in every layer. */
  method InsertColumnsLoop<A, B>(t: seq<seq<A>>, bg: seq<seq<B>>, fg: seq<seq<B>>, p: nat, n: nat,
                                 blank: A, bgColor: B, fgColor: B)
    returns (t': seq<seq<A>>, bg': seq<seq<B>>, fg': seq<seq<B>>)
    requires |bg| == |fg| == |t|
    requires forall j :: 0 <= j < |t| ==> p <= |t[j]| && p <= |bg[j]| && p <= |fg[j]|
    ensures t' == InsertColumns(t, p, n, blank)
    ensures bg' == InsertColumns(bg, p, n, bgColor)
    ensures fg' == InsertColumns(fg, p, n, fgColor)
  {
    NoColumnsInserted(t, p, blank);
    NoColumnsInserted(bg, p, bgColor);
    NoColumnsInserted(fg, p, fgColor);
    t', bg', fg' := t, bg, fg;
    var i := 0;
    while i < n
      invariant 0 <= i <= n
      invariant t' == InsertColumns(t, p, i, blank)
      invariant bg' == InsertColumns(bg, p, i, bgColor)
      invariant fg' == InsertColumns(fg, p, i, fgColor)
    {
      var t1, bg1, fg1 := InsertCellInRows(t', bg', fg', p, blank, bgColor, fgColor);
      InsertColumnsStep(t, p, i, blank, t', t1);
      InsertColumnsStep(bg, p, i, bgColor, bg', bg1);
      InsertColumnsStep(fg, p, i, fgColor, fg', fg1);
      t', bg', fg' := t1, bg1, fg1;
      i := i + 1;
    }
  }

  /** One pass of delColumns' inner loop: the cell in column `p` is removed
      from every row of every layer. */
  method RemoveCellFromRows<A, B>(t: seq<seq<A>>, bg: seq<seq<B>>, fg: seq<seq<B>>, p: nat)
    returns (t': seq<seq<A>>, bg': seq<seq<B>>, fg': seq<seq<B>>)
    requires |bg| == |fg| == |t|
    requires forall j :: 0 <= j < |t| ==> p < |t[j]| && p < |bg[j]| && p < |fg[j]|
    ensures |t'| == |bg'| == |fg'| == |t|
    ensures forall r :: 0 <= r < |t| ==> t'[r] == RemoveAt(t[r], p)
    ensures forall r :: 0 <= r < |t| ==> bg'[r] == RemoveAt(bg[r], p)
    ensures forall r :: 0 <= r < |t| ==> fg'[r] == RemoveAt(fg[r], p)
  {
    t', bg', fg' := t, bg, fg;
    var j := 0;
    while j < |t|
      invariant 0 <= j <= |t|
      invariant |t'| == |bg'| == |fg'| == |t|
      invariant forall r :: 0 <= r < |t| ==> t'[r] == if r < j then RemoveAt(t[r], p) else t[r]
      invariant forall r :: 0 <= r < |t| ==> bg'[r] == if r < j then RemoveAt(bg[r], p) else bg[r]
      invariant forall r :: 0 <= r < |t| ==> fg'[r] == if r < j then RemoveAt(fg[r], p) else fg[r]
    {
      t' := t'[j := RemoveAt(t'[j], p)];
      bg' := bg'[j := RemoveAt(bg'[j], p)];
      fg' := fg'[j := RemoveAt(fg'[j], p)];
      j := j + 1;
    }
  }

  /** delColumns' loops: `m` times, for every row, the cell in column `p`
      of that row is removed from every layer. */
  method RemoveColumnsLoop<A, B>(t: seq<seq<A>>, bg: seq<seq<B>>, fg: seq<seq<B>>, p: nat, m: nat)
    returns (t': seq<seq<A>>, bg': seq<seq<B>>, fg': seq<seq<B>>)
    requires |bg| == |fg| == |t|
    requires forall j :: 0 <= j < |t| ==> p + m <= |t[j]| && p + m <= |bg[j]| && p + m <= |fg[j]|
    ensures t' == DeleteColumns(t, p, m)
    ensures bg' == DeleteColumns(bg, p, m)
    ensures fg' == DeleteColumns(fg, p, m)
  {
    NoColumnsDeleted(t, p);
    NoColumnsDeleted(bg, p);
    NoColumnsDeleted(fg, p);
    t', bg', fg' := t, bg, fg;
    var i := 0;
    while i < m
      invariant 0 <= i <= m
      invariant t' == DeleteColumns(t, p, i)
      invariant bg' == DeleteColumns(bg, p, i)
      invariant fg' == DeleteColumns(fg, p, i)
    {
      var t1, bg1, fg1 := RemoveCellFromRows(t', bg', fg', p);
      DeleteColumnsStep(t, p, i, t', t1);
      DeleteColumnsStep(bg, p, i, bg', bg1);
      DeleteColumnsStep(fg, p, i, fg', fg1);
      t', bg', fg' := t1, bg1, fg1;
      i := i + 1;
    }
  }

  // ---------------------------------------------------------------------
  // The four structural edits on the layers themselves: snapshot, edit,
  // rebuild. `p` and the count are already clamped.

  /** The body of addRows after the clamp. */
  method AddRowsToLayers(text: seq<seq<char>>, background: seq<seq<Rgb>>, foreground: seq<seq<Rgb>>,
                         cols: nat, rows: nat, p: nat, n: nat, bgColor: Rgb, fgColor: Rgb)
    returns (t: seq<seq<char>>, newbg: seq<seq<Rgb>>, newfg: seq<seq<Rgb>>)
    requires IsGrid(text, cols, rows) && IsGrid(background, cols, rows) && IsGrid(foreground, cols, rows)
    requires p <= rows
    ensures t == InsertRun(text, p, n, Repeat(' ', cols))
    ensures newbg == InsertRun(background, p, n, Repeat(bgColor, cols))
    ensures newfg == InsertRun(foreground, p, n, Repeat(fgColor, cols))
    ensures IsGrid(t, cols, rows + n) && IsGrid(newbg, cols, rows + n) && IsGrid(newfg, cols, rows + n)
  {
    var bg, fg := SnapshotLayers(background, foreground, cols, rows);
    var textl: seq<char>, bgRow: seq<Rgb>, fgRow: seq<Rgb> := [], [], [];
    var i := 0;
    while i < cols
      invariant 0 <= i <= cols
      invariant textl == Repeat(' ', i) && bgRow == Repeat(bgColor, i) && fgRow == Repeat(fgColor, i)
    {
      textl, bgRow, fgRow := textl + [' '], bgRow + [bgColor], fgRow + [fgColor];
      i := i + 1;
    }
    var bg', fg';
    t, bg', fg' := InsertRowsLoop(text, bg, fg, p, n, textl, bgRow, fgRow);
    InsertRowsKeepsGrid(text, cols, rows, p, n, textl);
    InsertRowsKeepsGrid(bg, cols, rows, p, n, bgRow);
    InsertRowsKeepsGrid(fg, cols, rows, p, n, fgRow);
    newbg, newfg := RebuildLayers(bg', fg', cols, rows + n, Fill(0, cols, rows + n), Fill(0, cols, rows + n));
  }

  /** The body of delRows after the clamps. */
  method DelRowsFromLayers(text: seq<seq<char>>, background: seq<seq<Rgb>>, foreground: seq<seq<Rgb>>,
                           cols: nat, rows: nat, p: nat, m: nat)
    returns (t: seq<seq<char>>, newbg: seq<seq<Rgb>>, newfg: seq<seq<Rgb>>)
    requires IsGrid(text, cols, rows) && IsGrid(background, cols, rows) && IsGrid(foreground, cols, rows)
    requires p + m <= rows
    ensures t == RemoveRun(text, p, m)
    ensures newbg == RemoveRun(background, p, m)
    ensures newfg == RemoveRun(foreground, p, m)
    ensures IsGrid(t, cols, rows - m) && IsGrid(newbg, cols, rows - m) && IsGrid(newfg, cols, rows - m)
  {
    var bg, fg := SnapshotLayers(background, foreground, cols, rows);
    var bg', fg';
    t, bg', fg' := RemoveRowsLoop(text, bg, fg, p, m);
    DeleteRowsKeepsGrid(text, cols, rows, p, m);
    DeleteRowsKeepsGrid(bg, cols, rows, p, m);
    DeleteRowsKeepsGrid(fg, cols, rows, p, m);
    newbg, newfg := RebuildLayers(bg', fg', cols, rows - m, Fill(0, cols, rows - m), Fill(0, cols, rows - m));
  }

  /** The body of addColumns after the clamp. */
  method AddColumnsToLayers(text: seq<seq<char>>, background: seq<seq<Rgb>>, foreground: seq<seq<Rgb>>,
                            cols: nat, rows: nat, p: nat, n: nat, bgColor: Rgb, fgColor: Rgb)
    returns (t: seq<seq<char>>, newbg: seq<seq<Rgb>>, newfg: seq<seq<Rgb>>)
    requires IsGrid(text, cols, rows) && IsGrid(background, cols, rows) && IsGrid(foreground, cols, rows)
    requires p <= cols
    ensures t == InsertColumns(text, p, n, ' ')
    ensures newbg == InsertColumns(background, p, n, bgColor)
    ensures newfg == InsertColumns(foreground, p, n, fgColor)
    ensures IsGrid(t, cols + n, rows) && IsGrid(newbg, cols + n, rows) && IsGrid(newfg, cols + n, rows)
  {
    var bg, fg := SnapshotLayers(background, foreground, cols, rows);
    var bg', fg';
    t, bg', fg' := InsertColumnsLoop(text, bg, fg, p, n, ' ', bgColor, fgColor);
    InsertColumnsKeepsGrid(text, cols, rows, p, n, ' ');
    InsertColumnsKeepsGrid(bg, cols, rows, p, n, bgColor);
    InsertColumnsKeepsGrid(fg, cols, rows, p, n, fgColor);
    newbg, newfg := RebuildLayers(bg', fg', cols + n, rows, Fill(0, cols + n, rows), Fill(0, cols + n, rows));
  }

  /** The body of delColumns after the clamps; with no rows there is
      nothing to remove from. */
  method DelColumnsFromLayers(text: seq<seq<char>>, background: seq<seq<Rgb>>, foreground: seq<seq<Rgb>>,
                              cols: nat, rows: nat, p: nat, m: nat)
    returns (t: seq<seq<char>>, newbg: seq<seq<Rgb>>, newfg: seq<seq<Rgb>>)
    requires IsGrid(text, cols, rows) && IsGrid(background, cols, rows) && IsGrid(foreground, cols, rows)
    requires m <= cols && (rows > 0 ==> p + m <= cols)
    ensures t == DeleteColumns(text, p, m)
    ensures newbg == DeleteColumns(background, p, m)
    ensures newfg == DeleteColumns(foreground, p, m)
    ensures IsGrid(t, cols - m, rows) && IsGrid(newbg, cols - m, rows) && IsGrid(newfg, cols - m, rows)
  {
    var bg, fg := SnapshotLayers(background, foreground, cols, rows);
    DeleteColumnsKeepsGrid(text, cols, rows, p, m);
    DeleteColumnsKeepsGrid(bg, cols, rows, p, m);
    DeleteColumnsKeepsGrid(fg, cols, rows, p, m);
    var bg', fg';
    t, bg', fg' := RemoveColumnsLoop(text, bg, fg, p, m);
    newbg, newfg := RebuildLayers(bg', fg', cols - m, rows, Fill(0, cols - m, rows), Fill(0, cols - m, rows));
  }

  class MainWidget {
    var text: seq<seq<char>>
    var background: seq<seq<Rgb>>
    var foreground: seq<seq<Rgb>>
    var bgColor: Rgb
    var fgColor: Rgb
    var selColor: Rgb
    var xsize: int
    var ysize: int
    var showGrid: bool
    var xasc: int
    var yasc: int
    var lastx: int
    var lasty: int

    /** The three layers have the same `xasc` x `yasc` shape, and cells are
        at least one pixel wide and high. */
    ghost predicate Valid()
      reads this
      ensures Valid() ==> forall j, i :: 0 <= j < yasc && 0 <= i < xasc ==>
        Contains(text, i, j) && Contains(background, i, j) && Contains(foreground, i, j)
      ensures Valid() ==> forall j, i :: Contains(text, i, j) ==> InGrid(Coord(i, j), xasc, yasc)
    {
      1 <= xsize && 1 <= ysize && 0 <= xasc && 0 <= yasc &&
      IsGrid(text, xasc, yasc) && IsGrid(background, xasc, yasc) && IsGrid(foreground, xasc, yasc)
    }

    /** The cell under the keyboard cursor. */
    function CursorCell(): Coord
      reads this
    {
      Coord(lastx, lasty)
    }

    /** The drawing colours, the cell size and the grid flag. */
    ghost function Config(): (Rgb, Rgb, Rgb, int, int, bool)
      reads this
    {
      (bgColor, fgColor, selColor, xsize, ysize, showGrid)
    }

    /** A 26 x 16 grid of spaces on a white background in black, with
        black and gray as the drawing colours. */
    constructor ()
      ensures Valid()
      ensures bgColor == Black && fgColor == Gray && selColor == Yellow
      ensures xsize == 10 && ysize == 20 && showGrid
      ensures xasc == 26 && yasc == 16 && CursorCell() == Coord(0, 0)
      ensures text == Fill(' ', 26, 16)
      ensures background == Fill(White, 26, 16) && foreground == Fill(Black, 26, 16)
    {
      bgColor := Black;
      fgColor := Gray;
      selColor := Yellow;
      xsize := 10;
      ysize := 20;
      showGrid := true;
      xasc := 26;
      yasc := 16;
      lastx := 0;
      lasty := 0;
      background := Fill(White, 26, 16);
      foreground := Fill(Black, 26, 16);
      var l: seq<char> := [];
      var i := 0;
      while i < 26
        invariant 0 <= i <= 26 && l == Repeat(' ', i)
      {
        l := l + [' '];
        i := i + 1;
      }
      var t: seq<seq<char>> := [];
      i := 0;
      while i < 16
        invariant 0 <= i <= 16 && t == Repeat(l, i)
      {
        t := t + [l];
        i := i + 1;
      }
      text := t;
    }

    method SetGrid(g: bool)
      requires Valid()
      modifies this
      ensures Valid()
      ensures showGrid == g
      ensures text == old(text) && background == old(background) && foreground == old(foreground)
      ensures bgColor == old(bgColor) && fgColor == old(fgColor) && selColor == old(selColor)
      ensures xsize == old(xsize) && ysize == old(ysize)
      ensures xasc == old(xasc) && yasc == old(yasc) && CursorCell() == old(CursorCell())
    {
      if g != showGrid {
        showGrid := g;
      }
    }

    /** The cell width becomes `x`, or 1 if `x` is smaller. */
    method SetRectWidth(x: int)
      requires Valid()
      modifies this
      ensures Valid()
      ensures xsize >= 1 && (x >= 1 ==> xsize == x) && (x < 1 ==> xsize == 1)
      ensures text == old(text) && background == old(background) && foreground == old(foreground)
      ensures bgColor == old(bgColor) && fgColor == old(fgColor) && selColor == old(selColor)
      ensures ysize == old(ysize) && showGrid == old(showGrid)
      ensures xasc == old(xasc) && yasc == old(yasc) && CursorCell() == old(CursorCell())
    {
      var w := x;
      if w < 1 {
        w := 1;
      }
      if w != xsize {
        xsize := w;
      }
    }

    /** The cell height becomes `y`, or 1 if `y` is smaller. */
    method SetRectHeight(y: int)
      requires Valid()
      modifies this
      ensures Valid()
      ensures ysize >= 1 && (y >= 1 ==> ysize == y) && (y < 1 ==> ysize == 1)
      ensures text == old(text) && background == old(background) && foreground == old(foreground)
      ensures bgColor == old(bgColor) && fgColor == old(fgColor) && selColor == old(selColor)
      ensures xsize == old(xsize) && showGrid == old(showGrid)
      ensures xasc == old(xasc) && yasc == old(yasc) && CursorCell() == old(CursorCell())
    {
      var h := y;
      if h < 1 {
        h := 1;
      }
      if h != ysize {
        ysize := h;
      }
    }

    // -------------------------------------------------------------------
    // Painting single cells

    /** Paints the background of the cell under `pos` with the drawing
        background colour, if that cell is inside the image. */
    method SetBGImagePixel(pos: Point)
      requires Valid()
      modifies this
      ensures Valid()
      ensures text == old(text) && foreground == old(foreground) && Config() == old(Config())
      ensures xasc == old(xasc) && yasc == old(yasc) && CursorCell() == old(CursorCell())
      ensures var c := HitCell(pos, xsize, ysize);
        background == if Contains(old(background), c.i, c.j)
                      then SetCell(old(background), c.i, c.j, bgColor)
                      else old(background)
    {
      var i := Quot(pos.x, xsize);
      var j := Quot(pos.y, ysize);
      if Contains(background, i, j) {
        SetCellKeepsGrid(background, i, j, bgColor, xasc, yasc);
        background := SetCell(background, i, j, bgColor);
      }
    }

    /** Paints the foreground of the cell under `pos` with the drawing
        foreground colour, if that cell is inside the image. */
    method SetFGImagePixel(pos: Point)
      requires Valid()
      modifies this
      ensures Valid()
      ensures text == old(text) && background == old(background) && Config() == old(Config())
      ensures xasc == old(xasc) && yasc == old(yasc) && CursorCell() == old(CursorCell())
      ensures var c := HitCell(pos, xsize, ysize);
        foreground == if Contains(old(foreground), c.i, c.j)
                      then SetCell(old(foreground), c.i, c.j, fgColor)
                      else old(foreground)
    {
      var i := Quot(pos.x, xsize);
      var j := Quot(pos.y, ysize);
      if Contains(foreground, i, j) {
        SetCellKeepsGrid(foreground, i, j, fgColor, xasc, yasc);
        foreground := SetCell(foreground, i, j, fgColor);
      }
    }

    // -------------------------------------------------------------------
    // Mouse events

    /** A press outside the grid changes nothing. A press inside moves the
        cursor to the cell; the left button paints that cell's background,
        the right button its foreground, any other button nothing. */
    method MousePress(pos: Point, button: MouseButton)
      requires Valid()
      modifies this
      ensures Valid()
      ensures text == old(text) && Config() == old(Config()) && xasc == old(xasc) && yasc == old(yasc)
      ensures var c := HitCell(pos, xsize, ysize);
        if InGrid(c, xasc, yasc) then
          CursorCell() == c &&
          background == (if button == LeftButton then SetCell(old(background), c.i, c.j, bgColor) else old(background)) &&
          foreground == (if button == RightButton then SetCell(old(foreground), c.i, c.j, fgColor) else old(foreground))
        else
          CursorCell() == old(CursorCell()) && background == old(background) && foreground == old(foreground)
    {
      var i := Quot(pos.x, xsize);
      var j := Quot(pos.y, ysize);
      if j >= yasc || j < 0 || i >= xasc || i < 0 {
        return;
      }
      lastx := i;
      lasty := j;
      if button == LeftButton {
        SetBGImagePixel(pos);
      } else if button == RightButton {
        SetFGImagePixel(pos);
      }
    }

    /** A drag outside the grid changes nothing. A drag inside moves the
        cursor to the cell; with the left button held it paints that cell's
        background, otherwise with the right button held its foreground. */
    method MouseMove(pos: Point, buttons: set<MouseButton>)
      requires Valid()
      modifies this
      ensures Valid()
      ensures text == old(text) && Config() == old(Config()) && xasc == old(xasc) && yasc == old(yasc)
      ensures var c := HitCell(pos, xsize, ysize);
        if InGrid(c, xasc, yasc) then
          CursorCell() == c &&
          background == (if LeftButton in buttons then SetCell(old(background), c.i, c.j, bgColor) else old(background)) &&
          foreground == (if LeftButton !in buttons && RightButton in buttons
                         then SetCell(old(foreground), c.i, c.j, fgColor) else old(foreground))
        else
          CursorCell() == old(CursorCell()) && background == old(background) && foreground == old(foreground)
    {
      var i := Quot(pos.x, xsize);
      var j := Quot(pos.y, ysize);
      if j >= yasc || j < 0 || i >= xasc || i < 0 {
        return;
      }
      lastx := i;
      lasty := j;
      if LeftButton in buttons {
        SetBGImagePixel(pos);
      } else if RightButton in buttons {
        SetFGImagePixel(pos);
      }
    }

    /** A release inside the grid moves the cursor to the cell under the
        mouse and paints nothing; outside it changes nothing. */
    method MouseRelease(pos: Point)
      requires Valid()
      modifies this
      ensures Valid()
      ensures text == old(text) && background == old(background) && foreground == old(foreground)
      ensures Config() == old(Config()) && xasc == old(xasc) && yasc == old(yasc)
      ensures var c := HitCell(pos, xsize, ysize);
        CursorCell() == if InGrid(c, xasc, yasc) then c else old(CursorCell())
    {
      var i := Quot(pos.x, xsize);
      var j := Quot(pos.y, ysize);
      if j >= yasc || j < 0 || i >= xasc || i < 0 {
        return;
      }
      lastx := i;
      lasty := j;
    }

    // -------------------------------------------------------------------
    // Key events

    /** `keyPressEvent`: a printable character is typed, Backspace erases,
        Enter/Return and the arrow keys move the cursor, anything else is
        passed on and changes nothing here. */
    method KeyPress(ev: KeyEvent)
      requires Valid()
      requires ev.printable ==> InGrid(CursorCell(), xasc, yasc)
      requires !ev.printable && ev.key == Backspace ==> InGrid(Retreat(CursorCell(), xasc, yasc), xasc, yasc)
      modifies this
      ensures Valid()
      ensures background == old(background) && foreground == old(foreground)
      ensures Config() == old(Config()) && xasc == old(xasc) && yasc == old(yasc)
      ensures CursorCell() == NextCursor(ev, old(CursorCell()), xasc, yasc)
      ensures ev.printable ==> text == SetCell(old(text), old(lastx), old(lasty), ev.ch)
      ensures !ev.printable && ev.key == Backspace ==> text == SetCell(old(text), lastx, lasty, ' ')
      ensures !ev.printable && ev.key != Backspace ==> text == old(text)
      ensures InGrid(old(CursorCell()), xasc, yasc) ==> InGrid(CursorCell(), xasc, yasc)
    {
      if InGrid(CursorCell(), xasc, yasc) {
        KeyKeepsCursorInGrid(ev, CursorCell(), xasc, yasc);
      }
      if ev.printable {
        TypeChar(ev.ch);
      } else if ev.key == Backspace {
        EraseBack();
      } else {
        MoveCursor(ev.key);
      }
    }

    /** The printable branch: the glyph under the cursor becomes `c` and the
        cursor advances. */
    method TypeChar(c: char)
      requires Valid() && InGrid(CursorCell(), xasc, yasc)
      modifies this
      ensures Valid()
      ensures background == old(background) && foreground == old(foreground)
      ensures Config() == old(Config()) && xasc == old(xasc) && yasc == old(yasc)
      ensures CursorCell() == Advance(old(CursorCell()), xasc, yasc)
      ensures text == SetCell(old(text), old(lastx), old(lasty), c)
    {
      SetCellKeepsGrid(text, lastx, lasty, c, xasc, yasc);
      text := SetCell(text, lastx, lasty, c);
      lastx := lastx + 1;
      if lastx >= xasc {
        lastx := 0;
        lasty := lasty + 1;
        if lasty >= yasc {
          lasty := 0;
        }
      }
    }

    /** The Backspace branch: the cursor retreats and the glyph it lands on
        becomes a space. */
    method EraseBack()
      requires Valid() && InGrid(Retreat(CursorCell(), xasc, yasc), xasc, yasc)
      modifies this
      ensures Valid()
      ensures background == old(background) && foreground == old(foreground)
      ensures Config() == old(Config()) && xasc == old(xasc) && yasc == old(yasc)
      ensures CursorCell() == Retreat(old(CursorCell()), xasc, yasc)
      ensures text == SetCell(old(text), lastx, lasty, ' ')
    {
      lastx := lastx - 1;
      if lastx < 0 {
        lastx := xasc - 1;
        lasty := lasty - 1;
        if lasty < 0 {
          lasty := yasc - 1;
        }
      }
      SetCellKeepsGrid(text, lastx, lasty, ' ', xasc, yasc);
      text := SetCell(text, lastx, lasty, ' ');
    }

    /** The remaining branches: Enter/Return and the arrow keys move the
        cursor, any other key leaves it; no layer changes. */
    method MoveCursor(k: Key)
      requires Valid() && k != Backspace
      modifies this
      ensures Valid()
      ensures text == old(text) && background == old(background) && foreground == old(foreground)
      ensures Config() == old(Config()) && xasc == old(xasc) && yasc == old(yasc)
      ensures CursorCell() == NextCursor(KeyEvent(' ', false, k), old(CursorCell()), xasc, yasc)
    {
      if k == Enter || k == Return {
        lastx := 0;
        lasty := lasty + 1;
        if lasty >= yasc {
          lasty := 0;
        }
      } else if k == Up {
        var oldy := lasty;
        lasty := lasty - 1;
        if lasty < 0 {
          lasty := oldy;
        }
      } else if k == Down {
        var oldy := lasty;
        lasty := lasty + 1;
        if lasty >= yasc {
          lasty := oldy;
        }
      } else if k == Left {
        var oldx := lastx;
        lastx := lastx - 1;
        if lastx < 0 {
          lastx := oldx;
        }
      } else if k == Right {
        var oldx := lastx;
        lastx := lastx + 1;
        if lastx >= xasc {
          lastx := oldx;
        }
      }
    }

    // -------------------------------------------------------------------
    // Structural edits: whole rows and columns, in all three layers. Each
    // copies the two images into lists of rows, edits the three lists
    // together and rebuilds the two images from the edited lists.

    /** For `n > 0`: `n` blank rows (spaces in the drawing colours) are
        inserted before row `place`, clamped into [0, yasc], in all three
        layers. For `n <= 0` nothing changes. */
    method AddRows(place: int, n: int)
      requires Valid()
      modifies this
      ensures Valid()
      ensures xasc == old(xasc) && CursorCell() == old(CursorCell()) && Config() == old(Config())
      ensures n <= 0 ==> (yasc == old(yasc) && text == old(text) &&
        background == old(background) && foreground == old(foreground))
      ensures n > 0 ==> (
        var p := ClampPlace(place, old(yasc));
        yasc == old(yasc) + n &&
        text == InsertRun(old(text), p, n, Repeat(' ', xasc)) &&
        background == InsertRun(old(background), p, n, Repeat(bgColor, xasc)) &&
        foreground == InsertRun(old(foreground), p, n, Repeat(fgColor, xasc)))
    {
      if n <= 0 {
        return;
      }
      var p := place;
      if p < 0 {
        p := 0;
      }
      if p > yasc {
        p := yasc;
      }
      var t, bg, fg := AddRowsToLayers(text, background, foreground, xasc, yasc, p, n, bgColor, fgColor);
      text, background, foreground, yasc := t, bg, fg, yasc + n;
    }

    /** For `n > 0`: with `place` clamped into [0, yasc] and `n` capped at
        `yasc`, rows [place, place + n) are removed from all three layers;
        the caller must keep that range inside the grid. For `n <= 0`
        nothing changes. */
    method DelRows(place: int, n: int)
      requires Valid()
      requires n > 0 ==> ClampPlace(place, yasc) + ClampCount(n, yasc) <= yasc
      modifies this
      ensures Valid()
      ensures xasc == old(xasc) && CursorCell() == old(CursorCell()) && Config() == old(Config())
      ensures n <= 0 ==> (yasc == old(yasc) && text == old(text) &&
        background == old(background) && foreground == old(foreground))
      ensures n > 0 ==> (
        var p, m := ClampPlace(place, old(yasc)), ClampCount(n, old(yasc));
        yasc == old(yasc) - m &&
        text == RemoveRun(old(text), p, m) &&
        background == RemoveRun(old(background), p, m) &&
        foreground == RemoveRun(old(foreground), p, m))
    {
      if n <= 0 {
        return;
      }
      var p := place;
      if p < 0 {
        p := 0;
      }
      if p > yasc {
        p := yasc;
      }
      var m := n;
      if m > yasc {
        m := yasc;
      }
      assert p == ClampPlace(place, yasc) && m == ClampCount(n, yasc);
      var t, bg, fg := DelRowsFromLayers(text, background, foreground, xasc, yasc, p, m);
      text, background, foreground, yasc := t, bg, fg, yasc - m;
    }

    /** For `n > 0`: every row gets `n` blank cells (a space in the drawing
        colours) before column `place`, clamped into [0, xasc], in all three
        layers. For `n <= 0` nothing changes. */
    method AddColumns(place: int, n: int)
      requires Valid()
      modifies this
      ensures Valid()
      ensures yasc == old(yasc) && CursorCell() == old(CursorCell()) && Config() == old(Config())
      ensures n <= 0 ==> (xasc == old(xasc) && text == old(text) &&
        background == old(background) && foreground == old(foreground))
      ensures n > 0 ==> (
        var p := ClampPlace(place, old(xasc));
        xasc == old(xasc) + n &&
        text == InsertColumns(old(text), p, n, ' ') &&
        background == InsertColumns(old(background), p, n, bgColor) &&
        foreground == InsertColumns(old(foreground), p, n, fgColor))
    {
      if n <= 0 {
        return;
      }
      var p := place;
      if p < 0 {
        p := 0;
      }
      if p > xasc {
        p := xasc;
      }
      var t, bg, fg := AddColumnsToLayers(text, background, foreground, xasc, yasc, p, n, bgColor, fgColor);
      text, background, foreground, xasc := t, bg, fg, xasc + n;
    }

    /** For `n > 0`: with `place` clamped into [0, xasc] and `n` capped at
        `xasc`, columns [place, place + n) are removed from every row of all
        three layers; when there are rows, the caller must keep that range
        inside the grid. For `n <= 0` nothing changes. */
    method DelColumns(place: int, n: int)
      requires Valid()
      requires n > 0 && yasc > 0 ==> ClampPlace(place, xasc) + ClampCount(n, xasc) <= xasc
      modifies this
      ensures Valid()
      ensures yasc == old(yasc) && CursorCell() == old(CursorCell()) && Config() == old(Config())
      ensures n <= 0 ==> (xasc == old(xasc) && text == old(text) &&
        background == old(background) && foreground == old(foreground))
      ensures n > 0 ==> (
        var p, m := ClampPlace(place, old(xasc)), ClampCount(n, old(xasc));
        xasc == old(xasc) - m &&
        text == DeleteColumns(old(text), p, m) &&
        background == DeleteColumns(old(background), p, m) &&
        foreground == DeleteColumns(old(foreground), p, m))
    {
      if n <= 0 {
        return;
      }
      var p := place;
      if p < 0 {
        p := 0;
      }
      if p > xasc {
        p := xasc;
      }
      var m := n;
      if m > xasc {
        m := xasc;
      }
      var t, bg, fg := DelColumnsFromLayers(text, background, foreground, xasc, yasc, p, m);
      text, background, foreground, xasc := t, bg, fg, xasc - m;
    }
  }
}
