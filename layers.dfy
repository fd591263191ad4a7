/** The three co-indexed layers of the canvas (glyphs, background colours,
    foreground colours) are each a list of rows; cell (i, j) -- column i,
    row j -- is `g[j][i]`. This module holds the list operations the
    widget applies to them and what is proved about those operations. */
module Layers {

  /** `g` has `rows` rows of `cols` cells each. */
  predicate IsGrid<T>(g: seq<seq<T>>, cols: int, rows: int)
  {
    |g| == rows && forall j :: 0 <= j < |g| ==> |g[j]| == cols
  }

  /** Is (i, j) inside the layer, as `QImage::rect().contains(i, j)` asks. */
  predicate Contains<T>(g: seq<seq<T>>, i: int, j: int)
    ensures forall cols, rows :: IsGrid(g, cols, rows) ==>
      (Contains(g, i, j) <==> 0 <= i < cols && 0 <= j < rows)
  {
    0 <= j < |g| && 0 <= i < |g[j]|
  }

  /** `n` copies of `v`, built by appending as the widget's row loops do. */
  function Repeat<T>(v: T, n: nat): (r: seq<T>)
    ensures |r| == n
    ensures forall k :: 0 <= k < n ==> r[k] == v
  {
    if n == 0 then [] else Repeat(v, n - 1) + [v]
  }

  /** A `cols` x `rows` layer whose every cell is `v`. */
  function Fill<T>(v: T, cols: nat, rows: nat): (r: seq<seq<T>>)
    ensures IsGrid(r, cols, rows)
    ensures forall j, i :: 0 <= j < rows && 0 <= i < cols ==> r[j][i] == v
  {
    Repeat(Repeat(v, cols), rows)
  }

  /** `QList::insert(k, v)`. */
  function Insert<T>(s: seq<T>, k: nat, v: T): (r: seq<T>)
    requires k <= |s|
    ensures |r| == |s| + 1 && r[k] == v
    ensures r[..k] == s[..k] && r[k + 1..] == s[k..]
  {
    s[..k] + [v] + s[k..]
  }

  /** `QList::removeAt(k)` for an index in range. */
  function RemoveAt<T>(s: seq<T>, k: nat): (r: seq<T>)
    requires k < |s|
    ensures |r| == |s| - 1
    ensures r[..k] == s[..k] && r[k..] == s[k + 1..]
  {
    s[..k] + s[k + 1..]
  }

  /** `s` with `n` copies of `v` inserted before index `k`: applied to the
      list of rows this inserts rows, applied to one row it inserts cells. */
  function InsertRun<T>(s: seq<T>, k: nat, n: nat, v: T): seq<T>
    requires k <= |s|
  {
    s[..k] + Repeat(v, n) + s[k..]
  }

  /** `s` without its `n` elements from index `k` on. */
  function RemoveRun<T>(s: seq<T>, k: nat, n: nat): seq<T>
    requires k + n <= |s|
  {
    s[..k] + s[k + n..]
  }

  /** Every row of `g` with `n` cells `v` inserted before column `k`. */
  function InsertColumns<T>(g: seq<seq<T>>, k: nat, n: nat, v: T): seq<seq<T>>
    requires forall j :: 0 <= j < |g| ==> k <= |g[j]|
  {
    seq(|g|, j requires 0 <= j < |g| => InsertRun(g[j], k, n, v))
  }

  /** Every row of `g` without its `n` cells from column `k` on. */
  function DeleteColumns<T>(g: seq<seq<T>>, k: nat, n: nat): seq<seq<T>>
    requires forall j :: 0 <= j < |g| ==> k + n <= |g[j]|
  {
    seq(|g|, j requires 0 <= j < |g| => RemoveRun(g[j], k, n))
  }

  /** `g` with cell (i, j) set to `v` (`text[j][i] = c`, `QImage::setPixel(i, j, v)`). */
  function SetCell<T>(g: seq<seq<T>>, i: int, j: int, v: T): (r: seq<seq<T>>)
    requires Contains(g, i, j)
    ensures |r| == |g| && forall jj :: 0 <= jj < |g| ==> |r[jj]| == |g[jj]|
    ensures r[j][i] == v
    ensures forall jj, ii :: Contains(g, ii, jj) && (ii != i || jj != j) ==> r[jj][ii] == g[jj][ii]
  {
    g[j := g[j][i := v]]
  }

  /** Setting one cell keeps the dimensions of a layer. */
  lemma SetCellKeepsGrid<T>(g: seq<seq<T>>, i: int, j: int, v: T, cols: int, rows: int)
    requires IsGrid(g, cols, rows) && Contains(g, i, j)
    ensures IsGrid(SetCell(g, i, j, v), cols, rows)
  {
  }

  // ---------------------------------------------------------------------
  // Where the cells of an edited list come from

  /** Before `k` nothing moves, `[k, k + n)` holds the inserted copies, and
      every element from `k` on moves `n` places further. */
  lemma InsertRunAt<T>(s: seq<T>, k: nat, n: nat, v: T)
    requires k <= |s|
    ensures |InsertRun(s, k, n, v)| == |s| + n
    ensures forall q :: 0 <= q < k ==> InsertRun(s, k, n, v)[q] == s[q]
    ensures forall q :: k <= q < k + n ==> InsertRun(s, k, n, v)[q] == v
    ensures forall q :: k <= q < |s| ==> InsertRun(s, k, n, v)[q + n] == s[q]
  {
  }

  /** Before `k` nothing moves, and every element after the removed ones
      moves `n` places closer to the front. */
  lemma RemoveRunAt<T>(s: seq<T>, k: nat, n: nat)
    requires k + n <= |s|
    ensures |RemoveRun(s, k, n)| == |s| - n
    ensures forall q :: 0 <= q < k ==> RemoveRun(s, k, n)[q] == s[q]
    ensures forall q :: k <= q < |s| - n ==> RemoveRun(s, k, n)[q] == s[q + n]
  {
  }

  // ---------------------------------------------------------------------
  // One iteration of the widget's insert and remove loops

  /** Inserting `v` once more at `k` extends the run by one. */
  lemma InsertRunStep<T>(s: seq<T>, k: nat, i: nat, v: T)
    requires k <= |s|
    ensures Insert(InsertRun(s, k, i, v), k, v) == InsertRun(s, k, i + 1, v)
  {
    var r := InsertRun(s, k, i, v);
    assert r[..k] == s[..k];
    assert r[k..] == Repeat(v, i) + s[k..];
    assert Repeat(v, i + 1) == [v] + Repeat(v, i) by {
      assert |Repeat(v, i + 1)| == |[v] + Repeat(v, i)|;
    }
  }

  /** Removing index `k` once more removes one more element. */
  lemma RemoveRunStep<T>(s: seq<T>, k: nat, i: nat)
    requires k + i + 1 <= |s|
    ensures RemoveAt(RemoveRun(s, k, i), k) == RemoveRun(s, k, i + 1)
  {
    var r := RemoveRun(s, k, i);
    assert r[..k] == s[..k];
    assert r[k + 1..] == s[k + i + 1..];
  }

  /** One pass of the column loop -- a cell `v` inserted at `k` in every
      row -- inserts one more column. */
  lemma InsertColumnsStep<T>(g: seq<seq<T>>, k: nat, i: nat, v: T, cur: seq<seq<T>>, next: seq<seq<T>>)
    requires forall j :: 0 <= j < |g| ==> k <= |g[j]|
    requires cur == InsertColumns(g, k, i, v)
    requires |next| == |g| && forall r :: 0 <= r < |g| ==> k <= |cur[r]| && next[r] == Insert(cur[r], k, v)
    ensures next == InsertColumns(g, k, i + 1, v)
  {
    forall r | 0 <= r < |g|
      ensures next[r] == InsertRun(g[r], k, i + 1, v)
    {
      InsertRunStep(g[r], k, i, v);
    }
  }

  /** One pass of the column loop -- the cell at `k` removed from every row
      -- removes one more column. */
  lemma DeleteColumnsStep<T>(g: seq<seq<T>>, k: nat, i: nat, cur: seq<seq<T>>, next: seq<seq<T>>)
    requires forall j :: 0 <= j < |g| ==> k + i + 1 <= |g[j]|
    requires cur == DeleteColumns(g, k, i)
    requires |next| == |g| && forall r :: 0 <= r < |g| ==> k < |cur[r]| && next[r] == RemoveAt(cur[r], k)
    ensures next == DeleteColumns(g, k, i + 1)
  {
    forall r | 0 <= r < |g|
      ensures next[r] == RemoveRun(g[r], k, i + 1)
    {
      RemoveRunStep(g[r], k, i);
    }
  }

  /** Inserting no columns leaves the layer as it is. */
  lemma NoColumnsInserted<T>(g: seq<seq<T>>, k: nat, v: T)
    requires forall j :: 0 <= j < |g| ==> k <= |g[j]|
    ensures InsertColumns(g, k, 0, v) == g
  {
    forall j | 0 <= j < |g|
      ensures InsertRun(g[j], k, 0, v) == g[j]
    {
      assert g[j][..k] + g[j][k..] == g[j];
    }
  }

  /** Removing no columns leaves the layer as it is. */
  lemma NoColumnsDeleted<T>(g: seq<seq<T>>, k: nat)
    requires forall j :: 0 <= j < |g| ==> k <= |g[j]|
    ensures DeleteColumns(g, k, 0) == g
  {
    forall j | 0 <= j < |g|
      ensures RemoveRun(g[j], k, 0) == g[j]
    {
      assert g[j][..k] + g[j][k..] == g[j];
    }
  }

  // ---------------------------------------------------------------------
  // Round trips

  /** Removing the run that was just inserted gives the list back. */
  lemma InsertThenRemoveRun<T>(s: seq<T>, k: nat, n: nat, v: T)
    requires k <= |s|
    ensures RemoveRun(InsertRun(s, k, n, v), k, n) == s
  {
    var r := InsertRun(s, k, n, v);
    assert r[..k] == s[..k];
    assert r[k + n..] == s[k..];
    assert s[..k] + s[k..] == s;
  }

  /** Deleting the columns that were just inserted gives every row back. */
  lemma InsertThenDeleteColumns<T>(g: seq<seq<T>>, k: nat, n: nat, v: T)
    requires forall j :: 0 <= j < |g| ==> k <= |g[j]|
    ensures forall j :: 0 <= j < |g| ==> k + n <= |InsertColumns(g, k, n, v)[j]|
    ensures DeleteColumns(InsertColumns(g, k, n, v), k, n) == g
  {
    var h := InsertColumns(g, k, n, v);
    forall j | 0 <= j < |g|
      ensures k + n <= |h[j]| && RemoveRun(h[j], k, n) == g[j]
    {
      InsertThenRemoveRun(g[j], k, n, v);
    }
  }

  // ---------------------------------------------------------------------
  // The dimensions of every layer change together

  lemma InsertRowsKeepsGrid<T>(g: seq<seq<T>>, cols: int, rows: int, k: nat, n: nat, row: seq<T>)
    requires IsGrid(g, cols, rows) && |row| == cols && k <= rows
    ensures IsGrid(InsertRun(g, k, n, row), cols, rows + n)
  {
    InsertRunAt(g, k, n, row);
  }

  lemma DeleteRowsKeepsGrid<T>(g: seq<seq<T>>, cols: int, rows: int, k: nat, n: nat)
    requires IsGrid(g, cols, rows) && k + n <= rows
    ensures IsGrid(RemoveRun(g, k, n), cols, rows - n)
  {
    RemoveRunAt(g, k, n);
  }

  lemma InsertColumnsKeepsGrid<T>(g: seq<seq<T>>, cols: int, rows: int, k: nat, n: nat, v: T)
    requires IsGrid(g, cols, rows) && k <= cols
    ensures IsGrid(InsertColumns(g, k, n, v), cols + n, rows)
  {
  }

  lemma DeleteColumnsKeepsGrid<T>(g: seq<seq<T>>, cols: int, rows: int, k: nat, n: nat)
    requires IsGrid(g, cols, rows) && (rows > 0 ==> k + n <= cols)
    ensures forall j :: 0 <= j < |g| ==> k + n <= |g[j]|
    ensures IsGrid(DeleteColumns(g, k, n), cols - n, rows)
  {
  }
}
