/**
 * The undo bookkeeping of `DataframeTableBrowser` (df_browse/dataframe_browser.py) as values:
 * the history of tables (of any type `T`), the history of displayed column lists, and the stack of tags saying
 * which of the two each change appended to.
 */
module History {

  /** The tag `undo_hist` keeps for a change: which history it appended to. */
  datatype Change = DfChange | ColsChange

  datatype History<T> = History(dfs: seq<T>, cols: seq<seq<string>>, undo: seq<Change>)

  /** How many entries of `tags` are `c`. */
  function Count(tags: seq<Change>, c: Change): nat {
    if tags == [] then 0
    else Count(tags[..|tags| - 1], c) + (if tags[|tags| - 1] == c then 1 else 0)
  }

  /** Each history holds its initial entry plus one entry per change tagged for it. */
  predicate Consistent<T>(h: History<T>) {
    && |h.dfs| == 1 + Count(h.undo, DfChange)
    && |h.cols| == 1 + Count(h.undo, ColsChange)
  }

  /** The table on display: the last one in the history. */
  function CurrentDf<T>(h: History<T>): T
    requires |h.dfs| > 0
  {
    h.dfs[|h.dfs| - 1]
  }

  /** The displayed columns: the last list in the history. */
  function CurrentCols<T>(h: History<T>): seq<string>
    requires |h.cols| > 0
  {
    h.cols[|h.cols| - 1]
  }

  /** A new browser: the table and its own column order, with nothing to undo. */
  function Initial<T>(t: T, columns: seq<string>): (h: History<T>)
    ensures Consistent(h) && CurrentDf(h) == t && CurrentCols(h) == columns && h.undo == []
  {
    History([t], [columns], [])
  }

  /** `_change_df`: the new table is appended and tagged. */
  function PushDf<T>(h: History<T>, t: T): History<T> {
    History(h.dfs + [t], h.cols, h.undo + [DfChange])
  }

  /** The append of `_change_display_cols` when the columns differ. */
  function PushCols<T>(h: History<T>, cols: seq<string>): History<T> {
    History(h.dfs, h.cols + [cols], h.undo + [ColsChange])
  }

  /** `_change_display_cols`: a push when the new list differs from the displayed one, else nothing. */
  function ChangeCols<T>(h: History<T>, cols: seq<string>): (r: History<T>)
    requires |h.cols| > 0
    ensures CurrentCols(h) == cols ==> r == h
    ensures CurrentCols(h) != cols ==> r.cols == h.cols + [cols] && r.dfs == h.dfs && r.undo == h.undo + [ColsChange]
  {
    if CurrentCols(h) != cols then PushCols(h, cols) else h
  }

  /** Both pushes keep the histories consistent with the tags and make the pushed value current. */
  lemma {:induction false} PushKeepsConsistent<T>(h: History<T>, t: T, cols: seq<string>)
    requires Consistent(h)
    ensures Consistent(PushDf(h, t)) && CurrentDf(PushDf(h, t)) == t && CurrentCols(PushDf(h, t)) == CurrentCols(h)
    ensures Consistent(PushCols(h, cols)) && CurrentCols(PushCols(h, cols)) == cols && CurrentDf(PushCols(h, cols)) == CurrentDf(h)
  {
    assert PushDf(h, t).undo[..|h.undo|] == h.undo;
    assert PushCols(h, cols).undo[..|h.undo|] == h.undo;
  }

  /** One pass of the `undo` loop: the last tag is popped together with the entry it names. */
  function UndoOne<T>(h: History<T>): (r: History<T>)
    requires Consistent(h)
    ensures Consistent(r)
    ensures h.undo == [] ==> r == h
    ensures h.undo != [] ==> r.undo == h.undo[..|h.undo| - 1]
  {
    if h.undo == [] then h
    else
      var tag := h.undo[|h.undo| - 1];
      var rest := h.undo[..|h.undo| - 1];
      if tag == DfChange then History(h.dfs[..|h.dfs| - 1], h.cols, rest)
      else History(h.dfs, h.cols[..|h.cols| - 1], rest)
  }

  /** How many changes `undo(n)` takes back: `n` of them, or all there are. */
  function Popped(undoLength: nat, n: int): (k: nat)
    ensures k <= undoLength
  {
    if n <= 0 then 0 else if n < undoLength then n else undoLength
  }

  /** `undo(n)`: up to `n` changes are taken back, newest first; neither history is ever emptied. */
  function UndoN<T>(h: History<T>, n: int): (r: History<T>)
    requires Consistent(h)
    ensures Consistent(r) && |r.dfs| >= 1 && |r.cols| >= 1
    decreases if n <= 0 then 0 else n
  {
    if n <= 0 || h.undo == [] then h else UndoN(UndoOne(h), n - 1)
  }

  /**
   * What `undo(n)` leaves: the tags minus the newest `min(n, len)` of them, and each history
   * cut back to a prefix of its old self.
   */
  lemma {:induction false} UndoNShape<T>(h: History<T>, n: int)
    requires Consistent(h)
    ensures var r := UndoN(h, n);
      && r.undo == h.undo[..|h.undo| - Popped(|h.undo|, n)]
      && |r.dfs| <= |h.dfs| && r.dfs == h.dfs[..|r.dfs|]
      && |r.cols| <= |h.cols| && r.cols == h.cols[..|r.cols|]
    decreases if n <= 0 then 0 else n
  {
    if n > 0 && h.undo != [] {
      var h1 := UndoOne(h);
      UndoNShape(h1, n - 1);
      var r := UndoN(h1, n - 1);
      assert h1.dfs == h.dfs[..|h1.dfs|];
      assert h1.cols == h.cols[..|h1.cols|];
      assert r.undo == h.undo[..|h.undo| - Popped(|h.undo|, n)];
    }
  }

  /** A change that `_change_df` or a non-trivial `_change_display_cols` pushes. */
  datatype Edit<T> = SetDf(df: T) | SetCols(cols: seq<string>)

  function Push<T>(h: History<T>, e: Edit<T>): History<T> {
    match e
    case SetDf(t) => PushDf(h, t)
    case SetCols(c) => PushCols(h, c)
  }

  /** The history after the edits, oldest first. */
  function PushAll<T>(h: History<T>, edits: seq<Edit<T>>): History<T> {
    if edits == [] then h else Push(PushAll(h, edits[..|edits| - 1]), edits[|edits| - 1])
  }

  /** Undoing a push gives back exactly the history before it. */
  lemma UndoOnePush<T>(h: History<T>, e: Edit<T>)
    requires Consistent(h)
    ensures Consistent(Push(h, e)) && UndoOne(Push(h, e)) == h
  {
    match e
    case SetDf(t) =>
      PushKeepsConsistent(h, t, []);
      assert PushDf(h, t).dfs[..|h.dfs|] == h.dfs;
      assert PushDf(h, t).undo[..|h.undo|] == h.undo;
    case SetCols(c) =>
      PushKeepsConsistent(h, h.dfs[0], c);
      assert PushCols(h, c).cols[..|h.cols|] == h.cols;
      assert PushCols(h, c).undo[..|h.undo|] == h.undo;
  }

  /** The edits push one tag each, and the result stays consistent. */
  lemma {:induction false} PushAllShape<T>(h: History<T>, edits: seq<Edit<T>>)
    requires Consistent(h)
    ensures Consistent(PushAll(h, edits)) && |PushAll(h, edits).undo| == |h.undo| + |edits|
  {
    if edits != [] {
      PushAllShape(h, edits[..|edits| - 1]);
      UndoOnePush(PushAll(h, edits[..|edits| - 1]), edits[|edits| - 1]);
    }
  }

  /** `k` changes followed by `undo(k)` restore the history, and so the table and columns shown, from before. */
  lemma {:induction false} UndoRestores<T>(h: History<T>, edits: seq<Edit<T>>)
    requires Consistent(h)
    ensures Consistent(PushAll(h, edits)) && UndoN(PushAll(h, edits), |edits|) == h
  {
    PushAllShape(h, edits);
    if edits != [] {
      var before := PushAll(h, edits[..|edits| - 1]);
      PushAllShape(h, edits[..|edits| - 1]);
      UndoOnePush(before, edits[|edits| - 1]);
      UndoRestores(h, edits[..|edits| - 1]);
    }
  }

  /** Undoing at least as many changes as there are returns to the initial table and columns. */
  lemma UndoAllReturnsToStart<T>(h: History<T>, n: int)
    requires Consistent(h) && n >= |h.undo|
    ensures var r := UndoN(h, n); r.undo == [] && r.dfs == [h.dfs[0]] && r.cols == [h.cols[0]]
  {
    UndoNShape(h, n);
  }
}
