/**
 * `DataframeTableBrowser` (df_browse/dataframe_browser.py): one table under browsing, with
 * its undo history, the displayed column list, the focused column, the observers told of
 * every change, and the row view.
 */
module TableBrowser {
  import opened Wrappers
  import opened Tables
  import opened ChunkSearch
  import opened RowView
  import opened History

  /**
   * An entry of `change_cbs`. The row view's `df_changed` is the one the browser registers
   * itself; every other observer (the terminal front end's redraw) is outside this model
   * and is known here only by an identifier.
   */
  datatype Observer = RowViewRefresh | Display(id: nat)

  /** The argument of `jump`: an integer (1-based) row, a fraction of the table's length, or a column name. */
  datatype Location = Row(row: int) | Fraction(fraction: real) | Column(name: string)

  /** What `jump` hands to `jump_to_row` for a row location. */
  function RowLocationOf(location: Location): RowLocation
    requires !location.Column?
  {
    if location.Row? then RowIndex(location.row) else RowFraction(location.fraction)
  }

  /** `lst.index(x)`: the first position of `x`. */
  function IndexOf(lst: seq<string>, x: string): (i: nat)
    requires x in lst
    ensures i < |lst| && lst[i] == x
    ensures forall j :: 0 <= j < i ==> lst[j] != x
  {
    if lst[0] == x then 0 else 1 + IndexOf(lst[1..], x)
  }

  class DataframeTableBrowser {
    var dfHist: seq<Table>
    var colsHist: seq<seq<string>>
    var undoHist: seq<Change>
    var changeCbs: seq<Observer>
    var focusedColumnIndex: int
    const view: DataframeRowView

    /** The three history lists as one value. */
    function Hist(): History<Table>
      reads this`dfHist, this`colsHist, this`undoHist
    {
      History(dfHist, colsHist, undoHist)
    }

    /** The `df` property: the last table in the history. */
    function Df(): (r: Table)
      reads this`dfHist, this`colsHist, this`undoHist
      requires |dfHist| > 0
      ensures r == CurrentDf(Hist())
    {
      dfHist[|dfHist| - 1]
    }

    /** The `browse_columns` property: the last column list in the history. */
    function BrowseColumns(): (r: seq<string>)
      reads this`dfHist, this`colsHist, this`undoHist
      requires |colsHist| > 0
      ensures r == CurrentCols(Hist())
    {
      colsHist[|colsHist| - 1]
    }

    /** The histories agree with the tags, every table is well formed, and the row view is an observer. */
    predicate HistoryValid()
      reads this`dfHist, this`colsHist, this`undoHist, this`changeCbs
    {
      && Consistent(Hist())
      && (forall i :: 0 <= i < |dfHist| ==> WellFormed(dfHist[i]))
      && RowViewRefresh in changeCbs
    }

    /**
     * The histories agree with the tags, every table is well formed, the row view is
     * registered as an observer, and the view is in a consistent state for the current table.
     */
    predicate Valid()
      reads this`dfHist, this`colsHist, this`undoHist, this`changeCbs, view, view.caches.Values
    {
      && HistoryValid()
      && view.Valid(Df().rowCount)
      && view.CachesSound()
      && view.CachesMirror(Df())
    }

    constructor(t: Table)
      requires WellFormed(t)
      ensures Hist() == Initial(t, t.columns)
      ensures changeCbs == [RowViewRefresh] && focusedColumnIndex == 0
      ensures fresh(view) && view.topRow == 0 && view.selectedRow == 0 && view.caches == map[]
      ensures Valid()
    {
      dfHist := [t];
      colsHist := [t.columns];
      undoHist := [];
      view := new DataframeRowView();
      changeCbs := [RowViewRefresh];
      focusedColumnIndex := 0;
    }

    /**
     * `_msg_cbs`: every observer is called in turn; the row view's `df_changed` empties its
     * caches and clamps its rows to the current table, and calling it again changes nothing more.
     */
    method MsgCbs()
      requires HistoryValid() && view.CachesSound()
      requires 0 <= view.topRow <= view.selectedRow <= view.topRow + view.viewHeight
      modifies view`topRow, view`selectedRow, view.caches.Values
      ensures Valid()
      ensures view.Refreshed(old(view.topRow), old(view.selectedRow), Df().rowCount)
      ensures forall c :: c in view.caches ==>
        view.caches[c].nativeWidth == old(view.caches[c].nativeWidth) && view.caches[c].assignedWidth == old(view.caches[c].assignedWidth)
    {
      var len := Df().rowCount;
      for i := 0 to |changeCbs|
        invariant view.CachesSound()
        invariant 0 <= view.topRow <= view.selectedRow <= view.topRow + view.viewHeight
        invariant RowViewRefresh in changeCbs[..i] ==>
          && view.selectedRow == ClampRow(old(view.selectedRow), len)
          && view.topRow == ClampRow(old(view.topRow), len)
          && view.Cleared() && view.Valid(len) && view.CachesMirror(Df())
        invariant RowViewRefresh !in changeCbs[..i] ==>
          view.selectedRow == old(view.selectedRow) && view.topRow == old(view.topRow)
        invariant forall c :: c in view.caches ==>
          view.caches[c].nativeWidth == old(view.caches[c].nativeWidth) && view.caches[c].assignedWidth == old(view.caches[c].assignedWidth)
      {
        assert changeCbs[..i + 1] == changeCbs[..i] + [changeCbs[i]];
        if changeCbs[i] == RowViewRefresh {
          view.DfChanged(Df());
        }
      }
      assert changeCbs[..|changeCbs|] == changeCbs;
    }

    /**
     * `_change_display_cols`: when the new list differs from the displayed one it is pushed,
     * tagged, and the observers are told; otherwise nothing happens.
     */
    method ChangeDisplayCols(newCols: seq<string>) returns (changed: bool)
      requires Valid()
      modifies this`colsHist, this`undoHist, view`topRow, view`selectedRow, view.caches.Values
      ensures changed <==> old(BrowseColumns()) != newCols
      ensures Hist() == ChangeCols(old(Hist()), newCols)
      ensures !changed ==>
        view.topRow == old(view.topRow) && view.selectedRow == old(view.selectedRow) && unchanged(old(view.caches.Values))
      ensures changed ==> view.Refreshed(old(view.topRow), old(view.selectedRow), Df().rowCount)
      ensures unchanged(this`changeCbs, this`focusedColumnIndex)
      ensures Valid()
    {
      if BrowseColumns() == newCols {
        return false;
      }
      assert ChangeCols(Hist(), newCols) == PushCols(Hist(), newCols);
      PushColsAndNotify(newCols);
      return true;
    }

    /** The changing path of `_change_display_cols`: the new list is pushed and tagged, then the observers are told. */
    method PushColsAndNotify(newCols: seq<string>)
      requires Valid()
      modifies this`colsHist, this`undoHist, view`topRow, view`selectedRow, view.caches.Values
      ensures Hist() == PushCols(old(Hist()), newCols)
      ensures view.Refreshed(old(view.topRow), old(view.selectedRow), Df().rowCount)
      ensures Valid()
    {
      ghost var pushed := PushCols(Hist(), newCols);
      PushKeepsConsistent(Hist(), Df(), newCols);
      colsHist := colsHist + [newCols];
      undoHist := undoHist + [ColsChange];
      assert Hist() == pushed;
      MsgCbs();
    }

    /** `_change_df` (what `sort_on_columns` and `query` end with): the new table is pushed and tagged, and the observers are told. */
    method ChangeDf(newDf: Table)
      requires Valid() && WellFormed(newDf)
      modifies this`dfHist, this`undoHist, view`topRow, view`selectedRow, view.caches.Values
      ensures Hist() == PushDf(old(Hist()), newDf) && Df() == newDf
      ensures view.Refreshed(old(view.topRow), old(view.selectedRow), newDf.rowCount)
      ensures unchanged(this`changeCbs, this`focusedColumnIndex)
      ensures Valid()
    {
      PushKeepsConsistent(Hist(), newDf, []);
      dfHist := dfHist + [newDf];
      undoHist := undoHist + [DfChange];
      MsgCbs();
    }

    /**
     * `insert_column`: only a column of the current table can be inserted; `newCols` is the
     * list `insert_item_if_not_present` builds, which this model does not compute.
     */
    method InsertColumn(colName: string, newCols: seq<string>) returns (changed: bool)
      requires Valid()
      modifies this`colsHist, this`undoHist, view`topRow, view`selectedRow, view.caches.Values
      ensures !HasColumn(old(Df()), colName) ==> !changed && Hist() == old(Hist())
      ensures HasColumn(old(Df()), colName) ==> Hist() == ChangeCols(old(Hist()), newCols) && (changed <==> old(BrowseColumns()) != newCols)
      ensures !changed ==>
        view.topRow == old(view.topRow) && view.selectedRow == old(view.selectedRow) && unchanged(old(view.caches.Values))
      ensures changed ==> view.Refreshed(old(view.topRow), old(view.selectedRow), Df().rowCount)
      ensures unchanged(this`changeCbs, this`focusedColumnIndex)
      ensures Valid()
    {
      if colName in Df().columns {
        changed := ChangeDisplayCols(newCols);
      } else {
        changed := false;
      }
    }

    /** `hide_col_by_index`: `newCols` is the list `remove_list_index` builds, which this model does not compute. */
    method HideColByIndex(newCols: seq<string>) returns (changed: bool)
      requires Valid()
      modifies this`colsHist, this`undoHist, view`topRow, view`selectedRow, view.caches.Values
      ensures changed <==> old(BrowseColumns()) != newCols
      ensures Hist() == ChangeCols(old(Hist()), newCols)
      ensures !changed ==>
        view.topRow == old(view.topRow) && view.selectedRow == old(view.selectedRow) && unchanged(old(view.caches.Values))
      ensures changed ==> view.Refreshed(old(view.topRow), old(view.selectedRow), Df().rowCount)
      ensures unchanged(this`changeCbs, this`focusedColumnIndex)
      ensures Valid()
    {
      changed := ChangeDisplayCols(newCols);
    }

    /** The loop of `undo(n)`: up to `n` tags are popped, each with the history entry it names. */
    method PopChanges(n: int)
      requires Consistent(Hist())
      modifies this`dfHist, this`colsHist, this`undoHist
      ensures Hist() == UndoN(old(Hist()), n)
    {
      var count := n;
      while count > 0 && |undoHist| > 0
        invariant Consistent(Hist())
        invariant UndoN(Hist(), count) == UndoN(old(Hist()), n)
        decreases count
      {
        ghost var before := Hist();
        var tag := undoHist[|undoHist| - 1];
        undoHist := undoHist[..|undoHist| - 1];
        if tag == DfChange {
          dfHist := dfHist[..|dfHist| - 1];
        } else {
          colsHist := colsHist[..|colsHist| - 1];
        }
        assert Hist() == UndoOne(before);
        assert UndoN(before, count) == UndoN(Hist(), count - 1);
        count := count - 1;
      }
    }

    /**
     * `undo(n)`: up to `n` changes are taken back, newest first; the asserts after the loop
     * (neither history is empty) always hold; then the observers are told.
     */
    method Undo(n: int)
      requires Valid()
      modifies this`dfHist, this`colsHist, this`undoHist, view`topRow, view`selectedRow, view.caches.Values
      ensures Valid()
      ensures Hist() == UndoN(old(Hist()), n)
      ensures |undoHist| == |old(undoHist)| - Popped(|old(undoHist)|, n)
      ensures view.Refreshed(old(view.topRow), old(view.selectedRow), Df().rowCount)
      ensures unchanged(this`changeCbs, this`focusedColumnIndex)
    {
      PopChanges(n);
      UndoNShape(old(Hist()), n);
      assert |dfHist| > 0;
      assert |colsHist| > 0;
      assert forall i :: 0 <= i < |dfHist| ==> dfHist[i] == old(dfHist)[i];
      MsgCbs();
    }

    /** `add_change_callback`: an observer is added once. */
    method AddChangeCallback(cb: Observer)
      requires Valid()
      modifies this
      ensures changeCbs == if cb in old(changeCbs) then old(changeCbs) else old(changeCbs) + [cb]
      ensures cb in changeCbs
      ensures Hist() == old(Hist()) && focusedColumnIndex == old(focusedColumnIndex)
      ensures Valid()
    {
      if cb !in changeCbs {
        changeCbs := changeCbs + [cb];
      }
    }

    /** The `focused_column_index` setter: the assert admits only a position of the displayed columns. */
    method SetFocusedColumnIndex(newFocusCol: int) returns (ok: bool)
      requires |colsHist| > 0
      modifies this`focusedColumnIndex
      ensures ok <==> 0 <= newFocusCol < |BrowseColumns()|
      ensures focusedColumnIndex == if ok then newFocusCol else old(focusedColumnIndex)
    {
      if !(newFocusCol < |BrowseColumns()| && newFocusCol >= 0) {
        return false;
      }
      focusedColumnIndex := newFocusCol;
      return true;
    }

    /**
     * `jump`: to a 1-based row or a fraction of the table through the view, or to a displayed
     * column by name; either one can fail (an assert of `jump_to_row`, or `index` not finding
     * the name), and then nothing changes and the observers are not told.
     */
    method Jump(location: Location) returns (ok: bool)
      requires Valid()
      modifies this`focusedColumnIndex, view`topRow, view`selectedRow, view.caches.Values
      ensures Valid() && Hist() == old(Hist()) && changeCbs == old(changeCbs)
      ensures !location.Column? ==>
        var target := JumpTarget(RowLocationOf(location), true, Df().rowCount);
        && (ok <==> target.Some? && 0 <= target.value <= Df().rowCount)
        && (ok ==> view.selectedRow == ClampRow(target.value, Df().rowCount))
        && (ok ==> view.topRow == ScrolledTop(old(view.topRow), view.selectedRow, target.value - old(view.selectedRow)))
        && focusedColumnIndex == old(focusedColumnIndex)
      ensures location.Column? ==> (ok <==> location.name in old(BrowseColumns()))
      ensures location.Column? && ok ==> focusedColumnIndex == IndexOf(BrowseColumns(), location.name)
      ensures location.Column? && ok ==> view.Refreshed(old(view.topRow), old(view.selectedRow), Df().rowCount)
      ensures !location.Column? && ok ==> view.Cleared()
      ensures !ok ==> view.selectedRow == old(view.selectedRow) && view.topRow == old(view.topRow)
      ensures !ok ==> focusedColumnIndex == old(focusedColumnIndex) && unchanged(old(view.caches.Values))
    {
      if !location.Column? {
        ok := JumpRowAndNotify(RowLocationOf(location));
      } else {
        if location.name !in BrowseColumns() {
          return false;
        }
        var focused := SetFocusedColumnIndex(IndexOf(BrowseColumns(), location.name));
        MsgCbs();
        return true;
      }
    }

    /** The row path of `jump`: `jump_to_row` with 1-based rows, then, when its asserts hold, `_msg_cbs`. */
    method JumpRowAndNotify(location: RowLocation) returns (ok: bool)
      requires Valid()
      modifies view`topRow, view`selectedRow, view.caches.Values
      ensures Valid()
      ensures var target := JumpTarget(location, true, Df().rowCount);
        && (ok <==> target.Some? && 0 <= target.value <= Df().rowCount)
        && (ok ==> view.selectedRow == ClampRow(target.value, Df().rowCount))
        && (ok ==> view.topRow == ScrolledTop(old(view.topRow), view.selectedRow, target.value - old(view.selectedRow)))
      ensures ok ==> view.Cleared()
      ensures forall c :: c in view.caches ==>
        view.caches[c].nativeWidth == old(view.caches[c].nativeWidth) && view.caches[c].assignedWidth == old(view.caches[c].assignedWidth)
      ensures !ok ==> view.selectedRow == old(view.selectedRow) && view.topRow == old(view.topRow)
      ensures !ok ==> unchanged(old(view.caches.Values))
    {
      ok := view.JumpToRow(location, true, Df().rowCount);
      if ok {
        ClampKeepsViewport(view.topRow, view.selectedRow, Df().rowCount);
        MsgCbs();
      }
    }
  }
}
