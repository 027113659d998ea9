/**
 * `DataframeRowView` (df_browse/dataframe_browser.py): the viewport onto the rows of the
 * current table (its top row and its selected row, moved with scroll margins) and the
 * per-column segment caches it reads rows and searches through.
 */
module RowView {
  import opened Wrappers
  import opened Tables
  import opened ChunkSearch
  import opened ColumnCache

  const DefaultViewHeight: int := 100
  const DefaultScrollMarginUp: int := 10
  const DefaultScrollMarginDown: int := 30

  /** `max(0, min(row, len - 1))`: the nearest row of a table of `len` rows (row 0 when it is empty). */
  function ClampRow(row: int, len: int): (r: int)
    ensures 0 <= r <= Max(0, len - 1)
    ensures 0 <= row <= len - 1 ==> r == row
  {
    Max(0, Min(row, len - 1))
  }

  /** Where `scroll_rows(n)` leaves the top row once the selection has moved to `selected`. */
  function ScrolledTop(top: int, selected: int, n: int): int {
    if n > 0 then Max(top, selected - DefaultScrollMarginDown)
    else if n < 0 then Min(top, Max(0, selected - DefaultScrollMarginUp))
    else top
  }

  /** The invariant `scroll_rows` and `selected_relative` assert, plus the selection being a row. */
  predicate InViewport(top: int, selected: int, len: int) {
    0 <= top <= selected <= top + DefaultViewHeight && selected <= Max(0, len - 1)
  }

  /** The closed form of `scroll_rows` keeps the viewport invariant. */
  lemma ScrollKeepsViewport(top: int, selected: int, n: int, len: int)
    requires InViewport(top, selected, len)
    ensures var s := ClampRow(selected + n, len); InViewport(ScrolledTop(top, s, n), s, len)
  {
  }

  /** From the first row, scrolling down 85 rows leaves 30 rows above the selection in view. */
  lemma ScrollDownFromTopExample(len: int)
    requires len > 85
    ensures ClampRow(0 + 85, len) == 85 && ScrolledTop(0, ClampRow(0 + 85, len), 85) == 55
  {
  }

  /** The row `search` starts from: the selected row, or the next one in the search direction. */
  function StartingRow(selected: int, down: bool, skipCurrent: bool): (r: int)
    ensures skipCurrent ==> r == (if down then selected + 1 else selected - 1)
    ensures !skipCurrent ==> r == selected
  {
    var skip := if skipCurrent then 1 else 0;
    if down then selected + skip else selected - skip
  }

  /** The argument of `jump_to_row`: an integer row index, or a fraction of the table's length. */
  datatype RowLocation = RowIndex(index: int) | RowFraction(fraction: real)

  /** Python's `int(x)` on a float: truncation toward zero. */
  function Truncate(x: real): int {
    if x >= 0.0 then x.Floor else -((-x).Floor)
  }

  /**
   * Where `jump_to_row` aims: a fraction (which must lie in `[0.0, 1.0]`, else the first
   * assert fails and there is no target) is scaled by the table's length and truncated; an
   * integer is moved to 0-based when asked to.
   */
  function JumpTarget(location: RowLocation, oneBased: bool, len: int): Option<int> {
    match location
    case RowFraction(f) => if 0.0 <= f <= 1.0 then Some(Truncate(f * len as real)) else None
    case RowIndex(i) => Some(if oneBased then i - 1 else i)
  }

  lemma ProductNonNegative(a: real, b: real)
    requires 0.0 <= a && 0.0 <= b
    ensures 0.0 <= a * b
  {
  }

  /** A fraction in `[0.0, 1.0]` always aims inside `[0, len]`, so the second assert holds for it. */
  lemma FractionTargetInRange(f: real, len: int)
    requires 0.0 <= f <= 1.0 && 0 <= len
    ensures var t := JumpTarget(RowFraction(f), true, len); t.Some? && 0 <= t.value <= len
  {
    var n := len as real;
    var x := f * n;
    ProductNonNegative(f, n);
    ProductNonNegative(1.0 - f, n);
    assert n - x == (1.0 - f) * n;
    assert x.Floor as real <= x;
  }

  /** `jump(0.0)` and `jump(1.0)` (the first-row and last-row keys) select the first and the last row. */
  lemma FractionJumpEnds(len: int)
    requires 0 < len
    ensures JumpTarget(RowFraction(0.0), true, len).Some? && JumpTarget(RowFraction(0.0), true, len).value == 0
    ensures JumpTarget(RowFraction(1.0), true, len).Some? && JumpTarget(RowFraction(1.0), true, len).value == len
    ensures ClampRow(0, len) == 0 && ClampRow(len, len) == len - 1
  {
  }

  /** Rows in the viewport of a table are left where they are by clamping to that table. */
  lemma ClampKeepsViewport(top: int, selected: int, len: int)
    requires InViewport(top, selected, len)
    ensures ClampRow(top, len) == top && ClampRow(selected, len) == selected
  {
  }

  class DataframeRowView {
    var topRow: int
    var selectedRow: int
    /** The `defaultdict` of segment caches, keyed by column name. */
    var caches: map<string, DataframeColumnSegmentCache>
    const viewHeight: int := DefaultViewHeight
    const scrollMarginUp: int := DefaultScrollMarginUp
    const scrollMarginDown: int := DefaultScrollMarginDown

    /** The viewport invariant for a table of `len` rows. */
    predicate Valid(len: int)
      reads this
    {
      InViewport(topRow, selectedRow, len)
    }

    /** Every cache sits under its own column's name and is itself consistent. */
    predicate CachesSound()
      reads this, caches.Values
    {
      forall c :: c in caches ==> caches[c].columnName == c && caches[c].Valid()
    }

    /** Every cache window holds rows of table `t`. */
    predicate CachesMirror(t: Table)
      reads this, caches.Values
    {
      forall c :: c in caches ==> caches[c].Mirrors(t)
    }

    /** Every cache window is empty and starts at row 0, as `clear_cache` leaves it. */
    predicate Cleared()
      reads this, caches.Values
    {
      forall c :: c in caches ==> caches[c].topOfCache == 0 && caches[c].rowStrings == []
    }

    /**
     * The view as `df_changed` leaves it for a table of `len` rows, when it started from rows
     * `top` and `selected`: both rows clamped and every cache emptied.
     */
    predicate Refreshed(top: int, selected: int, len: int)
      reads this, caches.Values
    {
      selectedRow == ClampRow(selected, len) && topRow == ClampRow(top, len) && Cleared()
    }

    constructor()
      ensures topRow == 0 && selectedRow == 0 && caches == map[]
      ensures forall len :: Valid(len)
      ensures CachesSound() && forall t :: CachesMirror(t)
    {
      topRow := 0;
      selectedRow := 0;
      caches := map[];
    }

    /** `selected_relative`: the selection's offset in the viewport, under the asserted invariant. */
    function SelectedRelative(): (r: int)
      reads this
      requires selectedRow >= topRow && selectedRow <= topRow + viewHeight
      ensures 0 <= r <= viewHeight && topRow + r == selectedRow
    {
      selectedRow - topRow
    }

    /**
     * `scroll_rows(n)`: the selection moves by `n` and is clamped to the table; the top row
     * then follows one row at a time until the selection is within the margin in the
     * direction of travel. The assert the source ends with always holds.
     */
    method ScrollRows(n: int, len: int)
      requires Valid(len)
      modifies this`topRow, this`selectedRow
      ensures selectedRow == ClampRow(old(selectedRow) + n, len)
      ensures topRow == ScrolledTop(old(topRow), selectedRow, n)
      ensures Valid(len)
    {
      selectedRow := Max(0, Min(selectedRow + n, len - 1));
      ghost var selected := selectedRow;
      if n > 0 {
        while selectedRow > topRow + scrollMarginDown
          invariant selectedRow == selected
          invariant old(topRow) <= topRow <= Max(old(topRow), selectedRow - scrollMarginDown)
          decreases selectedRow - topRow
        {
          topRow := topRow + 1;
        }
      } else if n < 0 {
        while selectedRow < topRow + scrollMarginUp && topRow > 0
          invariant selectedRow == selected
          invariant Min(old(topRow), Max(0, selectedRow - scrollMarginUp)) <= topRow <= old(topRow)
          decreases topRow
        {
          topRow := topRow - 1;
        }
      }
      ScrollKeepsViewport(old(topRow), old(selectedRow), n, len);
      assert selectedRow >= topRow && selectedRow <= topRow + viewHeight;
    }

    /**
     * `jump_to_row`: a fraction must lie in `[0.0, 1.0]` and is scaled by the table's length;
     * the target must lie in `[0, len]` (the asserts), and the view then scrolls by the
     * distance from the selection to the target.
     */
    method JumpToRow(location: RowLocation, oneBased: bool, len: int) returns (ok: bool)
      requires Valid(len)
      modifies this`topRow, this`selectedRow
      ensures var target := JumpTarget(location, oneBased, len);
        ok <==> target.Some? && 0 <= target.value <= len
      ensures !ok ==> topRow == old(topRow) && selectedRow == old(selectedRow)
      ensures ok ==> selectedRow == ClampRow(JumpTarget(location, oneBased, len).value, len)
      ensures ok ==> topRow == ScrolledTop(old(topRow), selectedRow, JumpTarget(location, oneBased, len).value - old(selectedRow))
      ensures Valid(len)
    {
      ghost var target := JumpTarget(location, oneBased, len);
      var loc: int;
      match location {
      case RowFraction(f) =>
        if !(f >= 0.0 && f <= 1.0) {
          return false;
        }
        loc := Truncate(f * len as real);
      case RowIndex(i) =>
        loc := if oneBased then i - 1 else i;
      }
      assert target.Some? && target.value == loc;
      if !(loc >= 0 && loc <= len) {
        return false;
      }
      ScrollRows(loc - selectedRow, len);
      return true;
    }

    /** The loop of `df_changed`: every cache is emptied and keeps its widths. */
    method ClearCaches()
      requires CachesSound()
      modifies caches.Values
      ensures forall c :: c in caches ==> caches[c].topOfCache == 0 && caches[c].rowStrings == []
      ensures forall c :: c in caches ==>
        caches[c].nativeWidth == old(caches[c].nativeWidth) && caches[c].assignedWidth == old(caches[c].assignedWidth)
      ensures CachesSound()
    {
      var pending := caches.Keys;
      while pending != {}
        invariant pending <= caches.Keys
        invariant forall c :: c in caches && c !in pending ==> caches[c].topOfCache == 0 && caches[c].rowStrings == []
        invariant forall c :: c in caches ==>
          caches[c].nativeWidth == old(caches[c].nativeWidth) && caches[c].assignedWidth == old(caches[c].assignedWidth)
        invariant CachesSound()
        decreases pending
      {
        var name :| name in pending;
        caches[name].ClearCache();
        pending := pending - {name};
      }
    }

    /**
     * `df_changed`: every cache is emptied (its widths kept), then the selected and top rows
     * are clamped to the new table's rows.
     */
    method DfChanged(t: Table)
      requires CachesSound()
      modifies this`topRow, this`selectedRow, caches.Values
      ensures forall c :: c in caches ==> caches[c].topOfCache == 0 && caches[c].rowStrings == []
      ensures forall c :: c in caches ==>
        caches[c].nativeWidth == old(caches[c].nativeWidth) && caches[c].assignedWidth == old(caches[c].assignedWidth)
      ensures selectedRow == ClampRow(old(selectedRow), t.rowCount)
      ensures topRow == ClampRow(old(topRow), t.rowCount)
      ensures old(0 <= topRow <= selectedRow <= topRow + viewHeight) ==> Valid(t.rowCount)
      ensures CachesSound() && CachesMirror(t)
    {
      ClearCaches();
      var newLastRow := t.rowCount - 1;
      selectedRow := Max(0, Min(selectedRow, newLastRow));
      topRow := Max(0, Min(topRow, newLastRow));
    }

    /**
     * The `defaultdict` lookup: the cache already kept for `col`, or a new one stored under
     * `col`; creating one reads the column's dtype, which fails (null here) when the table
     * has no such column.
     */
    method CacheFor(col: string, t: Table) returns (c: DataframeColumnSegmentCache?)
      requires CachesSound() && CachesMirror(t)
      modifies this`caches
      ensures c != null <==> col in old(caches) || col in t.cells
      ensures c == null ==> caches == old(caches)
      ensures c != null && col in old(caches) ==> caches == old(caches) && c == caches[col]
      ensures c != null && col !in old(caches) ==> fresh(c) && caches == old(caches)[col := c]
      ensures c != null && col !in old(caches) ==>
        && c.topOfCache == 0 && c.rowStrings == [] && c.nativeWidth == None && c.assignedWidth == None
        && c.isNumeric == (col in t.numeric)
      ensures c != null ==> c.columnName == col
      ensures CachesSound() && CachesMirror(t)
    {
      if col in caches {
        return caches[col];
      }
      if col !in t.cells {
        return null;
      }
      c := new DataframeColumnSegmentCache(t, col);
      caches := caches[col := c];
    }

    /** The first row `lines` shows: the one asked for, by default the view's top row. */
    function LinesTop(top: Option<int>): int
      reads this
    {
      if top.Some? then top.value else topRow
    }

    /** The row `lines` stops before: the one asked for, by default a view's height below `lo` or the table's end. */
    function LinesBottom(lo: int, bottom: Option<int>, rowCount: nat): int {
      if bottom.Some? then bottom.value else Min(lo + viewHeight, rowCount)
    }

    /**
     * `lines(col, top, bottom)`: the cleaned strings of rows `top .. bottom - 1` of the column,
     * by default from the top row of the view to a view's height further (or the table's end).
     */
    method Lines(col: string, top: Option<int>, bottom: Option<int>, t: Table) returns (r: Option<seq<string>>)
      requires WellFormed(t) && Valid(t.rowCount) && CachesSound() && CachesMirror(t)
      requires top.Some? ==> top.value >= 0
      modifies this`caches, caches.Values
      ensures r.Some? ==> col in caches
      ensures forall c :: c in old(caches) && c != col ==> unchanged(old(caches)[c])
      ensures col in old(caches) || col !in t.cells ==> caches == old(caches)
      ensures col !in old(caches) && col in t.cells ==> col in caches && fresh(caches[col]) && caches == old(caches)[col := caches[col]]
      ensures col in caches ==> caches[col].assignedWidth == if col in old(caches) then old(caches[col].assignedWidth) else None
      ensures var lo := LinesTop(top); var hi := LinesBottom(lo, bottom, t.rowCount);
        r.Some? && col in t.cells && lo <= hi ==> r.value == CleanAll(Slice(t.cells[col], lo, hi), caches[col].isNumeric)
      ensures r.Some? && col !in t.cells ==> r.value == []
      ensures r.None? ==> col !in t.cells || RefetchTop(LinesTop(top)) > t.rowCount
      ensures col in t.cells ==> col in caches
      ensures caches.Keys == old(caches.Keys) || caches.Keys == old(caches.Keys) + {col}
      ensures CachesSound() && CachesMirror(t)
    {
      var lo := LinesTop(top);
      var hi := LinesBottom(lo, bottom, t.rowCount);
      var cache := CacheFor(col, t);
      if cache == null {
        return None;
      }
      r := cache.Rows(lo, hi, t);
      assert caches[col] == cache && cache.columnName == col;
    }

    /**
     * `search`: the column's cache is searched from the selected row (or the next one in the
     * search direction), and on a hit the view scrolls to the row found.
     */
    method Search(col: string, needle: string, down: bool, skipCurrent: bool, caseInsensitive: bool, t: Table)
      returns (r: Option<bool>)
      requires WellFormed(t) && Valid(t.rowCount) && CachesSound() && CachesMirror(t)
      modifies this`caches, this`topRow, this`selectedRow
      ensures r.None? <==> col !in t.cells
      ensures r.Some? ==> col in caches
      ensures col in old(caches) || col !in t.cells ==> caches == old(caches)
      ensures col !in old(caches) && col in t.cells ==>
        && fresh(caches[col]) && caches == old(caches)[col := caches[col]]
        && caches[col].topOfCache == 0 && caches[col].rowStrings == []
      ensures var sr := StartingRow(old(selectedRow), down, skipCurrent);
        r.Some? ==>
          var hit := CacheSearchResult(caches[col].rowStrings, caches[col].topOfCache, t.cells[col], needle, sr, down, caseInsensitive);
          && (r.value <==> hit.Some?)
          && (hit.Some? ==> selectedRow == ClampRow(hit.value, t.rowCount))
          && (hit.Some? ==> topRow == ScrolledTop(old(topRow), selectedRow, hit.value - old(selectedRow)))
      ensures r != Some(true) ==> topRow == old(topRow) && selectedRow == old(selectedRow)
      ensures Valid(t.rowCount) && CachesSound() && CachesMirror(t)
    {
      var sr := if down then selectedRow + (if skipCurrent then 1 else 0) else selectedRow - (if skipCurrent then 1 else 0);
      var cache := CacheFor(col, t);
      if cache == null || col !in t.cells {
        return None;
      }
      var index := cache.SearchCache(needle, sr, down, caseInsensitive, t);
      if index.Some? {
        ScrollRows(index.value - selectedRow, t.rowCount);
        return Some(true);
      }
      return Some(false);
    }
  }
}
