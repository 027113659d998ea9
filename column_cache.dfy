/**
 * `DataframeColumnSegmentCache` (df_browse/dataframe_browser.py): a window of the
 * cleaned rendered strings of one column, the column's native and assigned display
 * widths, and the search that tries the window before walking the whole column.
 */
module ColumnCache {
  import opened Wrappers
  import opened Text
  import opened Tables
  import opened ChunkSearch

  const MinWidth: int := 2
  const MaxWidth: int := 50
  /** The window size a refetch aims for (`std_cache_size`, never overridden by the browser). */
  const StdCacheSize: int := 200
  /** The rows a refetch keeps above and below the requested ones (`min_cache_on_either_side`). */
  const MinCacheOnEitherSide: int := 50

  /** A cached string as `_update_native_width` leaves it: stripped, and `NaN` blanked in a non-numeric column. */
  function Clean(s: string, isNumeric: bool): string {
    var stripped := Strip(s);
    if !isNumeric && stripped == "NaN" then "" else stripped
  }

  function CleanAll(rows: seq<string>, isNumeric: bool): (r: seq<string>)
    ensures |r| == |rows|
    ensures forall k :: 0 <= k < |rows| ==> r[k] == Clean(rows[k], isNumeric)
  {
    seq(|rows|, k requires 0 <= k < |rows| => Clean(rows[k], isNumeric))
  }

  /** The width the loop of `_update_native_width` reaches after the strings `rows`, starting from `init`. */
  function WidthFold(init: int, rows: seq<string>): int
    decreases |rows|
  {
    if rows == [] then init
    else Min(MaxWidth, Max(WidthFold(init, rows[..|rows| - 1]), |rows[|rows| - 1]|))
  }

  /** The length of the longest string of `rows` (0 for none). */
  function MaxLen(rows: seq<string>): (r: nat)
    ensures forall k :: 0 <= k < |rows| ==> |rows[k]| <= r
    ensures rows != [] ==> exists k :: 0 <= k < |rows| && |rows[k]| == r
    decreases |rows|
  {
    if rows == [] then 0
    else
      var m := MaxLen(rows[..|rows| - 1]);
      assert forall k :: 0 <= k < |rows| - 1 ==> rows[..|rows| - 1][k] == rows[k];
      if m >= |rows[|rows| - 1]| then m else |rows[|rows| - 1]|
  }

  /**
   * The native width of a column: the header's length, at least `MinWidth`; once rows are
   * cached, widened to the longest cached string and then capped at `MaxWidth`.
   */
  function NativeWidthFor(name: string, rows: seq<string>): int {
    var base := Max(|name|, MinWidth);
    if rows == [] then base else Min(MaxWidth, Max(base, MaxLen(rows)))
  }

  /** One more row widens the fold by that row's length, capped. */
  lemma WidthFoldStep(init: int, rows: seq<string>, idx: int)
    requires 0 <= idx < |rows|
    ensures WidthFold(init, rows[..idx + 1]) == Min(MaxWidth, Max(WidthFold(init, rows[..idx]), |rows[idx]|))
  {
    assert rows[..idx + 1][..idx] == rows[..idx];
  }

  /** The row-by-row loop computes the closed form. */
  lemma {:induction false} WidthFoldClosedForm(init: int, rows: seq<string>)
    ensures WidthFold(init, rows) == if rows == [] then init else Min(MaxWidth, Max(init, MaxLen(rows)))
    decreases |rows|
  {
    if rows != [] {
      WidthFoldClosedForm(init, rows[..|rows| - 1]);
    }
  }

  /**
   * The native width is never below `MinWidth`, below the header's length (up to the cap),
   * or below any cached string's length (up to the cap); with rows cached it is at most `MaxWidth`.
   * A header longer than `MaxWidth` is cut to the cap once rows are cached.
   */
  lemma NativeWidthBounds(name: string, rows: seq<string>)
    ensures var w := NativeWidthFor(name, rows);
      && MinWidth <= w
      && Min(MaxWidth, Max(|name|, MinWidth)) <= w
      && (forall k :: 0 <= k < |rows| ==> Min(MaxWidth, |rows[k]|) <= w)
      && (rows != [] ==> w <= MaxWidth)
      && (rows == [] ==> w == Max(|name|, MinWidth))
  {
  }

  /** `max(MIN_WIDTH, min(MAX_WIDTH, w))`. */
  function ClampWidth(w: int): (r: int)
    ensures MinWidth <= r <= MaxWidth
    ensures MinWidth <= w <= MaxWidth ==> r == w
    ensures w < MinWidth ==> r == MinWidth
    ensures w > MaxWidth ==> r == MaxWidth
  {
    Max(MinWidth, Min(MaxWidth, w))
  }

  /**
   * Slicing a window that holds the cleaned rows `toc ..` of `column` at `top - toc` gives the
   * cleaned rows `top .. bottom - 1` of the column, provided the window starts at or above `top`
   * and reaches `bottom` or the end of the column.  (With `bottom` above `top` the window's
   * end would be counted from its end, as Python does with a negative index.)
   */
  lemma WindowSlice(window: seq<string>, toc: nat, column: seq<string>, isNumeric: bool, top: int, bottom: int)
    requires toc <= top <= bottom && toc + |window| <= |column|
    requires window == CleanAll(column[toc..toc + |window|], isNumeric)
    requires bottom <= toc + |window| || toc + |window| == |column|
    ensures Slice(window, top - toc, bottom - toc) == CleanAll(Slice(column, top, bottom), isNumeric)
  {
    var r := Slice(window, top - toc, bottom - toc);
    var s := Slice(column, top, bottom);
    var c := CleanAll(s, isNumeric);
    var w := column[toc..toc + |window|];
    assert |r| == |c|;
    forall k | 0 <= k < |r| ensures r[k] == c[k] {
      calc {
        r[k];
        window[top - toc + k];
        Clean(w[top - toc + k], isNumeric);
        { assert w[top - toc + k] == column[top + k] == s[k]; }
        Clean(s[k], isNumeric);
        c[k];
      }
    }
  }

  /**
   * What `rows` returns from a window that mirrors `column` when it holds anything, starts at
   * or above `top`, and reaches `bottom` or the end of the column.
   */
  lemma WindowRows(window: seq<string>, toc: nat, column: seq<string>, isNumeric: bool, top: int, bottom: int)
    requires window != [] ==> toc + |window| <= |column| && window == CleanAll(column[toc..toc + |window|], isNumeric)
    requires toc <= top <= bottom
    requires bottom <= toc + |window| || toc + |window| == |column|
    ensures Slice(window, top - toc, bottom - toc) == CleanAll(Slice(column, top, bottom), isNumeric)
  {
    if window != [] {
      WindowSlice(window, toc, column, isNumeric, top, bottom);
    }
  }

  /** A cached string is a piece of its raw string, or empty. */
  lemma CleanIsPiece(s: string, isNumeric: bool) returns (i: nat)
    ensures var c := Clean(s, isNumeric); c == [] || (i + |c| <= |s| && c == s[i..i + |c|])
  {
    StripShape(s);
    i := |s| - |TrimStart(s)|;
  }

  /** A hit in a piece of `s` is a hit in `s`. */
  lemma MatchInPiece(s: string, i: int, j: int, needle: string, caseInsensitive: bool)
    requires 0 <= i <= j <= |s| && Matches(s[i..j], needle, caseInsensitive)
    ensures Matches(s, needle, caseInsensitive)
  {
    if caseInsensitive {
      assert Lower(s[i..j]) == Lower(s)[i..j];
      ContainsSlice(Lower(s), i, j, Lower(needle));
    } else {
      ContainsSlice(s, i, j, needle);
    }
  }

  /**
   * A cached string only matches where its raw string does: stripping keeps a piece of the
   * string, and a blanked `NaN` only matches the empty needle, which every string contains.
   */
  lemma CleanedMatchIsRawMatch(s: string, needle: string, isNumeric: bool, caseInsensitive: bool)
    requires Matches(Clean(s, isNumeric), needle, caseInsensitive)
    ensures Matches(s, needle, caseInsensitive)
  {
    var c := Clean(s, isNumeric);
    var i := CleanIsPiece(s, isNumeric);
    if c == [] {
      MatchInPiece(s, 0, 0, needle, caseInsensitive);
    } else {
      MatchInPiece(s, i, i + |c|, needle, caseInsensitive);
    }
  }

  /** The first row of a refetched window: `max(top - min_cache_on_either_side, 0)`. */
  function RefetchTop(top: int): int {
    Max(top - MinCacheOnEitherSide, 0)
  }

  /** The end of a refetched window: padded below `bottom`, at least a standard window long, cut at the table's end. */
  function RefetchBottom(rowCount: int, top: int, bottom: int): int {
    Min(rowCount, Max(bottom + MinCacheOnEitherSide, RefetchTop(top) + StdCacheSize))
  }

  /**
   * The fetched slice has the length `rows` checks for exactly when the padded window starts
   * within the column, and it is then the column's rows between the two bounds.
   */
  lemma RefetchWindow(column: seq<string>, top: int, bottom: int)
    ensures var lo, hi := RefetchTop(top), RefetchBottom(|column|, top, bottom);
      && (|Slice(column, lo, hi)| == hi - lo <==> lo <= |column|)
      && (lo <= |column| ==> 0 <= lo <= hi <= |column| && Slice(column, lo, hi) == column[lo..hi])
  {
  }

  /**
   * The column as `search_cache` sees it: the cached (cleaned) strings over the window's rows,
   * the raw rendered strings everywhere else.
   */
  function Merged(window: seq<string>, toc: nat, column: seq<string>): (r: seq<string>)
    requires toc + |window| <= |column|
    ensures |r| == |column|
    ensures forall k :: 0 <= k < toc ==> r[k] == column[k]
    ensures forall k :: 0 <= k < |window| ==> r[toc + k] == window[k]
    ensures forall k :: toc + |window| <= k < |column| ==> r[k] == column[k]
  {
    column[..toc] + window + column[toc + |window|..]
  }

  /** Two lists that agree from `i` on have the same first hit from `i`. */
  lemma {:induction false} FirstMatchAgree(a: seq<string>, b: seq<string>, needle: string, i: int, caseInsensitive: bool)
    requires 0 <= i <= |a| == |b|
    requires forall k :: i <= k < |a| ==> a[k] == b[k]
    ensures FirstMatchFrom(a, needle, i, caseInsensitive) == FirstMatchFrom(b, needle, i, caseInsensitive)
    decreases |a| - i
  {
    if i < |a| {
      FirstMatchAgree(a, b, needle, i + 1, caseInsensitive);
    }
  }

  /** Two lists that agree up to `i` have the same last hit up to `i`. */
  lemma {:induction false} LastMatchAgree(a: seq<string>, b: seq<string>, needle: string, i: int, caseInsensitive: bool)
    requires -1 <= i < |a| == |b|
    requires forall k :: 0 <= k <= i ==> a[k] == b[k]
    ensures LastMatchUpTo(a, needle, i, caseInsensitive) == LastMatchUpTo(b, needle, i, caseInsensitive)
    decreases i + 1
  {
    if i >= 0 {
      LastMatchAgree(a, b, needle, i - 1, caseInsensitive);
    }
  }

  /**
   * What `search_cache` returns, given the window `window` starting at row `toc` and the raw
   * rendered `column`: a hit of the window search started at `startingRow - toc`, moved back to
   * row numbers; failing that, the hit of the chunk walk over the whole column, which starts
   * below the window going down and at the window's first row going up.
   */
  function CacheSearchResult(window: seq<string>, toc: nat, column: seq<string>, needle: string, startingRow: int,
                             down: bool, caseInsensitive: bool): Option<int>
  {
    var local := ListSearch(window, needle, startingRow - toc, down, caseInsensitive);
    if local.Some? then Shift(local, toc)
    else if down then FirstMatchFrom(column, needle, Min(toc + |window|, |column|), caseInsensitive)
    else LastMatchUpTo(column, needle, Min(toc, |column| - 1), caseInsensitive)
  }

  /**
   * Searching `lst` down from `i` where its rows `toc ..` are `window`: a hit in the window
   * (searched from `i - toc`) comes first, otherwise the search goes on below the window.
   */
  lemma {:induction false} FirstMatchThroughWindow(lst: seq<string>, window: seq<string>, toc: nat, needle: string, i: int,
                                                   caseInsensitive: bool)
    requires toc <= i <= toc + |window| <= |lst|
    requires forall k :: 0 <= k < |window| ==> lst[toc + k] == window[k]
    ensures FirstMatchFrom(lst, needle, i, caseInsensitive)
            == match FirstMatchFrom(window, needle, i - toc, caseInsensitive)
               case Some(j) => Some(toc + j)
               case None => FirstMatchFrom(lst, needle, toc + |window|, caseInsensitive)
    decreases toc + |window| - i
  {
    if i < toc + |window| {
      assert lst[i] == window[i - toc];
      FirstMatchThroughWindow(lst, window, toc, needle, i + 1, caseInsensitive);
    }
  }

  /**
   * Searching `lst` up from `i` where its rows `toc ..` are `window`: a hit in the window
   * (searched from `i - toc`) comes first, otherwise the search goes on above the window.
   */
  lemma {:induction false} LastMatchThroughWindow(lst: seq<string>, window: seq<string>, toc: nat, needle: string, i: int,
                                                  caseInsensitive: bool)
    requires toc - 1 <= i < toc + |window| <= |lst|
    requires forall k :: 0 <= k < |window| ==> lst[toc + k] == window[k]
    ensures LastMatchUpTo(lst, needle, i, caseInsensitive)
            == match LastMatchUpTo(window, needle, i - toc, caseInsensitive)
               case Some(j) => Some(toc + j)
               case None => LastMatchUpTo(lst, needle, toc - 1, caseInsensitive)
    decreases i - toc + 1
  {
    if i >= toc {
      assert lst[i] == window[i - toc];
      LastMatchThroughWindow(lst, window, toc, needle, i - 1, caseInsensitive);
    }
  }

  /** A last hit up to `i` is at most `i`. */
  lemma {:induction false} LastMatchAtMost(lst: seq<string>, needle: string, i: int, caseInsensitive: bool)
    requires -1 <= i < |lst|
    ensures var r := LastMatchUpTo(lst, needle, i, caseInsensitive); r.Some? ==> 0 <= r.value <= i
    decreases i + 1
  {
    if i >= 0 {
      LastMatchAtMost(lst, needle, i - 1, caseInsensitive);
    }
  }

  /**
   * Searching down from a row of the window (or the row just below it) finds the first row at
   * or below it that matches, cached strings standing for the window's rows.
   */
  lemma SearchCacheDownward(window: seq<string>, toc: nat, column: seq<string>, needle: string, startingRow: int,
                            caseInsensitive: bool)
    requires toc + |window| <= |column| && toc <= startingRow <= toc + |window|
    ensures CacheSearchResult(window, toc, column, needle, startingRow, true, caseInsensitive)
            == FirstMatchFrom(Merged(window, toc, column), needle, startingRow, caseInsensitive)
  {
    var m := Merged(window, toc, column);
    assert ListSearch(window, needle, startingRow - toc, true, caseInsensitive)
           == FirstMatchFrom(window, needle, startingRow - toc, caseInsensitive);
    FirstMatchThroughWindow(m, window, toc, needle, startingRow, caseInsensitive);
    FirstMatchAgree(m, column, needle, toc + |window|, caseInsensitive);
  }

  /**
   * Searching up from a row of the window finds the last row at or above it that matches,
   * cached strings standing for the window's rows, except that when no window row from the
   * window's first row `toc` on matches, row `toc` is tried once more in its raw form before
   * the rows above it.
   */
  lemma SearchCacheUpward(window: seq<string>, toc: nat, column: seq<string>, needle: string, startingRow: int,
                          caseInsensitive: bool)
    requires toc + |window| <= |column| && toc <= startingRow < toc + |window|
    ensures var m := Merged(window, toc, column);
      var w := LastMatchUpTo(m, needle, startingRow, caseInsensitive);
      CacheSearchResult(window, toc, column, needle, startingRow, false, caseInsensitive)
      == if w.Some? && w.value >= toc then w
         else if Matches(column[toc], needle, caseInsensitive) then Some(toc)
         else LastMatchUpTo(m, needle, toc - 1, caseInsensitive)
  {
    var m := Merged(window, toc, column);
    var local := LastMatchUpTo(window, needle, startingRow - toc, caseInsensitive);
    var w := LastMatchUpTo(m, needle, startingRow, caseInsensitive);
    var r := CacheSearchResult(window, toc, column, needle, startingRow, false, caseInsensitive);
    assert ListSearch(window, needle, startingRow - toc, false, caseInsensitive) == local;
    LastMatchThroughWindow(m, window, toc, needle, startingRow, caseInsensitive);
    if local.Some? {
      LastMatchAtMost(window, needle, startingRow - toc, caseInsensitive);
    } else {
      LastMatchAtMost(m, needle, toc - 1, caseInsensitive);
      LastMatchAgree(m, column, needle, toc - 1, caseInsensitive);
      assert Min(toc, |column| - 1) == toc;
    }
  }

  /** A row that matches in the merged view matches in its raw form. */
  lemma MergedMatchIsRawMatch(window: seq<string>, toc: nat, column: seq<string>, isNumeric: bool, needle: string,
                              caseInsensitive: bool, k: int)
    requires toc + |window| <= |column| && window == CleanAll(column[toc..toc + |window|], isNumeric)
    requires 0 <= k < |column| && Matches(Merged(window, toc, column)[k], needle, caseInsensitive)
    ensures Matches(column[k], needle, caseInsensitive)
  {
    if toc <= k < toc + |window| {
      assert Merged(window, toc, column)[k] == window[k - toc] == Clean(column[k], isNumeric);
      CleanedMatchIsRawMatch(column[k], needle, isNumeric, caseInsensitive);
    }
  }

  /**
   * With the starting row in the window (or just below it when going down), a row
   * `search_cache` reports is a row of the column, on the searched side of the starting row,
   * whose rendered string contains the needle.
   */
  lemma SearchCacheFindsMatchingRow(window: seq<string>, toc: nat, column: seq<string>, isNumeric: bool, needle: string,
                                    startingRow: int, down: bool, caseInsensitive: bool)
    requires toc + |window| <= |column| && window == CleanAll(column[toc..toc + |window|], isNumeric)
    requires if down then toc <= startingRow <= toc + |window| else toc <= startingRow < toc + |window|
    ensures var r := CacheSearchResult(window, toc, column, needle, startingRow, down, caseInsensitive);
      r.Some? ==> && 0 <= r.value < |column| && Matches(column[r.value], needle, caseInsensitive)
                  && (if down then startingRow <= r.value else r.value <= startingRow)
  {
    var m := Merged(window, toc, column);
    var r := CacheSearchResult(window, toc, column, needle, startingRow, down, caseInsensitive);
    if down {
      SearchCacheDownward(window, toc, column, needle, startingRow, caseInsensitive);
      FirstMatchFromSpec(m, needle, startingRow, caseInsensitive);
    } else {
      SearchCacheUpward(window, toc, column, needle, startingRow, caseInsensitive);
      LastMatchUpToSpec(m, needle, startingRow, caseInsensitive);
      LastMatchUpToSpec(m, needle, toc - 1, caseInsensitive);
    }
    if r.Some? && r.value != toc {
      MergedMatchIsRawMatch(window, toc, column, isNumeric, needle, caseInsensitive, r.value);
    } else if r.Some? {
      if Matches(m[toc], needle, caseInsensitive) {
        MergedMatchIsRawMatch(window, toc, column, isNumeric, needle, caseInsensitive, toc);
      }
    }
  }

  /**
   * With the starting row in the window (or just below it when going down), `search_cache`
   * finds nothing exactly when no row on the searched side matches in the merged view (and,
   * going up, row `toc` does not match in its raw form either).
   */
  lemma SearchCacheMiss(window: seq<string>, toc: nat, column: seq<string>, needle: string, startingRow: int,
                        down: bool, caseInsensitive: bool)
    requires toc + |window| <= |column|
    requires if down then toc <= startingRow <= toc + |window| else toc <= startingRow < toc + |window|
    ensures var m := Merged(window, toc, column);
      CacheSearchResult(window, toc, column, needle, startingRow, down, caseInsensitive).None?
      <==> if down then forall k :: startingRow <= k < |column| ==> !Matches(m[k], needle, caseInsensitive)
           else !Matches(column[toc], needle, caseInsensitive)
                && forall k :: 0 <= k <= startingRow ==> !Matches(m[k], needle, caseInsensitive)
  {
    var m := Merged(window, toc, column);
    if down {
      SearchCacheDownward(window, toc, column, needle, startingRow, caseInsensitive);
      FirstMatchFromSpec(m, needle, startingRow, caseInsensitive);
    } else {
      SearchCacheUpward(window, toc, column, needle, startingRow, caseInsensitive);
      LastMatchUpToSpec(m, needle, startingRow, caseInsensitive);
      LastMatchUpToSpec(m, needle, toc - 1, caseInsensitive);
    }
  }

  /**
   * What `search_cache` returns with the walk as written (`not_at_end` stopping upward at
   * position 0): the window search as before, then the chunks `search_chunk_yielder` yields
   * from the window's edge.
   */
  function CacheSearchResultAsWritten(window: seq<string>, toc: nat, column: seq<string>, needle: string,
                                      startingRow: int, down: bool, caseInsensitive: bool): Option<int>
  {
    var local := ListSearch(window, needle, startingRow - toc, down, caseInsensitive);
    if local.Some? then Shift(local, toc)
    else
      var edge := if down then toc + |window| else toc;
      SearchChunks(column, needle, ChunkStarts(|column|, edge, DefaultChunkSize, down), DefaultChunkSize, down, caseInsensitive)
  }

  /**
   * The search as written answers as the modelled one, except when the window search misses,
   * the search goes up from a window whose first row is a multiple of the chunk size (0
   * included), and the modelled answer is row 0: the code then finds nothing.
   */
  lemma SearchCacheAsWritten(window: seq<string>, toc: nat, column: seq<string>, needle: string, startingRow: int,
                             down: bool, caseInsensitive: bool)
    ensures var fixed := CacheSearchResult(window, toc, column, needle, startingRow, down, caseInsensitive);
      CacheSearchResultAsWritten(window, toc, column, needle, startingRow, down, caseInsensitive)
      == if ListSearch(window, needle, startingRow - toc, down, caseInsensitive).Some? then fixed
         else AsWrittenAnswer(fixed, toc, down)
  {
    if down {
      FallbackDownwardFindsFirst(column, needle, toc + |window|, DefaultChunkSize, caseInsensitive);
    } else {
      FallbackUpwardFindsLast(column, needle, toc, DefaultChunkSize, caseInsensitive);
    }
    WalkAsWritten(column, needle, if down then toc + |window| else toc, down, caseInsensitive);
  }

  /**
   * With the window at row 0 the modelled search going up tries raw row 0 again, where the
   * code stops: a non-numeric column whose only row is `NaN` (cached blank) matches "NaN" in
   * the model and not in the code.
   */
  lemma SearchCacheTopRowZeroExample()
    ensures CleanAll(["NaN"], false) == [""]
    ensures CacheSearchResult([""], 0, ["NaN"], "NaN", 0, false, false) == Some(0)
    ensures CacheSearchResultAsWritten([""], 0, ["NaN"], "NaN", 0, false, false) == None
  {
    assert Strip("NaN") == "NaN" by {
      assert TrimStart("NaN") == "NaN";
      assert TrimEnd("NaN") == "NaN";
    }
    assert !Matches("", "NaN", false);
    assert Matches("NaN", "NaN", false) by {
      assert IsPrefix("NaN", "NaN");
    }
    assert ListSearch([""], "NaN", 0, false, false) == None by {
      assert PyIndex(1, 1) == 1;
      assert LastMatchUpTo([""], "NaN", -1, false) == None;
    }
    assert ChunkStarts(1, 0, DefaultChunkSize, false) == [];
  }

  class DataframeColumnSegmentCache {
    const columnName: string
    const isNumeric: bool
    var nativeWidth: Option<int>
    var assignedWidth: Option<int>
    var topOfCache: nat
    var rowStrings: seq<string>

    /** The widths stay in their ranges, and no native width means nothing has been cached yet. */
    predicate Valid()
      reads this
    {
      && (assignedWidth.Some? ==> MinWidth <= assignedWidth.value <= MaxWidth)
      && (nativeWidth.Some? ==> MinWidth <= nativeWidth.value)
      && (nativeWidth.None? ==> rowStrings == [])
    }

    /** The window holds, in order, the cleaned strings of rows `topOfCache ..` of this column of `t`. */
    predicate Mirrors(t: Table)
      reads this
    {
      rowStrings != [] ==>
        && columnName in t.cells
        && topOfCache + |rowStrings| <= |t.cells[columnName]|
        && rowStrings == CleanAll(t.cells[columnName][topOfCache..topOfCache + |rowStrings|], isNumeric)
    }

    /** `bottom_of_cache`: the row just past the window, so the window is empty exactly when it ends where it starts. */
    function BottomOfCache(): (r: int)
      reads this
      ensures r >= topOfCache
      ensures r == topOfCache <==> rowStrings == []
      ensures forall t :: Mirrors(t) && r > topOfCache ==>
        r <= |t.cells[columnName]| && rowStrings == CleanAll(t.cells[columnName][topOfCache..r], isNumeric)
    {
      topOfCache + |rowStrings|
    }

    /** A cache for column `name` of `t`; its numeric flag is the column's dtype at creation. */
    constructor(t: Table, name: string)
      ensures columnName == name && isNumeric == (name in t.numeric)
      ensures nativeWidth == None && assignedWidth == None
      ensures topOfCache == 0 && rowStrings == []
      ensures Valid() && Mirrors(t)
    {
      columnName := name;
      isNumeric := name in t.numeric;
      nativeWidth := None;
      assignedWidth := None;
      topOfCache := 0;
      rowStrings := [];
    }

    /**
     * `_update_native_width`: one pass over the cached strings that widens the native width
     * to each raw string's length (capped) and replaces the string by its cleaned form.
     */
    method UpdateNativeWidth()
      requires assignedWidth.Some? ==> MinWidth <= assignedWidth.value <= MaxWidth
      modifies this
      ensures nativeWidth == Some(NativeWidthFor(columnName, old(rowStrings)))
      ensures rowStrings == CleanAll(old(rowStrings), isNumeric)
      ensures assignedWidth == old(assignedWidth) && topOfCache == old(topOfCache)
      ensures Valid()
    {
      var raw := rowStrings;
      var init := Max(|columnName|, MinWidth);
      var width := init;
      var strings := raw;
      var idx := 0;
      while idx < |raw|
        invariant 0 <= idx <= |raw| == |strings|
        invariant width == WidthFold(init, raw[..idx])
        invariant forall k :: 0 <= k < idx ==> strings[k] == Clean(raw[k], isNumeric)
        invariant forall k :: idx <= k < |raw| ==> strings[k] == raw[k]
        invariant unchanged(this)
      {
        var s := strings[idx];
        WidthFoldStep(init, raw, idx);
        width := Min(MaxWidth, Max(width, |s|));
        var cleaned := Strip(s);
        if !isNumeric && cleaned == "NaN" {
          cleaned := "";
        }
        strings := strings[idx := cleaned];
        idx := idx + 1;
      }
      assert raw[..idx] == raw;
      WidthFoldClosedForm(init, raw);
      assert strings == CleanAll(raw, isNumeric);
      nativeWidth := Some(width);
      rowStrings := strings;
    }

    /**
     * `change_width(n)`: the first call seeds the assigned width from the native one
     * (computing that first if need be); every call adds `n` and clamps to `[MinWidth, MaxWidth]`.
     */
    method ChangeWidth(n: int)
      requires Valid()
      modifies this
      ensures var seed := if old(assignedWidth).Some? then old(assignedWidth).value
                          else if old(nativeWidth).Some? then old(nativeWidth).value
                          else NativeWidthFor(columnName, []);
              assignedWidth == Some(ClampWidth(seed + n))
      ensures nativeWidth == if old(assignedWidth).None? && old(nativeWidth).None? then Some(NativeWidthFor(columnName, [])) else old(nativeWidth)
      ensures rowStrings == old(rowStrings) && topOfCache == old(topOfCache)
      ensures Valid()
    {
      if assignedWidth.None? {
        if nativeWidth.None? {
          UpdateNativeWidth();
        }
        assignedWidth := nativeWidth;
      }
      assignedWidth := Some(ClampWidth(assignedWidth.value + n));
    }

    /** `width`: the assigned width once there is one, the native width otherwise. */
    function Width(): (r: Option<int>)
      reads this
      ensures assignedWidth.Some? ==> r == assignedWidth
      ensures assignedWidth.None? ==> r == nativeWidth
    {
      if assignedWidth.Some? then assignedWidth else nativeWidth
    }

    /** `justify`: numeric columns are right-justified, the others left-justified. */
    function Justify(): (r: string)
      reads this
      ensures r == "right" <==> isNumeric
      ensures r == "left" <==> !isNumeric
    {
      if isNumeric then "right" else "left"
    }

    /** `clear_cache`: the window becomes empty at row 0; the widths stay. */
    method ClearCache()
      requires Valid()
      modifies this
      ensures topOfCache == 0 && rowStrings == []
      ensures nativeWidth == old(nativeWidth) && assignedWidth == old(assignedWidth)
      ensures Valid() && forall t :: Mirrors(t)
    {
      topOfCache := 0;
      rowStrings := [];
    }

    /** Whether `rows(top, bottom)` has to refetch: the request reaches outside the window. */
    function NeedsRefetch(top: int, bottom: int): bool
      reads this
    {
      topOfCache > top || BottomOfCache() < bottom
    }

    /**
     * The refetch step of `rows`: the window is reloaded from the column with padding on both
     * sides and the native width recomputed, unless the column is missing or the padded window
     * would start past the table's end, in which case nothing changes.
     */
    method Refetch(top: int, bottom: int, t: Table) returns (ok: bool)
      requires Valid() && WellFormed(t)
      modifies this
      ensures ok <==> columnName in t.cells && RefetchTop(top) <= t.rowCount
      ensures !ok ==> topOfCache == old(topOfCache) && rowStrings == old(rowStrings) && nativeWidth == old(nativeWidth)
      ensures ok ==>
        && topOfCache == RefetchTop(top)
        && BottomOfCache() == RefetchBottom(t.rowCount, top, bottom)
        && nativeWidth == Some(NativeWidthFor(columnName, t.cells[columnName][topOfCache..BottomOfCache()]))
        && Mirrors(t)
      ensures assignedWidth == old(assignedWidth)
      ensures Valid()
    {
      if columnName !in t.cells {
        return false;
      }
      var column := t.cells[columnName];
      var newTopOfCache := RefetchTop(top);
      var newBottomOfCache := RefetchBottom(t.rowCount, top, bottom);
      RefetchWindow(column, top, bottom);
      var newCache := Slice(column, newTopOfCache, newBottomOfCache);
      if |newCache| != newBottomOfCache - newTopOfCache {
        return false;
      }
      topOfCache := newTopOfCache;
      rowStrings := newCache;
      UpdateNativeWidth();
      return true;
    }

    /**
     * `search_cache`: the window is searched from the starting row first; failing that, the
     * raw column is walked chunk by chunk from the window's edge in the search direction.
     * The chunk walk keeps going up until row 0 is covered (see ChunkSearch.FallbackChunkStarts).
     */
    method SearchCache(searchString: string, startingRow: int, down: bool, caseInsensitive: bool, t: Table)
      returns (r: Option<int>)
      requires columnName in t.cells
      ensures r == CacheSearchResult(rowStrings, topOfCache, t.cells[columnName], searchString, startingRow, down, caseInsensitive)
    {
      var startingRowInCache := startingRow - topOfCache;
      var rowIdx := SearchListForStr(rowStrings, searchString, startingRowInCache, down, caseInsensitive);
      if rowIdx.Some? {
        return Some(rowIdx.value + topOfCache);
      }
      var endOfCacheSearch := if down then topOfCache + |rowStrings| else topOfCache;
      r := SearchChunked(t.cells[columnName], searchString, endOfCacheSearch, down, caseInsensitive);
    }

    /**
     * The slice `rows` takes from a window that covers the request: the cleaned rows
     * `top .. bottom - 1` of the column (nothing when the column is missing, and so the window empty).
     */
    method CachedRows(top: int, bottom: int, t: Table) returns (rows: seq<string>)
      requires Valid() && Mirrors(t) && WellFormed(t)
      requires topOfCache <= top && (bottom <= BottomOfCache() || BottomOfCache() == t.rowCount)
      ensures columnName in t.cells && top <= bottom ==> rows == CleanAll(Slice(t.cells[columnName], top, bottom), isNumeric)
      ensures columnName !in t.cells ==> rows == []
    {
      rows := Slice(rowStrings, top - topOfCache, bottom - topOfCache);
      if columnName in t.cells && top <= bottom {
        WindowRows(rowStrings, topOfCache, t.cells[columnName], isNumeric, top, bottom);
      }
    }

    /**
     * `rows(top, bottom)`: the cleaned strings of rows `top .. bottom - 1`. When the request
     * reaches outside the window the window is refetched first; the length check on the
     * fetched slice fails (`None`, nothing changed) when the column is missing or the padded
     * window would start past the end of the table.
     */
    method Rows(top: int, bottom: int, t: Table) returns (r: Option<seq<string>>)
      requires Valid() && Mirrors(t) && WellFormed(t)
      requires 0 <= top
      modifies this
      ensures r.None? <==> old(NeedsRefetch(top, bottom)) && (columnName !in t.cells || RefetchTop(top) > t.rowCount)
      ensures r.None? || !old(NeedsRefetch(top, bottom)) ==>
        topOfCache == old(topOfCache) && rowStrings == old(rowStrings) && nativeWidth == old(nativeWidth)
      ensures r.Some? && old(NeedsRefetch(top, bottom)) ==>
        && topOfCache == RefetchTop(top)
        && BottomOfCache() == RefetchBottom(t.rowCount, top, bottom)
        && nativeWidth == Some(NativeWidthFor(columnName, t.cells[columnName][topOfCache..BottomOfCache()]))
      ensures assignedWidth == old(assignedWidth)
      ensures Valid() && Mirrors(t)
      ensures r.Some? && columnName in t.cells && top <= bottom ==> r.value == CleanAll(Slice(t.cells[columnName], top, bottom), isNumeric)
      ensures r.Some? && columnName !in t.cells ==> r.value == []
    {
      if topOfCache > top || BottomOfCache() < bottom {
        var ok := Refetch(top, bottom, t);
        if !ok {
          return None;
        }
      }
      var rows := CachedRows(top, bottom, t);
      return Some(rows);
    }
  }
}
