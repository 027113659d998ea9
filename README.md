# df-browse engine, modelled in Dafny

df-browse shows pandas DataFrames in a terminal browser. This project models the engine
behind that browser, without pandas and without the terminal UI:

- **Chunked substring search** (`ChunkSearch`, from `df_browse/chunk_search_utils.py`):
  the directional scan `search_list_for_str`, `not_at_end`, `get_next_chunk` and the chunk
  walk of `search_chunk_yielder`.
- **Column segment cache** (`ColumnCache.DataframeColumnSegmentCache`): a window of cleaned
  rendered strings for one column. It is refetched with padding. It has native and assigned
  widths clamped to `[2, 50]`. Its search tries the window first and then walks the column
  chunk by chunk.
- **Row viewport** (`RowView.DataframeRowView`): the selected row, the top row, the scroll
  margins and the per-column caches. It covers `scroll_rows`, `jump_to_row`, `df_changed`,
  `lines` and `search`.
- **Undo history** (`History`, used by `TableBrowser.DataframeTableBrowser`):
  - the table history, the history of displayed column lists and the stack of change tags;
  - pushes and `undo(n)`;
  - the observers told of every change;
  - `jump` and the focused column.
- **Browser registry** (`Registry.MultipleDataframeBrowser`): browsers by name, default
  names, renaming and the active browser.
- **Keybinding table** (`Keybindings`):
  - the command-to-keys table and the rule that no key serves two commands;
  - the start-up duplicate report, `keybs` and `cmd_hint`.

A table (`Tables.Table`) is a value with these parts:
- its ordered columns;
- the set of numeric columns;
- the rendered string of every cell, as a map from column name to one string per row;
- its row count.

Python's `str.strip`, `str.lower`, `str.find` and `str(n)` are modelled in `Text`. `None` is
`Wrappers.Option`.

The objects whose fields the source updates are classes:
- the segment cache;
- the row view;
- the table browser;
- the registry;
- the keybinding table, for the module-level `_commands` dictionary.

The lists the source appends to or pops are `seq` fields that the methods reassign. Loops
in the source are `while`/`for` loops in the methods, with invariants. Each method's
contract ties it to a specification function, and the properties are proved about those
functions.

## Model

| member | source | states |
|---|---|---|
| ChunkSearch.SearchListForStr | df_browse/chunk_search_utils.py:29-40 | The loop with early return computes exactly `ListSearch`: the index reported is `start + idx` downward or `start - idx` upward, where `idx` is the first hit's position in the walked slice; `None` when nothing matches. |
| ChunkSearch.SearchList | df_browse/chunk_search_utils.py:33 | The walked list is `lst[start:]` downward and `reversed(lst[:start + 1])` upward, element by element, with Python's clamping of slice bounds. |
| ChunkSearch.ListSearchInRange | df_browse/chunk_search_utils.py:33-40 | From a start in range: a downward hit is the first matching index at or after the start; an upward hit is the last matching index at or before it; `None` exactly when no index in the direction's range matches. |
| ChunkSearch.FirstMatchFromSpec | df_browse/chunk_search_utils.py:35-39 | The downward reference scan finds a matching index, no earlier index from the start matches, and `None` means none matches. |
| ChunkSearch.LastMatchUpToSpec | df_browse/chunk_search_utils.py:35-39 | The upward reference scan finds a matching index, no later index up to the start matches, and `None` means none matches. |
| ChunkSearch.CaseInsensitiveSearchIsLoweredSearch | df_browse/chunk_search_utils.py:31-36 | A case-insensitive search answers the same as a case-sensitive search of the lower-cased list for the lower-cased needle. |
| ChunkSearch.Slice | df_browse/chunk_search_utils.py:14-18 | Python's `s[lo:hi]`. Each bound lands where Python puts it: clamped into `[0, n]`, with negative bounds counted from the end. The result's length is the distance between the two landing points (0 when the stop lies before the start), and its elements are those of `s` from the start on. |
| ChunkSearch.GetNextChunk | df_browse/chunk_search_utils.py:9-18 | Downward: the chunk `sliceable[p:min(len, p + size)]` starting at `p`. Upward: the chunk from `max(0, p - size + 1)` to `p` inclusive, with that start returned. Never more than `size` entries. |
| ChunkSearch.ChunkStarts | df_browse/chunk_search_utils.py:21-25 | The positions the walk yields, as written: downward all in `[start, len)`, upward all in `(0, start]`. |
| ChunkSearch.DownwardChunkStarts | df_browse/chunk_search_utils.py:21-25 | Downward the starts are `p, p + size, p + 2 size, ...`, all below the length. There is at least one exactly when `p < len`, and the last chunk reaches the end. |
| ChunkSearch.DownwardChunksTile | df_browse/chunk_search_utils.py:21-25 | Downward the chunks are non-empty and contiguous, and together cover exactly `[p, len)`. |
| ChunkSearch.TenThousandFiftyRowsTakeOneHundredOneChunks | df_browse/chunk_search_utils.py:21-25 | From row 0 of 10,050 rows in chunks of 100 there are 101 chunks, and the last one covers rows 10,000 to 10,049. |
| ChunkSearch.UpwardChunkStarts | df_browse/chunk_search_utils.py:21-25 | Upward, as written, the starts are `p, p - size, ...`, all above 0. Nothing is yielded from 0 or below, and the walk always ends. |
| ChunkSearch.UpwardChunksMissRowZero | df_browse/chunk_search_utils.py:5-6 | As written, an upward walk from a positive multiple of the chunk size never yields a chunk that holds row 0. |
| ChunkSearch.UpwardWalkMissesRowZeroExample | df_browse/chunk_search_utils.py:21-25 | A concrete column where only row 0 matches: the as-written walk from row 100 finds nothing, and the corrected walk finds row 0. |
| ChunkSearch.FallbackChunkStarts | df_browse/chunk_search_utils.py:21-25 | The walk with the upward guard corrected to `position >= 0`: every start lies in the searched range. |
| ChunkSearch.FallbackUpwardChunksTile | df_browse/chunk_search_utils.py:21-25 | With the corrected guard the upward chunks are contiguous and cover exactly `[0, p]`. |
| ChunkSearch.FallbackDownwardFindsFirst | df_browse/dataframe_browser.py:461-470 | Searching chunk after chunk downward gives the first hit at or after the start, the same answer as one scan. |
| ChunkSearch.FallbackUpwardFindsLast | df_browse/dataframe_browser.py:461-470 | Searching chunk after chunk upward, with the corrected guard, gives the last hit at or before the start, the same answer as one scan. |
| ChunkSearch.DownwardWalksAgree | df_browse/chunk_search_utils.py:5-6 | Downward the code's guard and the corrected one are the same test, so both walks yield the same starts. |
| ChunkSearch.UpwardWalksDiffer | df_browse/chunk_search_utils.py:5-6 | Upward the corrected walk yields exactly the code's starts, plus a final row 0 when the start is a non-negative multiple of the chunk size, and nothing else. |
| ChunkSearch.UpwardWalkNeverReportsRowZero | df_browse/chunk_search_utils.py:21-25 | As written, an upward walk from a multiple of the chunk size never reports row 0, whatever the column holds. |
| ChunkSearch.UpwardWalkAsWritten | df_browse/chunk_search_utils.py:21-25 | The code's upward walk gives the last hit at or before the start. The one exception is a start at a multiple of the chunk size where that last hit is row 0: the code then reports nothing. |
| ChunkSearch.WalkAsWritten | df_browse/chunk_search_utils.py:21-25 | In both directions, with chunks of 100, the code's walk gives the corrected walk's answer, except the upward row 0 case above. |
| ChunkSearch.SearchNextChunk | df_browse/dataframe_browser.py:461-466 | One pass of the loop: the chunk at that start is searched from its first row (down) or its last row (up), and a hit is shifted by the chunk's start to a row of the column. |
| ChunkSearch.SearchEachChunk | df_browse/dataframe_browser.py:460-470 | The loop returns the hit of the first chunk, in walk order, that has one (corrected guard), and `None` when no chunk matches. |
| ChunkSearch.SearchChunked | df_browse/dataframe_browser.py:459-470 | The chunk loop of `search_cache` over the walk with the corrected upward guard. Downward it finds the first hit from the start, upward the last hit up to the start. The code's own walk gives the same answer (`AsWrittenAnswer`), except going up from a multiple of 100 where that answer is row 0: the code finds nothing there. |
| ColumnCache.CleanAll | df_browse/dataframe_browser.py:393-397 | Every cached string is stripped, and in a non-numeric column `NaN` becomes empty. |
| ColumnCache.WidthFoldClosedForm | df_browse/dataframe_browser.py:391-394 | The row-by-row widening loop ends at the closed form: unchanged with no rows, otherwise `min(50, max(init, longest row))`. |
| ColumnCache.NativeWidthBounds | df_browse/dataframe_browser.py:391-394 | The native width is at least 2, and at least the header's length and every row's length up to the cap of 50. It is at most 50 once rows are cached, and `max(len(name), 2)` with none. |
| ColumnCache.ClampWidth | df_browse/dataframe_browser.py:405-406 | The clamp lies in `[2, 50]` and keeps values already in range. |
| ColumnCache.WindowSlice | df_browse/dataframe_browser.py:434 | Slicing a window that covers the request gives the cleaned rows `top .. bottom - 1` of the column. |
| ColumnCache.RefetchWindow | df_browse/dataframe_browser.py:421-428 | The fetched slice has the length `rows` asserts exactly when the padded window starts within the column, and it is then the rows between the two bounds. |
| ColumnCache.CleanedMatchIsRawMatch | df_browse/dataframe_browser.py:452 | A cleaned cached string matches only where its raw rendered string matches. |
| ColumnCache.SearchCacheDownward | df_browse/dataframe_browser.py:445-470 | Downward from inside the window, `search_cache` finds the first matching row at or below the start. Cached strings stand for the window's rows. |
| ColumnCache.SearchCacheUpward | df_browse/dataframe_browser.py:445-470 | Upward from inside the window, with the corrected walk, `search_cache` finds the last matching row at or above the start. Cached strings stand for the window's rows. The walk above the window starts at the window's first row again, so that row is tried once more in raw form, also when the window starts at row 0. The code's answer follows from `SearchCacheAsWritten`. |
| ColumnCache.SearchCacheFindsMatchingRow | df_browse/dataframe_browser.py:445-470 | Any reported row is a row of the column whose rendered string contains the needle, on the searched side of the start. |
| ColumnCache.SearchCacheMiss | df_browse/dataframe_browser.py:445-470 | With the corrected walk, `search_cache` finds nothing exactly when no row on the searched side matches. Going up, the window's first row must also fail in raw form. The code's answer follows from `SearchCacheAsWritten`. |
| ColumnCache.SearchCacheAsWritten | df_browse/dataframe_browser.py:445-470 | The search with the code's walk answers as the modelled one whenever the window search hits, and always going down. Otherwise the two differ only where the modelled answer is row 0 and the window starts at a multiple of 100 (row 0 included): the code then reports nothing. |
| ColumnCache.SearchCacheTopRowZeroExample | df_browse/dataframe_browser.py:451-462 | Take a one-row non-numeric column holding `NaN`, cached at row 0 as a blank. Searching up for `NaN` finds row 0 in the model and nothing in the code. |
| ColumnCache.DataframeColumnSegmentCache.constructor | df_browse/dataframe_browser.py:381-390 | A new cache is empty at row 0 with no widths, and its numeric flag is the column's dtype. |
| ColumnCache.DataframeColumnSegmentCache.UpdateNativeWidth | df_browse/dataframe_browser.py:391-397 | The loop sets the native width to the closed form over the raw strings and replaces every string by its cleaned form. The assigned width and the window start are unchanged. |
| ColumnCache.DataframeColumnSegmentCache.ChangeWidth | df_browse/dataframe_browser.py:399-406 | The first call seeds the assigned width from the native one, computing that first if needed. Every call adds `n` and clamps to `[2, 50]`. |
| ColumnCache.DataframeColumnSegmentCache.Width | df_browse/dataframe_browser.py:414-415 | The assigned width once there is one, the native width otherwise. |
| ColumnCache.DataframeColumnSegmentCache.Justify | df_browse/dataframe_browser.py:407-409 | `'right'` exactly for a numeric column, `'left'` exactly for the others. |
| ColumnCache.DataframeColumnSegmentCache.BottomOfCache | df_browse/dataframe_browser.py:416-418 | The row just past the window. It is never above the window's top, and equals it exactly when the window is empty. When the cache mirrors a table, every row before it from the top is held by the window, cleaned, in order. |
| ColumnCache.DataframeColumnSegmentCache.ClearCache | df_browse/dataframe_browser.py:441-443 | The window becomes empty at row 0 and the widths are kept. |
| ColumnCache.DataframeColumnSegmentCache.Refetch | df_browse/dataframe_browser.py:420-433 | The window is reloaded as `[max(top - 50, 0), min(len, max(bottom + 50, newTop + 200)))` and the native width recomputed. If the column is missing or the window would start past the end, nothing changes. |
| ColumnCache.DataframeColumnSegmentCache.SearchCache | df_browse/dataframe_browser.py:445-470 | The result is `CacheSearchResult`: the window search from the start, then the chunk walk from the window's bottom (down) or top (up). The window is unchanged. |
| ColumnCache.DataframeColumnSegmentCache.CachedRows | df_browse/dataframe_browser.py:434 | From a window covering the request, the slice returned is the cleaned rows `top .. bottom - 1`. |
| ColumnCache.DataframeColumnSegmentCache.Rows | df_browse/dataframe_browser.py:419-434 | It refetches only when the request leaves the window, and then to the padded bounds. Otherwise the cache is untouched. The rows returned are the cleaned rows `top .. bottom - 1`, and `None` is the failed length assert. |
| RowView.ClampRow | df_browse/dataframe_browser.py:360 | `max(0, min(row, len - 1))`: a row of the table (row 0 when it is empty), and the row itself when it is in range. |
| RowView.ScrollKeepsViewport | df_browse/dataframe_browser.py:357-367 | The closed form of `scroll_rows` keeps `top <= selected <= top + view_height`, and the selection stays a row. |
| RowView.ScrollDownFromTopExample | df_browse/dataframe_browser.py:361-363 | From row 0, scrolling down 85 rows selects row 85 and moves the top row to 55. |
| RowView.StartingRow | df_browse/dataframe_browser.py:339 | With `skip_current` the search starts one row below the selected row going down, and one row above it going up. Without it, the search starts at the selected row. |
| RowView.FractionTargetInRange | df_browse/dataframe_browser.py:349-354 | A fraction in `[0.0, 1.0]` passes the first assert and aims at a row in `[0, len]`, so the second assert holds for it. |
| RowView.FractionJumpEnds | df_browse/urwid_table_browser.py:429-432 | `jump(0.0)` and `jump(1.0)`, the first-row and last-row keys, aim at 0 and at `len`, and these select the first and the last row. |
| RowView.DataframeRowView.constructor | df_browse/dataframe_browser.py:295-302 | Rows 0 and 0, no caches, view height 100, margins 10 and 30. |
| RowView.DataframeRowView.SelectedRelative | df_browse/dataframe_browser.py:313-315 | Under the asserted invariant, the offset lies in `[0, view_height]` and adds up to the selected row. |
| RowView.DataframeRowView.ScrollRows | df_browse/dataframe_browser.py:357-367 | The row-by-row loops end at the closed form: selection `max(0, min(sel + n, len - 1))`, top `max(top, sel - 30)` going down, `min(top, max(0, sel - 10))` going up, unchanged for 0. The final assert always holds. |
| RowView.DataframeRowView.JumpToRow | df_browse/dataframe_browser.py:346-355 | A fraction passes the first assert exactly when it lies in `[0.0, 1.0]`, and it aims at `int(f * len)`. An integer aims at `location - 1` when 1-based. The second assert passes exactly when the target is in `[0, len]`. The selection then becomes the clamped target and the top row is where `scroll_rows` leaves it. A failed assert changes nothing. |
| RowView.DataframeRowView.ClearCaches | df_browse/dataframe_browser.py:370-371 | Every cache is emptied at row 0 and keeps its widths. |
| RowView.DataframeRowView.DfChanged | df_browse/dataframe_browser.py:369-374 | The caches are cleared, and both rows are clamped to the new table. The viewport invariant is restored. |
| RowView.DataframeRowView.CacheFor | df_browse/dataframe_browser.py:272-276 | The cache already kept for the column, or a new one stored under its name. Creating one fails when the table has no such column. |
| RowView.DataframeRowView.Lines | df_browse/dataframe_browser.py:324-327 | The cleaned rows between the given rows, by default from the top row to one view height further or the table's end. `None` only for a missing column or a failed refetch. A kept cache or a missing column leaves the cache map as it was; otherwise exactly one fresh cache is added under the column. Every other cache is unchanged, and the column's assigned width is kept. |
| RowView.DataframeRowView.Search | df_browse/dataframe_browser.py:335-344 | It reports a hit exactly when `search_cache` finds one, and then the view scrolls to that row. Without a hit the rows are unchanged. A kept cache or a missing column leaves the cache map as it was; otherwise exactly one fresh, empty cache starting at row 0 is added under the column. |
| History.Initial | df_browse/dataframe_browser.py:138-140 | A new browser holds its table and its own column order, with nothing to undo. |
| History.ChangeCols | df_browse/dataframe_browser.py:194-201 | A different column list is appended with a column tag; the same list changes nothing. |
| History.PushKeepsConsistent | df_browse/dataframe_browser.py:194-206 | Both pushes keep `len(df_hist) = 1 + #DfChange` and `len(cols) = 1 + #ColsChange`, and make the pushed value current. |
| History.UndoOne | df_browse/dataframe_browser.py:223-232 | One pass of the undo loop pops the last tag and the entry it names, and keeps the counts consistent. |
| History.UndoN | df_browse/dataframe_browser.py:222-234 | `undo(n)` keeps the counts consistent and never empties either history. |
| History.UndoNShape | df_browse/dataframe_browser.py:222-232 | `undo(n)` pops exactly the newest `min(n, len(undo_hist))` tags, and cuts each history back to a prefix of itself. |
| History.UndoRestores | df_browse/dataframe_browser.py:222-235 | `k` changes followed by `undo(k)` restore the earlier histories, and so the table and columns shown. |
| History.UndoAllReturnsToStart | df_browse/dataframe_browser.py:222-234 | Undoing at least as many changes as there are returns to the initial table and columns. |
| TableBrowser.IndexOf | df_browse/dataframe_browser.py:246 | `list.index`: the first position of the name. |
| TableBrowser.DataframeTableBrowser.constructor | df_browse/dataframe_browser.py:137-144 | A browser starts from the initial history, with the row view as its one observer and focus on column 0. |
| TableBrowser.DataframeTableBrowser.Df | df_browse/dataframe_browser.py:150-152 | The current table: the newest entry of the table history. |
| TableBrowser.DataframeTableBrowser.BrowseColumns | df_browse/dataframe_browser.py:153-155 | The displayed columns: the newest entry of the column history. |
| TableBrowser.DataframeTableBrowser.MsgCbs | df_browse/dataframe_browser.py:181-184 | Every observer is told. The row view's `df_changed` leaves it refreshed (`Refreshed`): both rows are clamped to the current table, and every cache is emptied and keeps its widths. |
| TableBrowser.DataframeTableBrowser.ChangeDisplayCols | df_browse/dataframe_browser.py:194-201 | It returns True exactly when the list differs. It then pushes the list with a column tag and tells the observers, which refreshes the row view. Otherwise the histories, the rows and every cache are unchanged. The observers and the focused column never change. |
| TableBrowser.DataframeTableBrowser.PushColsAndNotify | df_browse/dataframe_browser.py:199-201 | The list is pushed with a column tag, keeping the histories consistent, and the observers are told, which refreshes the row view to the current table. |
| TableBrowser.DataframeTableBrowser.ChangeDf | df_browse/dataframe_browser.py:203-206 | The new table is pushed with a table tag and becomes current. The observers are told, which refreshes the row view to the new table. The observers and the focused column are unchanged. |
| TableBrowser.DataframeTableBrowser.InsertColumn | df_browse/dataframe_browser.py:208-212 | A name not among the current table's columns returns False and changes nothing. Otherwise it is `_change_display_cols` with the new list: the list is pushed and the row view refreshed exactly when it differs, and nothing changes otherwise. The observers and the focused column never change. |
| TableBrowser.DataframeTableBrowser.HideColByIndex | df_browse/dataframe_browser.py:218-220 | `_change_display_cols` with the list that has the column removed: the list is pushed and the row view refreshed exactly when it differs, and nothing changes otherwise. The observers and the focused column never change. |
| TableBrowser.DataframeTableBrowser.PopChanges | df_browse/dataframe_browser.py:223-232 | The undo loop leaves exactly `UndoN(old history, n)`. |
| TableBrowser.DataframeTableBrowser.Undo | df_browse/dataframe_browser.py:222-235 | It pops `min(n, len(undo_hist))` changes, and the asserts after the loop always hold. The observers are told, which refreshes the row view to the restored table. |
| TableBrowser.DataframeTableBrowser.AddChangeCallback | df_browse/dataframe_browser.py:252-254 | An observer is appended only when it is not yet registered. |
| TableBrowser.DataframeTableBrowser.SetFocusedColumnIndex | df_browse/dataframe_browser.py:162-165 | The setter's assert admits exactly a position of the displayed columns; otherwise nothing changes. |
| TableBrowser.DataframeTableBrowser.Jump | df_browse/dataframe_browser.py:241-247 | A row jump (an integer, 1-based, or a fraction) succeeds exactly when `jump_to_row`'s asserts pass. The selection is then the clamped target, the top row is where `scroll_rows` leaves it, and the caches are emptied. A column jump succeeds exactly when the name is displayed: it focuses the name's first position and refreshes the row view. The histories and the observers never change. A failure changes neither the rows, nor the focus, nor any cache. |
| TableBrowser.DataframeTableBrowser.JumpRowAndNotify | df_browse/dataframe_browser.py:243-247 | The row path of `jump`: `jump_to_row`, then the observers only when its asserts passed, which empties the caches. On failure the rows and every cache are unchanged. |
| Registry.DefaultNameStripped | df_browse/dataframe_browser.py:52-56 | A generated `'df' + str(i)` is unchanged by `strip`. |
| Registry.MultipleDataframeBrowser.constructor | df_browse/dataframe_browser.py:40-41 | No browsers and no active name. |
| Registry.MultipleDataframeBrowser.GenerateName | df_browse/dataframe_browser.py:50-55 | The loop ends, at the first `'df' + str(i)` with `i` counting up from `len(browsers)` that is not in use. |
| Registry.MultipleDataframeBrowser.AddDf | df_browse/dataframe_browser.py:45-62 | A given name is stripped, and with none the first free default name is chosen. A new browser is stored under it, with the frame's redraw as a second observer. The first name added while none is active becomes active. |
| Registry.MultipleDataframeBrowser.RenameBrowser | df_browse/dataframe_browser.py:64-70 | The assert fails exactly when either name is empty (the new one after stripping). The entry moves, and its new name becomes active, only when that name is unused and differs; otherwise nothing changes. |
| Registry.MultipleDataframeBrowser.RenameCurrentBrowser | df_browse/dataframe_browser.py:72-73 | `rename_browser` applied to the active name, which is always a key. The assert fails exactly when no browser is active or the stripped name is empty. Nothing changes exactly when the stripped name is taken or is already the active name. Otherwise the browser is renamed. |
| Registry.MultipleDataframeBrowser.SetCurrentBrowser | df_browse/dataframe_browser.py:100-103 | Only the name of an existing browser becomes active. |
| Keybindings.CmdHint | df_browse/keybindings.py:48-52 | The hints for 'jump to column' and 'jump to row', and 'Command could not be executed.' for any other command. |
| Keybindings.DefaultsValid | df_browse/keybindings.py:2-32 | The table the module starts with has distinct commands. No key occurs twice in it, so no key is bound to two commands. |
| Keybindings.NoRepeatedKeyFlatDistinct | df_browse/keybindings.py:40-45 | A table in which no key occurs twice gives a key list, command by command, without duplicates. |
| Keybindings.ShadowReportsSpec | df_browse/keybindings.py:40-45 | The reports of the start-up check over a key list: none exactly when no key repeats. Each report names a key at a position that an earlier position already holds, and every such position gets a report. |
| Keybindings.StartupWarnings | df_browse/keybindings.py:39-46 | The start-up loop reports exactly `ShadowReports` of all the keys, command by command: one report, in order, for each key already met. So it reports nothing exactly when no key repeats, and each report is for a repeated key. |
| Keybindings.CheckKeys | df_browse/keybindings.py:42-45 | The inner loop over one command's keys: it extends the reports by those of its keys already met, and adds every key to the set of keys met. |
| Keybindings.StartupCheck | df_browse/keybindings.py:39-46 | The module's own table passes its start-up check without a report. |
| Keybindings.IndexOf | df_browse/keybindings.py:63 | The position of a command's entry: the first with that name, none when the command is absent. |
| Keybindings.AssignLookupSelf | df_browse/keybindings.py:63 | After `_commands[command] = keys` the command maps to exactly those keys. |
| Keybindings.AssignLookupOther | df_browse/keybindings.py:63 | Every other command keeps its keys, and its presence or absence. |
| Keybindings.AssignKeepsValid | df_browse/keybindings.py:54-63 | An assignment that shadows no other command keeps the commands distinct and no key shared between two commands. |
| Keybindings.CommandTable.constructor | df_browse/keybindings.py:2-32 | The table starts as the defaults, shadow-free. |
| Keybindings.CommandTable.Keybs | df_browse/keybindings.py:65-66 | The keys of the command's entry, or `None` (the `KeyError`) when it has none. |
| Keybindings.CommandTable.SetKeybindingsForCommand | df_browse/keybindings.py:54-63 | It raises, naming the first other command in table order that has one of the keys, and changes nothing. Otherwise it binds the command to exactly the given keys and leaves every other command as it was. The table stays shadow-free. |
| Text.ContainsAt | df_browse/chunk_search_utils.py:37 | `s.find(t) != -1` holds exactly when `t` occurs in `s` at some offset. |
| Text.StripShape | df_browse/dataframe_browser.py:395 | `strip` returns the piece of the string between its leading and trailing white space, and only white space is cut. |
| Text.StripIdempotent | df_browse/dataframe_browser.py:56 | Stripping a stripped name changes nothing. |

## Left out

- The terminal UI (`urwid_table_browser.py`), its frame and key dispatch are not part of this model. It is an observer whose calls are not modelled (`TableBrowser.Observer.Display`).
- Every `print` and the debug module `gui_debug.py` are left out. So are `browse`, `browse_dir`, and the CSV and directory I/O.
- pandas is abstracted:
  - `to_string` rendering becomes the per-cell `cells` map, and the padding that pandas applies to a whole slice is not modelled;
  - a refetch whose padded window starts exactly at the table's end (`RefetchTop(top) == rowCount`) slices no rows. pandas renders that empty slice as three lines (`Empty DataFrame`, its columns, its index), so the code's length assert fails. The model slices an empty list, and its assert passes;
  - `sort_values` and `query` become `ChangeDf` with an opaque new table;
  - `np.issubdtype` becomes the `numeric` set, read at cache creation.
- `df_browse/list_utils.py` is not part of this model. So `InsertColumn` and `HideColByIndex` take the list that `insert_item_if_not_present` or `remove_list_index` would build as a parameter. `shift_column` is `ChangeDisplayCols` with such a list.
- `hide_col_by_name` refers to an undefined `new_dcols` and always fails, so it is not modelled.
- Redo and reconciling the columns on a table change are not in the code, and are not modelled.
- The undo tags are the enum `History.Change`, not the history list objects themselves. In the code the popped list is compared to `df_hist` with `==`, which compares contents. When both histories have the same length, that comparison reaches a comparison of `list(df.columns)` with a DataFrame, whose truth value pandas does not define. Identity tags are modelled instead, so the "unknown operation" branch is unreachable.
- `raise StopIteration` inside the generator (`chunk_search_utils.py:26`) becomes a RuntimeError on Python 3.7 and later. The walk is modelled as ending cleanly.
- RowView.DataframeRowView.JumpToRow: a float location is an exact `real`, so the rounding of `location * len(df)` in floating point is not modelled.
- RowView.DataframeRowView.Search: the `case_insensitive` argument is a `bool`, so the `islower()` inference for an explicit `None` is not modelled. The model reports `None` when the column is absent from the current table, where the source would search a kept cache and then fail in the chunk walk.
- RowView.DataframeRowView.Lines: an explicit negative top row (a Python negative slice) is excluded by a precondition. When the bottom row lies above the top row, the contract does not state the result. The code returns the window's Python slice between the two shifted bounds. A stop before the window's start becomes a negative index there, so that result can be non-empty.
- ColumnCache.DataframeColumnSegmentCache.Rows and CachedRows: the same gap as `Lines` for a bottom row above the top row.
- ColumnCache.DataframeColumnSegmentCache.SearchCache: requires the cache's column to be in the table, since the rendering of a missing column raises. Its result is characterised by `CacheSearchResult` and lemmas that assume a start inside the window (or just below it, going down). A start outside the window is covered only by the defining function.
- ColumnCache.DataframeColumnSegmentCache.SearchCache: the upward chunk walk uses the corrected guard `position >= 0` (see Findings), not the code's `position > 0`. `SearchCacheAsWritten` relates the two answers.
- ChunkSearch.SearchChunked: its answer is that of the corrected walk. The code's answer is stated through `AsWrittenAnswer`; it misses row 0 when going up from a multiple of 100.
- ColumnCache.SearchCacheUpward: states the corrected search. With the code's walk, row 0 is missed from a window starting at a multiple of 100, and raw row 0 is not tried again when the window starts at row 0 (`SearchCacheAsWritten`, `SearchCacheTopRowZeroExample`).
- ColumnCache.SearchCacheMiss: states the corrected search; the code also finds nothing in the row 0 cases of `SearchCacheAsWritten`.
- TableBrowser.DataframeTableBrowser.ChangeDisplayCols, PushColsAndNotify, ChangeDf, InsertColumn, HideColByIndex, Undo and Jump: their contracts do not restate that every cache keeps its widths when the row view is refreshed. `MsgCbs` and `RowView.DataframeRowView.DfChanged` state it.
- ColumnCache.NativeWidthBounds: a header longer than 50 is cut to 50 once rows are cached. So `native_width >= len(name)` holds only up to the cap. This is what the code does.
- Text.Lower: only ASCII letters are lower-cased; Python's `str.lower` maps all of Unicode.
- `MultipleDataframeBrowser.__init__` does not model its `*args` (repeated `add_df`) or its frame argument. `copy_browser` and `open_new_browser` are empty in the source. The lookups `__getitem__`, `__getattr__`, `get_browser` and `current_browser` are plain map reads and are not modelled.
- `add_df`'s `assert df is not None` cannot fail here, since a table is always a value.
- Keybindings.CommandTable.SetKeybindingsForCommand: the code stores the caller's list object itself (`_commands[command] = keybindings`). A caller that later changes that list changes the table without the shadow check, and can bind one key to two commands. The model stores a value, so its shadow-freedom holds only at the moment of the call and cannot be broken through such an alias.
- Python's dictionaries are modelled as a `seq` of entries in insertion order, with distinct commands (`Keybindings.UniqueCommands`). `keybs` returns a value, so the copy the source makes, and its independence from the table, hold by construction.

## Findings

| source | as written | input that shows it | evidently intended | confidence | as-written member | corrected member |
|---|---|---|---|---|---|---|
| df_browse/chunk_search_utils.py:6 | Upward, `not_at_end` stops the walk once the position is 0 or less. So a walk from a positive multiple of the chunk size steps onto 0 and stops, and row 0 is never in any chunk. | A 101-row column where only row 0 holds the needle, searched upward with `top_of_cache = 100` (a window refetched for a request at row 150). The walk yields one chunk, rows 1..100, and reports no match. | Keep walking while the position is a row (`position >= 0`), so the chunks cover every row above the window. | not executed | ChunkSearch.UpwardChunksMissRowZero, ChunkSearch.UpwardWalkMissesRowZeroExample, ChunkSearch.UpwardWalkNeverReportsRowZero, ColumnCache.SearchCacheAsWritten, ColumnCache.SearchCacheTopRowZeroExample | ChunkSearch.FallbackChunkStarts, ChunkSearch.FallbackUpwardChunksTile, ChunkSearch.FallbackUpwardFindsLast, ChunkSearch.SearchChunked |
