/**
 * Substring search over a list of rendered strings, and the chunked walk over a whole
 * column that the browser falls back on when its cached window holds no match
 * (df_browse/chunk_search_utils.py).
 */
module ChunkSearch {
  import opened Wrappers
  import opened Text

  /** The chunk size `search_chunk_yielder` uses when none is given (the only size its caller uses). */
  const DefaultChunkSize: nat := 100

  function Min(a: int, b: int): int { if a <= b then a else b }
  function Max(a: int, b: int): int { if a >= b then a else b }

  /** Adds `d` to a found index; `None` stays `None`. */
  function Shift(r: Option<int>, d: int): Option<int> {
    match r
    case None => None
    case Some(i) => Some(i + d)
  }

  /** Whether the list entry `s` is a hit: `needle` occurs in it, after lower-casing both when asked to. */
  predicate Matches(s: string, needle: string, caseInsensitive: bool) {
    if caseInsensitive then Contains(Lower(s), Lower(needle)) else Contains(s, needle)
  }

  /** The first hit at an index in `[i, |lst|)`, if there is one (see `FirstMatchFromSpec`). */
  function FirstMatchFrom(lst: seq<string>, needle: string, i: int, caseInsensitive: bool): Option<int>
    requires 0 <= i <= |lst|
    decreases |lst| - i
  {
    if i == |lst| then None
    else if Matches(lst[i], needle, caseInsensitive) then Some(i)
    else FirstMatchFrom(lst, needle, i + 1, caseInsensitive)
  }

  /** The last hit at an index in `[0, i]`, that is the first one met scanning upward from `i` (see `LastMatchUpToSpec`). */
  function LastMatchUpTo(lst: seq<string>, needle: string, i: int, caseInsensitive: bool): Option<int>
    requires -1 <= i < |lst|
    decreases i + 1
  {
    if i < 0 then None
    else if Matches(lst[i], needle, caseInsensitive) then Some(i)
    else LastMatchUpTo(lst, needle, i - 1, caseInsensitive)
  }

  /** `FirstMatchFrom` finds a hit, the first one from `i`, and `None` means there is none. */
  lemma {:induction false} FirstMatchFromSpec(lst: seq<string>, needle: string, i: int, caseInsensitive: bool)
    requires 0 <= i <= |lst|
    ensures var r := FirstMatchFrom(lst, needle, i, caseInsensitive);
      && (r.Some? ==> i <= r.value < |lst| && Matches(lst[r.value], needle, caseInsensitive))
      && (r.Some? ==> forall k :: i <= k < r.value ==> !Matches(lst[k], needle, caseInsensitive))
      && (r.None? <==> forall k :: i <= k < |lst| ==> !Matches(lst[k], needle, caseInsensitive))
    decreases |lst| - i
  {
    if i < |lst| && !Matches(lst[i], needle, caseInsensitive) {
      FirstMatchFromSpec(lst, needle, i + 1, caseInsensitive);
    }
  }

  /** `LastMatchUpTo` finds a hit, the last one up to `i`, and `None` means there is none. */
  lemma {:induction false} LastMatchUpToSpec(lst: seq<string>, needle: string, i: int, caseInsensitive: bool)
    requires -1 <= i < |lst|
    ensures var r := LastMatchUpTo(lst, needle, i, caseInsensitive);
      && (r.Some? ==> 0 <= r.value <= i && Matches(lst[r.value], needle, caseInsensitive))
      && (r.Some? ==> forall k :: r.value < k <= i ==> !Matches(lst[k], needle, caseInsensitive))
      && (r.None? <==> forall k :: 0 <= k <= i ==> !Matches(lst[k], needle, caseInsensitive))
    decreases i + 1
  {
    if i >= 0 && !Matches(lst[i], needle, caseInsensitive) {
      LastMatchUpToSpec(lst, needle, i - 1, caseInsensitive);
    }
  }

  /** Skipping entries that are no hit does not change the first hit. */
  lemma {:induction false} FirstMatchSkip(lst: seq<string>, needle: string, i: int, j: int, caseInsensitive: bool)
    requires 0 <= i <= j <= |lst|
    requires forall k :: i <= k < j ==> !Matches(lst[k], needle, caseInsensitive)
    ensures FirstMatchFrom(lst, needle, i, caseInsensitive) == FirstMatchFrom(lst, needle, j, caseInsensitive)
    decreases j - i
  {
    if i < j {
      FirstMatchSkip(lst, needle, i + 1, j, caseInsensitive);
    }
  }

  /** Skipping entries that are no hit does not change the last hit. */
  lemma {:induction false} LastMatchSkip(lst: seq<string>, needle: string, i: int, j: int, caseInsensitive: bool)
    requires -1 <= j <= i < |lst|
    requires forall k :: j < k <= i ==> !Matches(lst[k], needle, caseInsensitive)
    ensures LastMatchUpTo(lst, needle, i, caseInsensitive) == LastMatchUpTo(lst, needle, j, caseInsensitive)
    decreases i - j
  {
    if j < i {
      LastMatchSkip(lst, needle, i - 1, j, caseInsensitive);
    }
  }

  lemma FirstMatchIs(lst: seq<string>, needle: string, i: int, caseInsensitive: bool, j: int)
    requires 0 <= i <= j < |lst| && Matches(lst[j], needle, caseInsensitive)
    requires forall k :: i <= k < j ==> !Matches(lst[k], needle, caseInsensitive)
    ensures FirstMatchFrom(lst, needle, i, caseInsensitive) == Some(j)
  {
    FirstMatchSkip(lst, needle, i, j, caseInsensitive);
  }

  lemma LastMatchIs(lst: seq<string>, needle: string, i: int, caseInsensitive: bool, j: int)
    requires 0 <= j <= i < |lst| && Matches(lst[j], needle, caseInsensitive)
    requires forall k :: j < k <= i ==> !Matches(lst[k], needle, caseInsensitive)
    ensures LastMatchUpTo(lst, needle, i, caseInsensitive) == Some(j)
  {
    LastMatchSkip(lst, needle, i, j, caseInsensitive);
  }

  /** The positions `get_next_chunk` is handed: row indices downward, row indices or -1 upward. */
  predicate ValidStart(start: int, down: bool) {
    if down then 0 <= start else -1 <= start
  }

  /** Where Python's slice bound `i` falls in a list of length `n`: negative bounds count from the end, and both ends clamp. */
  function PyIndex(i: int, n: nat): (r: nat)
    ensures r <= n
    ensures 0 <= i ==> r == Min(i, n)
    ensures i < 0 ==> r == Max(0, n + i)
  {
    if i < 0 then Max(0, n + i) else Min(i, n)
  }

  /**
   * What `search_list_for_str` returns. Downward it scans `lst[start:]`, upward the reversed
   * `lst[:start + 1]`; it reports `start + idx` (down) or `start - idx` (up), `idx` being the
   * position in the scanned slice. The slices follow Python: past the end they are clamped
   * and negative bounds count from the end, so outside the list the reported index is
   * shifted from the position of the hit by the distance between `start` and where the
   * scan really began.
   */
  function ListSearch(lst: seq<string>, needle: string, start: int, down: bool, caseInsensitive: bool): Option<int>
  {
    if down then
      var lo := PyIndex(start, |lst|);
      Shift(FirstMatchFrom(lst, needle, lo, caseInsensitive), start - lo)
    else
      var top := PyIndex(start + 1, |lst|) - 1;
      Shift(LastMatchUpTo(lst, needle, top, caseInsensitive), start - top)
  }

  /** The list `search_list_for_str` walks: `lst[start:]` downward, `reversed(lst[:start + 1])` upward. */
  function SearchList(lst: seq<string>, start: int, down: bool): (r: seq<string>)
    ensures down ==> (|r| == |lst| - PyIndex(start, |lst|)
                      && forall j :: 0 <= j < |r| ==> r[j] == lst[PyIndex(start, |lst|) + j])
    ensures !down ==> (|r| == PyIndex(start + 1, |lst|)
                       && forall j :: 0 <= j < |r| ==> r[j] == lst[|r| - 1 - j])
  {
    if down then lst[PyIndex(start, |lst|)..]
    else
      var m := PyIndex(start + 1, |lst|);
      seq(m, j requires 0 <= j < m => lst[m - 1 - j])
  }

  /** The index `search_list_for_str` reports for a hit at position `idx` of the walked list. */
  function Reported(start: int, idx: int, down: bool): int {
    if down then start + idx else start - idx
  }

  /** A first hit at position `idx` of the walked list is what `ListSearch` describes. */
  lemma WalkHit(lst: seq<string>, needle: string, start: int, down: bool, caseInsensitive: bool, idx: int)
    requires 0 <= idx < |SearchList(lst, start, down)|
    requires Matches(SearchList(lst, start, down)[idx], needle, caseInsensitive)
    requires forall j :: 0 <= j < idx ==> !Matches(SearchList(lst, start, down)[j], needle, caseInsensitive)
    ensures ListSearch(lst, needle, start, down, caseInsensitive) == Some(Reported(start, idx, down))
  {
    var w := SearchList(lst, start, down);
    if down {
      var lo := PyIndex(start, |lst|);
      forall k | lo <= k < lo + idx ensures !Matches(lst[k], needle, caseInsensitive) {
        assert w[k - lo] == lst[k];
      }
      FirstMatchIs(lst, needle, lo, caseInsensitive, lo + idx);
    } else {
      var top := PyIndex(start + 1, |lst|) - 1;
      forall k | top - idx < k <= top ensures !Matches(lst[k], needle, caseInsensitive) {
        assert w[top - k] == lst[k];
      }
      LastMatchIs(lst, needle, top, caseInsensitive, top - idx);
    }
  }

  /** A walked list without a hit is what `ListSearch` describes as `None`. */
  lemma WalkMiss(lst: seq<string>, needle: string, start: int, down: bool, caseInsensitive: bool)
    requires forall j :: 0 <= j < |SearchList(lst, start, down)| ==>
      !Matches(SearchList(lst, start, down)[j], needle, caseInsensitive)
    ensures ListSearch(lst, needle, start, down, caseInsensitive) == None
  {
    var w := SearchList(lst, start, down);
    if down {
      var lo := PyIndex(start, |lst|);
      forall k | lo <= k < |lst| ensures !Matches(lst[k], needle, caseInsensitive) {
        assert w[k - lo] == lst[k];
      }
      FirstMatchSkip(lst, needle, lo, |lst|, caseInsensitive);
    } else {
      var top := PyIndex(start + 1, |lst|) - 1;
      forall k | 0 <= k <= top ensures !Matches(lst[k], needle, caseInsensitive) {
        assert w[top - k] == lst[k];
      }
      LastMatchSkip(lst, needle, top, -1, caseInsensitive);
    }
  }

  /** `search_list_for_str`: one loop over the walked list with an early return. */
  method SearchListForStr(lst: seq<string>, searchString: string, startingItem: int, down: bool,
                          caseInsensitive: bool) returns (r: Option<int>)
    ensures r == ListSearch(lst, searchString, startingItem, down, caseInsensitive)
  {
    var needle := if caseInsensitive then Lower(searchString) else searchString;
    var searchList := SearchList(lst, startingItem, down);
    for idx := 0 to |searchList|
      invariant forall j :: 0 <= j < idx ==> !Matches(searchList[j], searchString, caseInsensitive)
    {
      var s := searchList[idx];
      s := if caseInsensitive then Lower(s) else s;
      if Contains(s, needle) {
        WalkHit(lst, searchString, startingItem, down, caseInsensitive, idx);
        return Some(if down then startingItem + idx else startingItem - idx);
      }
    }
    WalkMiss(lst, searchString, startingItem, down, caseInsensitive);
    return None;
  }

  /**
   * From a start inside the list the answer is the nearest hit in the search direction:
   * downward the first hit at or after `start`, upward the first hit at or before it,
   * and `None` exactly when that range holds no hit.
   */
  lemma ListSearchInRange(lst: seq<string>, needle: string, start: int, down: bool, caseInsensitive: bool)
    requires if down then 0 <= start <= |lst| else -1 <= start < |lst|
    ensures var r := ListSearch(lst, needle, start, down, caseInsensitive);
      && (r.Some? ==> 0 <= r.value < |lst| && Matches(lst[r.value], needle, caseInsensitive))
      && (r.Some? && down ==> start <= r.value && forall k :: start <= k < r.value ==> !Matches(lst[k], needle, caseInsensitive))
      && (r.Some? && !down ==> r.value <= start && forall k :: r.value < k <= start ==> !Matches(lst[k], needle, caseInsensitive))
      && (r.None? && down <==> down && forall k :: start <= k < |lst| ==> !Matches(lst[k], needle, caseInsensitive))
      && (r.None? && !down <==> !down && forall k :: 0 <= k <= start ==> !Matches(lst[k], needle, caseInsensitive))
  {
    if down {
      FirstMatchFromSpec(lst, needle, start, caseInsensitive);
    } else {
      LastMatchUpToSpec(lst, needle, start, caseInsensitive);
    }
  }

  /** Case-insensitive scanning is case-sensitive scanning of the lower-cased list for the lower-cased needle. */
  lemma {:induction false} CaseInsensitiveFirstMatch(lst: seq<string>, needle: string, i: int)
    requires 0 <= i <= |lst|
    ensures FirstMatchFrom(lst, needle, i, true) == FirstMatchFrom(LowerAll(lst), Lower(needle), i, false)
    decreases |lst| - i
  {
    if i < |lst| {
      assert Matches(lst[i], needle, true) == Matches(LowerAll(lst)[i], Lower(needle), false);
      CaseInsensitiveFirstMatch(lst, needle, i + 1);
    }
  }

  lemma {:induction false} CaseInsensitiveLastMatch(lst: seq<string>, needle: string, i: int)
    requires -1 <= i < |lst|
    ensures LastMatchUpTo(lst, needle, i, true) == LastMatchUpTo(LowerAll(lst), Lower(needle), i, false)
    decreases i + 1
  {
    if i >= 0 {
      assert Matches(lst[i], needle, true) == Matches(LowerAll(lst)[i], Lower(needle), false);
      CaseInsensitiveLastMatch(lst, needle, i - 1);
    }
  }

  /** `search_list_for_str(lst, s, i, down, True)` answers as `search_list_for_str(lowered lst, s.lower(), i, down, False)`. */
  lemma CaseInsensitiveSearchIsLoweredSearch(lst: seq<string>, needle: string, start: int, down: bool)
    ensures ListSearch(lst, needle, start, down, true) == ListSearch(LowerAll(lst), Lower(needle), start, down, false)
  {
    if down {
      CaseInsensitiveFirstMatch(lst, needle, PyIndex(start, |lst|));
    } else {
      CaseInsensitiveLastMatch(lst, needle, PyIndex(start + 1, |lst|) - 1);
    }
  }

  /** Python's `s[lo:hi]`: both bounds are placed as `PyIndex` places them, and a stop before the start gives nothing. */
  function Slice<T>(s: seq<T>, lo: int, hi: int): (r: seq<T>)
    ensures |r| == Max(0, PyIndex(hi, |s|) - PyIndex(lo, |s|))
    ensures forall k :: 0 <= k < |r| ==> r[k] == s[PyIndex(lo, |s|) + k]
  {
    var l := PyIndex(lo, |s|);
    s[l..Max(l, PyIndex(hi, |s|))]
  }

  /** `not_at_end`: downward a position is inside while below the length, upward while above 0. */
  predicate NotAtEnd(length: nat, position: int, down: bool) {
    if down then position < length else position > 0
  }

  /**
   * `get_next_chunk`: the chunk of at most `chunkSize` entries that starts at `startPosition`
   * (downward) or ends at `startPosition` inclusive (upward), with the index where it begins.
   */
  function GetNextChunk<T>(sliceable: seq<T>, startPosition: int, chunkSize: nat, down: bool): (r: (seq<T>, int))
    requires ValidStart(startPosition, down)
    ensures |r.0| <= chunkSize
    ensures r.1 == if down then startPosition else Max(0, startPosition - chunkSize + 1)
    ensures down ==> r.0 == sliceable[Min(startPosition, |sliceable|)..Min(|sliceable|, startPosition + chunkSize)]
    ensures !down ==> r.0 == sliceable[Min(r.1, |sliceable|)..Min(startPosition + 1, |sliceable|)]
  {
    if !down then
      var chunkBeg := Max(0, startPosition - chunkSize + 1);
      (Slice(sliceable, chunkBeg, startPosition + 1), chunkBeg)
    else
      var chunkEnd := Min(|sliceable|, startPosition + chunkSize);
      (Slice(sliceable, startPosition, chunkEnd), startPosition)
  }

  /**
   * The chunk start positions `search_chunk_yielder` yields, as written: it steps by
   * `chunkSize` while `not_at_end` holds, so upward it stops as soon as the position is 0 or less.
   */
  function ChunkStarts(length: nat, startLocation: int, chunkSize: nat, down: bool): (r: seq<int>)
    requires chunkSize > 0
    ensures forall k :: 0 <= k < |r| ==>
      if down then startLocation <= r[k] < length else 0 < r[k] <= startLocation
    decreases if down then length - startLocation else startLocation
  {
    if !NotAtEnd(length, startLocation, down) then []
    else [startLocation] + ChunkStarts(length, if down then startLocation + chunkSize else startLocation - chunkSize, chunkSize, down)
  }

  lemma {:induction false} DownwardChunkStartAt(length: nat, p: int, size: nat, k: nat)
    requires size > 0 && k < |ChunkStarts(length, p, size, true)|
    ensures ChunkStarts(length, p, size, true)[k] == p + k * size
    decreases k
  {
    if k > 0 {
      DownwardChunkStartAt(length, p + size, size, k - 1);
      assert p + size + (k - 1) * size == p + k * size;
    }
  }

  lemma {:induction false} DownwardChunkCount(length: nat, p: int, size: nat)
    requires size > 0
    ensures var r := ChunkStarts(length, p, size, true);
      && (p < length <==> |r| > 0)
      && (|r| > 0 ==> length <= p + |r| * size)
    decreases length - p
  {
    if p < length {
      var rest := ChunkStarts(length, p + size, size, true);
      DownwardChunkCount(length, p + size, size);
      assert p + (|rest| + 1) * size == p + size + |rest| * size;
    }
  }

  /** Downward, the yielded starts are `p, p + size, p + 2 size, ...`, all below the length, and the last chunk reaches it. */
  lemma DownwardChunkStarts(length: nat, p: int, size: nat)
    requires size > 0
    ensures var r := ChunkStarts(length, p, size, true);
      && (forall k :: 0 <= k < |r| ==> r[k] == p + k * size)
      && (p < length <==> |r| > 0)
      && (|r| > 0 ==> length <= p + |r| * size)
  {
    var r := ChunkStarts(length, p, size, true);
    forall k | 0 <= k < |r| ensures r[k] == p + k * size {
      DownwardChunkStartAt(length, p, size, k);
    }
    DownwardChunkCount(length, p, size);
  }

  /**
   * Downward the chunks tile `[p, length)` exactly: the first begins at `p`, each one ends
   * where the next begins, none is empty, and the last ends at `length`.
   */
  lemma DownwardChunksTile(length: nat, p: nat, size: nat)
    requires size > 0 && p < length
    ensures var r := ChunkStarts(length, p, size, true);
      && |r| > 0 && r[0] == p
      && (forall k :: 0 <= k < |r| - 1 ==> Min(length, r[k] + size) == r[k + 1])
      && (forall k :: 0 <= k < |r| ==> r[k] < Min(length, r[k] + size))
      && Min(length, r[|r| - 1] + size) == length
  {
    var r := ChunkStarts(length, p, size, true);
    DownwardChunkStarts(length, p, size);
    forall k | 0 <= k < |r| - 1 ensures Min(length, r[k] + size) == r[k + 1] {
      assert r[k + 1] == p + (k + 1) * size == p + k * size + size;
    }
    assert r[|r| - 1] + size == p + |r| * size;
  }

  /** The worked example: from row 0 of 10,050 rows in chunks of 100 there are 101 chunks, the last from row 10,000. */
  lemma TenThousandFiftyRowsTakeOneHundredOneChunks()
    ensures var r := ChunkStarts(10050, 0, 100, true);
      |r| == 101 && r[100] == 10000 && Min(10050, r[100] + 100) == 10050
  {
    var r := ChunkStarts(10050, 0, 100, true);
    DownwardChunkStarts(10050, 0, 100);
    assert (|r| - 1) * 100 == r[|r| - 1] < 10050;
  }

  lemma {:induction false} UpwardChunkStartAt(length: nat, p: int, size: nat, k: nat)
    requires size > 0 && k < |ChunkStarts(length, p, size, false)|
    ensures ChunkStarts(length, p, size, false)[k] == p - k * size
    decreases k
  {
    if k > 0 {
      UpwardChunkStartAt(length, p - size, size, k - 1);
      assert p - size - (k - 1) * size == p - k * size;
    }
  }

  lemma {:induction false} UpwardChunkCount(length: nat, p: int, size: nat)
    requires size > 0
    ensures var r := ChunkStarts(length, p, size, false);
      && (p > 0 <==> |r| > 0)
      && (|r| > 0 ==> p - |r| * size <= 0)
    decreases p
  {
    if p > 0 {
      var rest := ChunkStarts(length, p - size, size, false);
      UpwardChunkCount(length, p - size, size);
      assert p - (|rest| + 1) * size == p - size - |rest| * size;
    }
  }

  /** Upward, as written, the starts are `p, p - size, ...`, all above 0; from 0 or below nothing is yielded. */
  lemma UpwardChunkStarts(length: nat, p: int, size: nat)
    requires size > 0
    ensures var r := ChunkStarts(length, p, size, false);
      && (forall k :: 0 <= k < |r| ==> r[k] == p - k * size)
      && (p > 0 <==> |r| > 0)
      && (|r| > 0 ==> p - |r| * size <= 0)
  {
    var r := ChunkStarts(length, p, size, false);
    forall k | 0 <= k < |r| ensures r[k] == p - k * size {
      UpwardChunkStartAt(length, p, size, k);
    }
    UpwardChunkCount(length, p, size);
  }

  /**
   * As written, an upward walk from a positive multiple of the chunk size never yields a
   * chunk that holds row 0: every chunk begins at row 1 or later.
   */
  lemma {:induction false} UpwardChunksMissRowZero(length: nat, m: nat, size: nat)
    requires size > 0
    ensures var r := ChunkStarts(length, m * size, size, false);
      forall k :: 0 <= k < |r| ==> GetNextChunk(seq(length, j => j), r[k], size, false).1 >= 1
  {
    var r := ChunkStarts(length, m * size, size, false);
    if m > 0 {
      var q: nat := m - 1;
      assert m * size == q * size + size;
      assert q * size >= 0;
      UpwardChunksMissRowZero(length, q, size);
      assert r == [m * size] + ChunkStarts(length, q * size, size, false);
    }
  }

  /** The guard the upward walk evidently intends: keep going while the position is a row, 0 included. */
  predicate HasRowsLeft(length: nat, position: int, down: bool) {
    if down then position < length else position >= 0
  }

  /** The chunk starts of the walk with the upward guard corrected. */
  function FallbackChunkStarts(length: nat, startLocation: int, chunkSize: nat, down: bool): (r: seq<int>)
    requires chunkSize > 0
    ensures forall k :: 0 <= k < |r| ==>
      if down then startLocation <= r[k] < length else 0 <= r[k] <= startLocation
    decreases if down then length - startLocation else startLocation + 1
  {
    if !HasRowsLeft(length, startLocation, down) then []
    else [startLocation] + FallbackChunkStarts(length, if down then startLocation + chunkSize else startLocation - chunkSize, chunkSize, down)
  }

  /**
   * With the corrected guard the upward chunks tile `[0, p]`: the first ends at `p`, each
   * begins one row after the next one ends, and the last begins at row 0.
   */
  lemma {:induction false} FallbackUpwardChunksTile(length: nat, p: nat, size: nat)
    requires size > 0
    ensures var r := FallbackChunkStarts(length, p, size, false);
      && |r| > 0 && r[0] == p
      && (forall k :: 0 <= k < |r| - 1 ==> Max(0, r[k] - size + 1) == r[k + 1] + 1)
      && Max(0, r[|r| - 1] - size + 1) == 0
    decreases p
  {
    var r := FallbackChunkStarts(length, p, size, false);
    if p - size >= 0 {
      FallbackUpwardChunksTile(length, p - size, size);
      assert r == [p] + FallbackChunkStarts(length, p - size, size, false);
    }
  }

  /** The positions a walk may pass to `get_next_chunk`. */
  predicate ValidStarts(starts: seq<int>, down: bool) {
    forall k :: 0 <= k < |starts| ==> ValidStart(starts[k], down)
  }

  /** Searching one chunk from its direction-appropriate end, as an absolute row index. */
  function SearchOneChunk(column: seq<string>, needle: string, position: int, chunkSize: nat, down: bool,
                          caseInsensitive: bool): Option<int>
    requires ValidStart(position, down)
  {
    var chunk := GetNextChunk(column, position, chunkSize, down);
    Shift(ListSearch(chunk.0, needle, if down then 0 else |chunk.0| - 1, down, caseInsensitive), chunk.1)
  }

  /** The consumer of the walk (dataframe_browser.py): chunk after chunk, the first hit found wins. */
  function SearchChunks(column: seq<string>, needle: string, starts: seq<int>, chunkSize: nat, down: bool,
                        caseInsensitive: bool): Option<int>
    requires ValidStarts(starts, down)
  {
    if starts == [] then None
    else
      match SearchOneChunk(column, needle, starts[0], chunkSize, down, caseInsensitive)
      case Some(i) => Some(i)
      case None => SearchChunks(column, needle, starts[1..], chunkSize, down, caseInsensitive)
  }

  /**
   * A concrete column on which the as-written upward walk misses a hit: only row 0 holds the
   * needle, the walk starts at row 100 with chunks of 100, and nothing is found; with the
   * corrected guard row 0 is found.
   */
  lemma UpwardWalkMissesRowZeroExample()
    ensures var column := ["x"] + seq(100, j => "y");
      && SearchChunks(column, "x", ChunkStarts(101, 100, 100, false), 100, false, false) == None
      && SearchChunks(column, "x", FallbackChunkStarts(101, 100, 100, false), 100, false, false) == Some(0)
  {
    var column := ["x"] + seq(100, j => "y");
    assert ChunkStarts(101, 100, 100, false) == [100];
    assert FallbackChunkStarts(101, 100, 100, false) == [100, 0];
    var (chunk, b) := GetNextChunk(column, 100, 100, false);
    assert b == 1 && chunk == column[1..101];
    assert !Matches("y", "x", false) by {
      assert "y"[1..] == [] && !Contains([], "x");
      assert "y"[..1][0] == 'y' != 'x' == "x"[0];
    }
    forall k | 0 <= k <= 99 ensures !Matches(chunk[k], "x", false) {
      assert chunk[k] == column[k + 1] == "y";
    }
    LastMatchSkip(chunk, "x", 99, -1, false);
    assert Matches(column[0], "x", false);
  }

  /** One step of a walk: the first chunk's answer if it has one, otherwise the rest of the walk's. */
  lemma SearchChunksStep(column: seq<string>, needle: string, starts: seq<int>, chunkSize: nat, down: bool,
                         caseInsensitive: bool)
    requires ValidStarts(starts, down) && starts != []
    ensures var one := SearchOneChunk(column, needle, starts[0], chunkSize, down, caseInsensitive);
      SearchChunks(column, needle, starts, chunkSize, down, caseInsensitive)
      == if one.Some? then one else SearchChunks(column, needle, starts[1..], chunkSize, down, caseInsensitive)
  {
  }

  /** A first hit in the slice `lst[p..e]` is the first hit in `lst` from `p`; no hit in it means no hit in `[p, e)`. */
  lemma SliceFirstMatch(lst: seq<string>, needle: string, p: int, e: int, caseInsensitive: bool)
    requires 0 <= p <= e <= |lst|
    ensures var local := FirstMatchFrom(lst[p..e], needle, 0, caseInsensitive);
      && (local.Some? ==> FirstMatchFrom(lst, needle, p, caseInsensitive) == Some(p + local.value))
      && (local.None? ==> forall k :: p <= k < e ==> !Matches(lst[k], needle, caseInsensitive))
  {
    var chunk := lst[p..e];
    var local := FirstMatchFrom(chunk, needle, 0, caseInsensitive);
    FirstMatchFromSpec(chunk, needle, 0, caseInsensitive);
    if local.Some? {
      var j := local.value;
      forall k | p <= k < p + j ensures !Matches(lst[k], needle, caseInsensitive) {
        assert chunk[k - p] == lst[k];
      }
      assert chunk[j] == lst[p + j];
      FirstMatchIs(lst, needle, p, caseInsensitive, p + j);
    } else {
      forall k | p <= k < e ensures !Matches(lst[k], needle, caseInsensitive) {
        assert chunk[k - p] == lst[k];
      }
    }
  }

  /** A last hit in the slice `lst[b..t + 1]` is the last hit in `lst` up to `t`; no hit in it means no hit in `[b, t]`. */
  lemma SliceLastMatch(lst: seq<string>, needle: string, b: int, t: int, caseInsensitive: bool)
    requires 0 <= b <= t < |lst|
    ensures var local := LastMatchUpTo(lst[b..t + 1], needle, t - b, caseInsensitive);
      && (local.Some? ==> LastMatchUpTo(lst, needle, t, caseInsensitive) == Some(b + local.value))
      && (local.None? ==> forall k :: b <= k <= t ==> !Matches(lst[k], needle, caseInsensitive))
  {
    var chunk := lst[b..t + 1];
    var local := LastMatchUpTo(chunk, needle, t - b, caseInsensitive);
    LastMatchUpToSpec(chunk, needle, t - b, caseInsensitive);
    if local.Some? {
      var j := local.value;
      forall k | b + j < k <= t ensures !Matches(lst[k], needle, caseInsensitive) {
        assert chunk[k - b] == lst[k];
      }
      assert chunk[j] == lst[b + j];
      LastMatchIs(lst, needle, t, caseInsensitive, b + j);
    } else {
      forall k | b <= k <= t ensures !Matches(lst[k], needle, caseInsensitive) {
        assert chunk[k - b] == lst[k];
      }
    }
  }

  /** Downward, the chunk at `p` is searched as the slice `column[p..min(len, p + size)]`, from its first entry. */
  lemma DownwardChunkSearch(column: seq<string>, needle: string, p: int, size: nat, caseInsensitive: bool)
    requires 0 <= p <= |column|
    ensures SearchOneChunk(column, needle, p, size, true, caseInsensitive)
         == Shift(FirstMatchFrom(column[p..Min(|column|, p + size)], needle, 0, caseInsensitive), p)
  {
    assert GetNextChunk(column, p, size, true).0 == column[p..Min(|column|, p + size)];
  }

  /** Downward, the chunk at `p` answers with the first hit in `[p, min(len, p + size))`, if there is one. */
  lemma DownwardChunkAnswer(column: seq<string>, needle: string, p: int, size: nat, caseInsensitive: bool)
    requires size > 0 && 0 <= p < |column|
    ensures var one := SearchOneChunk(column, needle, p, size, true, caseInsensitive);
      && (one.Some? ==> one == FirstMatchFrom(column, needle, p, caseInsensitive))
      && (one.None? ==> forall k :: p <= k < Min(|column|, p + size) ==> !Matches(column[k], needle, caseInsensitive))
  {
    DownwardChunkSearch(column, needle, p, size, caseInsensitive);
    SliceFirstMatch(column, needle, p, Min(|column|, p + size), caseInsensitive);
  }

  /** Upward, the chunk at `p` answers with the last hit in `[max(0, p - size + 1), p]` (within the column), if there is one. */
  lemma UpwardChunkAnswer(column: seq<string>, needle: string, p: int, size: nat, caseInsensitive: bool)
    requires size > 0 && 0 <= p
    ensures var one := SearchOneChunk(column, needle, p, size, false, caseInsensitive);
      && (one.Some? ==> one == LastMatchUpTo(column, needle, Min(p, |column| - 1), caseInsensitive))
      && (one.None? ==> forall k :: Max(0, p - size + 1) <= k <= Min(p, |column| - 1) ==> !Matches(column[k], needle, caseInsensitive))
  {
    var b := Max(0, p - size + 1);
    var t := Min(p, |column| - 1);
    var chunk := GetNextChunk(column, p, size, false).0;
    if b <= t {
      assert chunk == column[b..t + 1];
      SliceLastMatch(column, needle, b, t, caseInsensitive);
    } else {
      assert chunk == [];
    }
  }

  /** Downward, a chunk without a hit lets the first hit from its start be the first hit after it. */
  lemma DownwardChunkMiss(column: seq<string>, needle: string, p: int, size: nat, caseInsensitive: bool)
    requires size > 0 && 0 <= p < |column|
    requires SearchOneChunk(column, needle, p, size, true, caseInsensitive).None?
    ensures FirstMatchFrom(column, needle, p, caseInsensitive)
         == FirstMatchFrom(column, needle, Min(p + size, |column|), caseInsensitive)
  {
    DownwardChunkAnswer(column, needle, p, size, caseInsensitive);
    FirstMatchSkip(column, needle, p, Min(p + size, |column|), caseInsensitive);
  }

  /** Downward, the chunked walk finds the first hit at or after its start, as one scan would. */
  lemma {:induction false} FallbackDownwardFindsFirst(column: seq<string>, needle: string, p: int, size: nat,
                                                       caseInsensitive: bool)
    requires size > 0 && 0 <= p
    ensures SearchChunks(column, needle, FallbackChunkStarts(|column|, p, size, true), size, true, caseInsensitive)
         == FirstMatchFrom(column, needle, Min(p, |column|), caseInsensitive)
    decreases |column| - p
  {
    if p < |column| {
      var one := SearchOneChunk(column, needle, p, size, true, caseInsensitive);
      var rest := SearchChunks(column, needle, FallbackChunkStarts(|column|, p + size, size, true), size, true, caseInsensitive);
      FallbackWalkStep(column, needle, p, size, true, caseInsensitive);
      if one.None? {
        var next := Min(p + size, |column|);
        assert rest == FirstMatchFrom(column, needle, next, caseInsensitive) by {
          FallbackDownwardFindsFirst(column, needle, p + size, size, caseInsensitive);
        }
        assert FirstMatchFrom(column, needle, p, caseInsensitive) == FirstMatchFrom(column, needle, next, caseInsensitive) by {
          DownwardChunkMiss(column, needle, p, size, caseInsensitive);
        }
      } else {
        DownwardChunkAnswer(column, needle, p, size, caseInsensitive);
      }
    } else {
      assert FallbackChunkStarts(|column|, p, size, true) == [];
    }
  }

  /** Upward, a chunk without a hit lets the last hit up to its top be the last hit below it. */
  lemma UpwardChunkMiss(column: seq<string>, needle: string, p: int, size: nat, caseInsensitive: bool)
    requires size > 0 && 0 <= p
    requires SearchOneChunk(column, needle, p, size, false, caseInsensitive).None?
    ensures LastMatchUpTo(column, needle, Min(p, |column| - 1), caseInsensitive)
         == LastMatchUpTo(column, needle, Min(Max(p - size, -1), |column| - 1), caseInsensitive)
  {
    UpwardChunkAnswer(column, needle, p, size, caseInsensitive);
    LastMatchSkip(column, needle, Min(p, |column| - 1), Min(Max(p - size, -1), |column| - 1), caseInsensitive);
  }

  /** Upward, the chunked walk with the corrected guard finds the first hit at or before its start. */
  lemma {:induction false} FallbackUpwardFindsLast(column: seq<string>, needle: string, p: int, size: nat,
                                                    caseInsensitive: bool)
    requires size > 0 && -1 <= p
    ensures SearchChunks(column, needle, FallbackChunkStarts(|column|, p, size, false), size, false, caseInsensitive)
         == LastMatchUpTo(column, needle, Min(p, |column| - 1), caseInsensitive)
    decreases p + 1
  {
    if p >= 0 {
      var q := p - size;
      var one := SearchOneChunk(column, needle, p, size, false, caseInsensitive);
      var rest := SearchChunks(column, needle, FallbackChunkStarts(|column|, q, size, false), size, false, caseInsensitive);
      FallbackWalkStep(column, needle, p, size, false, caseInsensitive);
      if one.None? {
        UpwardChunkMiss(column, needle, p, size, caseInsensitive);
        if q >= -1 {
          FallbackUpwardFindsLast(column, needle, q, size, caseInsensitive);
        } else {
          assert FallbackChunkStarts(|column|, q, size, false) == [];
        }
        assert rest == LastMatchUpTo(column, needle, Min(p, |column| - 1), caseInsensitive);
      } else {
        UpwardChunkAnswer(column, needle, p, size, caseInsensitive);
      }
    } else {
      assert FallbackChunkStarts(|column|, p, size, false) == [];
    }
  }

  /** One step of the corrected walk from `position`: the chunk there answers, or the walk goes on one chunk further. */
  lemma FallbackWalkStep(column: seq<string>, needle: string, position: int, size: nat, down: bool,
                         caseInsensitive: bool)
    requires size > 0 && ValidStart(position, down) && HasRowsLeft(|column|, position, down)
    ensures var one := SearchOneChunk(column, needle, position, size, down, caseInsensitive);
      var next := if down then position + size else position - size;
      SearchChunks(column, needle, FallbackChunkStarts(|column|, position, size, down), size, down, caseInsensitive)
      == if one.Some? then one else SearchChunks(column, needle, FallbackChunkStarts(|column|, next, size, down), size, down, caseInsensitive)
  {
    var starts := FallbackChunkStarts(|column|, position, size, down);
    var next := if down then position + size else position - size;
    assert starts[0] == position;
    assert starts[1..] == FallbackChunkStarts(|column|, next, size, down);
    SearchChunksStep(column, needle, starts, size, down, caseInsensitive);
  }

  /** Downward the guard is unchanged: the walk as written and the corrected walk yield the same starts. */
  lemma {:induction false} DownwardWalksAgree(length: nat, p: int, size: nat)
    requires size > 0
    ensures ChunkStarts(length, p, size, true) == FallbackChunkStarts(length, p, size, true)
    decreases length - p
  {
    if p < length {
      DownwardWalksAgree(length, p + size, size);
    }
  }

  /** One chunk further up keeps a start's remainder, and a positive start below one chunk is no multiple of it. */
  lemma StepKeepsRemainder(p: int, size: nat)
    requires 0 < p && size > 0
    ensures (p - size >= 0 && (p - size) % size == 0) <==> p % size == 0
  {
    if p - size >= 0 {
      var q, r := (p - size) / size, (p - size) % size;
      assert p - size == q * size + r;
      assert p == (q + 1) * size + r;
      RemainderUnique(p, size, q + 1, r);
    } else {
      RemainderUnique(p, size, 0, p);
    }
  }

  /** The remainder is the only `r` in `[0, size)` with `p == q * size + r` for some `q`. */
  lemma RemainderUnique(p: int, size: nat, q: int, r: int)
    requires size > 0 && p == q * size + r && 0 <= r < size
    ensures p % size == r
  {
    var q', r' := p / size, p % size;
    assert p == q' * size + r';
    assert (q - q') * size == r' - r;
    if q - q' >= 1 {
      assert false;
    } else if q - q' <= -1 {
      assert false;
    }
  }

  /**
   * Upward the corrected walk yields the starts of the walk as written and, when the start is
   * a non-negative multiple of the chunk size, one start more: row 0, which the code never reaches.
   */
  lemma {:induction false} UpwardWalksDiffer(length: nat, p: int, size: nat)
    requires size > 0
    ensures FallbackChunkStarts(length, p, size, false)
         == ChunkStarts(length, p, size, false) + (if p >= 0 && p % size == 0 then [0] else [])
    decreases p + 1
  {
    if p > 0 {
      UpwardWalksDiffer(length, p - size, size);
      StepKeepsRemainder(p, size);
      assert FallbackChunkStarts(length, p, size, false) == [p] + FallbackChunkStarts(length, p - size, size, false);
      assert ChunkStarts(length, p, size, false) == [p] + ChunkStarts(length, p - size, size, false);
    } else if p == 0 {
      assert FallbackChunkStarts(length, -(size as int), size, false) == [];
    }
  }

  /** Searching the starts `a + b` answers as `a` does when it finds something, and as `b` does otherwise. */
  lemma {:induction false} SearchChunksAppend(column: seq<string>, needle: string, a: seq<int>, b: seq<int>, size: nat,
                                              down: bool, caseInsensitive: bool)
    requires ValidStarts(a, down) && ValidStarts(b, down)
    ensures ValidStarts(a + b, down)
    ensures var first := SearchChunks(column, needle, a, size, down, caseInsensitive);
      SearchChunks(column, needle, a + b, size, down, caseInsensitive)
      == if first.Some? then first else SearchChunks(column, needle, b, size, down, caseInsensitive)
  {
    if a == [] {
      assert a + b == b;
    } else {
      assert (a + b)[0] == a[0];
      assert (a + b)[1..] == a[1..] + b;
      SearchChunksAppend(column, needle, a[1..], b, size, down, caseInsensitive);
    }
  }

  /** Upward, a chunk ending a whole chunk or more above row 0 reports no row before row 1. */
  lemma UpwardChunkAboveRowZero(column: seq<string>, needle: string, p: int, size: nat, caseInsensitive: bool)
    requires 0 < size <= p
    ensures var one := SearchOneChunk(column, needle, p, size, false, caseInsensitive); one.Some? ==> one.value >= 1
  {
    var chunk := GetNextChunk(column, p, size, false);
    ListSearchInRange(chunk.0, needle, |chunk.0| - 1, false, caseInsensitive);
  }

  /** As written, an upward walk from a multiple of the chunk size never reports row 0. */
  lemma {:induction false} UpwardWalkNeverReportsRowZero(column: seq<string>, needle: string, p: int, size: nat,
                                                          caseInsensitive: bool)
    requires size > 0 && p >= 0 && p % size == 0
    ensures SearchChunks(column, needle, ChunkStarts(|column|, p, size, false), size, false, caseInsensitive) != Some(0)
    decreases p
  {
    if p > 0 {
      StepKeepsRemainder(p, size);
      UpwardChunkAboveRowZero(column, needle, p, size, caseInsensitive);
      UpwardWalkNeverReportsRowZero(column, needle, p - size, size, caseInsensitive);
      assert ChunkStarts(|column|, p, size, false) == [p] + ChunkStarts(|column|, p - size, size, false);
      SearchChunksStep(column, needle, ChunkStarts(|column|, p, size, false), size, false, caseInsensitive);
    }
  }

  /**
   * The upward walk as written answers as the corrected one, except when its start is a
   * non-negative multiple of the chunk size and the corrected answer is row 0: then the
   * code finds nothing.
   */
  lemma UpwardWalkAsWritten(column: seq<string>, needle: string, p: int, size: nat, caseInsensitive: bool)
    requires size > 0 && -1 <= p
    ensures var asWritten := SearchChunks(column, needle, ChunkStarts(|column|, p, size, false), size, false, caseInsensitive);
      var intended := LastMatchUpTo(column, needle, Min(p, |column| - 1), caseInsensitive);
      asWritten == if p >= 0 && p % size == 0 && intended == Some(0) then None else intended
  {
    var written := ChunkStarts(|column|, p, size, false);
    var tail: seq<int> := if p >= 0 && p % size == 0 then [0] else [];
    UpwardWalksDiffer(|column|, p, size);
    FallbackUpwardFindsLast(column, needle, p, size, caseInsensitive);
    SearchChunksAppend(column, needle, written, tail, size, false, caseInsensitive);
    if tail == [0] {
      var one := SearchOneChunk(column, needle, 0, size, false, caseInsensitive);
      UpwardChunkAnswer(column, needle, 0, size, caseInsensitive);
      if |column| > 0 {
        LastMatchUpToSpec(column, needle, 0, caseInsensitive);
      }
      assert SearchChunks(column, needle, tail, size, false, caseInsensitive) == one;
      assert one == None || one == Some(0);
      UpwardWalkNeverReportsRowZero(column, needle, p, size, caseInsensitive);
    } else {
      assert written + tail == written;
    }
  }

  /**
   * What the walk as written answers where the corrected walk answers `fixed`: the same,
   * except that going up from a non-negative multiple of the chunk size it never reaches row 0.
   */
  function AsWrittenAnswer(fixed: Option<int>, p: int, down: bool): Option<int> {
    if !down && p >= 0 && p % DefaultChunkSize == 0 && fixed == Some(0) then None else fixed
  }

  /** The walk as written answers as the corrected walk does, except the row 0 only the corrected walk reaches. */
  lemma WalkAsWritten(column: seq<string>, needle: string, p: int, down: bool, caseInsensitive: bool)
    requires ValidStart(p, down)
    ensures var fixed := SearchChunks(column, needle, FallbackChunkStarts(|column|, p, DefaultChunkSize, down),
                                      DefaultChunkSize, down, caseInsensitive);
      SearchChunks(column, needle, ChunkStarts(|column|, p, DefaultChunkSize, down), DefaultChunkSize, down, caseInsensitive)
      == AsWrittenAnswer(fixed, p, down)
  {
    if down {
      DownwardWalksAgree(|column|, p, DefaultChunkSize);
    } else {
      FallbackUpwardFindsLast(column, needle, p, DefaultChunkSize, caseInsensitive);
      UpwardWalkAsWritten(column, needle, p, DefaultChunkSize, caseInsensitive);
    }
  }

  /** One pass of the loop of `search_cache`: the chunk at `startOfNextChunk` is searched and a hit is shifted to a column index. */
  method SearchNextChunk(column: seq<string>, searchString: string, startOfNextChunk: int, down: bool,
                         caseInsensitive: bool) returns (r: Option<int>)
    requires ValidStart(startOfNextChunk, down)
    ensures r == SearchOneChunk(column, searchString, startOfNextChunk, DefaultChunkSize, down, caseInsensitive)
  {
    var chunk := GetNextChunk(column, startOfNextChunk, DefaultChunkSize, down);
    var chunkIdx := SearchListForStr(chunk.0, searchString, if down then 0 else |chunk.0| - 1, down, caseInsensitive);
    if chunkIdx.Some? {
      return Some(chunkIdx.value + chunk.1);
    }
    return None;
  }

  /**
   * The loop of `search_cache` over the walk of `search_chunk_yielder` (with the corrected
   * upward guard): each yielded chunk is searched from its direction-appropriate end, and
   * the first hit ends the loop.
   */
  method SearchEachChunk(column: seq<string>, searchString: string, startLocation: int, down: bool,
                         caseInsensitive: bool) returns (r: Option<int>)
    requires ValidStart(startLocation, down)
    ensures r == SearchChunks(column, searchString, FallbackChunkStarts(|column|, startLocation, DefaultChunkSize, down),
                              DefaultChunkSize, down, caseInsensitive)
  {
    ghost var answer := SearchChunks(column, searchString, FallbackChunkStarts(|column|, startLocation, DefaultChunkSize, down),
                                     DefaultChunkSize, down, caseInsensitive);
    var startOfNextChunk := startLocation;
    while HasRowsLeft(|column|, startOfNextChunk, down)
      invariant down ==> 0 <= startOfNextChunk
      invariant answer == SearchChunks(column, searchString, FallbackChunkStarts(|column|, startOfNextChunk, DefaultChunkSize, down),
                                       DefaultChunkSize, down, caseInsensitive)
      decreases if down then |column| - startOfNextChunk else startOfNextChunk + 1
    {
      FallbackWalkStep(column, searchString, startOfNextChunk, DefaultChunkSize, down, caseInsensitive);
      var hit := SearchNextChunk(column, searchString, startOfNextChunk, down, caseInsensitive);
      if hit.Some? {
        return hit;
      }
      startOfNextChunk := if down then startOfNextChunk + DefaultChunkSize else startOfNextChunk - DefaultChunkSize;
    }
    assert FallbackChunkStarts(|column|, startOfNextChunk, DefaultChunkSize, down) == [];
    return None;
  }

  /**
   * The fallback of `search_cache`: the chunk loop finds, downward, the first hit at or after
   * the start and, upward, the last hit at or before it. It answers as the walk as written
   * does, except the row 0 that only the corrected walk reaches.
   */
  method SearchChunked(column: seq<string>, searchString: string, startLocation: int, down: bool,
                       caseInsensitive: bool) returns (r: Option<int>)
    requires ValidStart(startLocation, down)
    ensures r == SearchChunks(column, searchString, FallbackChunkStarts(|column|, startLocation, DefaultChunkSize, down),
                              DefaultChunkSize, down, caseInsensitive)
    ensures down ==> r == FirstMatchFrom(column, searchString, Min(startLocation, |column|), caseInsensitive)
    ensures !down ==> r == LastMatchUpTo(column, searchString, Min(startLocation, |column| - 1), caseInsensitive)
    ensures SearchChunks(column, searchString, ChunkStarts(|column|, startLocation, DefaultChunkSize, down),
                         DefaultChunkSize, down, caseInsensitive)
         == AsWrittenAnswer(r, startLocation, down)
  {
    r := SearchEachChunk(column, searchString, startLocation, down, caseInsensitive);
    if down {
      FallbackDownwardFindsFirst(column, searchString, startLocation, DefaultChunkSize, caseInsensitive);
    } else {
      FallbackUpwardFindsLast(column, searchString, startLocation, DefaultChunkSize, caseInsensitive);
    }
    WalkAsWritten(column, searchString, startLocation, down, caseInsensitive);
  }
}
