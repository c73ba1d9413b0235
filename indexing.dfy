/**
 * The index mapper and the pagination arithmetic: how a row position on the
 * current page becomes an offset in the (filtered) item list and then an
 * index into the data, how many pages there are, and which slice a page shows.
 */
module Indexing {
  import opened Values

  /** `validateIndex(index)`: inside the filtered indices when a filter is set, inside the data otherwise. */
  function ValidateIndex(filtersSet: bool, filteredCount: int, dataCount: int, index: int): (valid: bool)
    ensures valid <==> 0 <= index < (if filtersSet then filteredCount else dataCount)
  {
    if filtersSet then UNDEFINED_INDEX < index < filteredCount
    else UNDEFINED_INDEX < index < dataCount
  }

  /** `getArrayIndex(position)`: row `position` of page `currentPage` as an offset in the item list. */
  function GetArrayIndex(currentPage: int, pageSize: int, position: int): (a: int)
    ensures pageSize >= 1 && 0 <= position < pageSize ==> a / pageSize == currentPage - 1 && a % pageSize == position
  {
    var a := (currentPage - 1) * pageSize + position;
    if pageSize >= 1 && 0 <= position < pageSize then
      DivModUnique(a, pageSize, currentPage - 1, position);
      a
    else a
  }

  /** `getUnfilteredIndex(index)`: a valid offset into the filtered indices becomes the data index stored there. */
  function GetUnfilteredIndex(filtersSet: bool, filtered: seq<int>, dataCount: int, index: int): (r: int)
    ensures filtersSet && ValidateIndex(filtersSet, |filtered|, dataCount, index) ==> r == filtered[index]
    ensures |filtered| == 0 ==> r == index
    ensures r == index || (0 <= index < |filtered| && r == filtered[index])
  {
    if ValidateIndex(filtersSet, |filtered|, dataCount, index) && |filtered| > 0 && index < |filtered|
    then filtered[index]
    else index
  }

  /** Every entry is an index of the data. */
  predicate InData(indices: seq<int>, dataCount: int) {
    forall k :: 0 <= k < |indices| ==> 0 <= indices[k] < dataCount
  }

  /** The filter state as the filter leaves it: indices only when a filter is set, all of them into the data. */
  predicate FreshFilter(filtersSet: bool, filtered: seq<int>, dataCount: int) {
    (!filtersSet ==> filtered == []) && InData(filtered, dataCount)
  }

  /** A valid index always resolves to a record of the data while the filtered indices are fresh. */
  lemma ValidIndexResolvesIntoData(filtersSet: bool, filtered: seq<int>, dataCount: int, index: int)
    requires FreshFilter(filtersSet, filtered, dataCount)
    requires ValidateIndex(filtersSet, |filtered|, dataCount, index)
    ensures 0 <= GetUnfilteredIndex(filtersSet, filtered, dataCount, index) < dataCount
  {
  }

  /** Every non-negative offset is some row of some page. */
  lemma ArrayIndexCoversItems(a: int, pageSize: int)
    requires a >= 0 && pageSize >= 1
    ensures a / pageSize + 1 >= 1 && 0 <= a % pageSize < pageSize
    ensures GetArrayIndex(a / pageSize + 1, pageSize, a % pageSize) == a
  {
  }

  /** Euclidean division has one quotient and remainder for a positive divisor. */
  lemma DivModUnique(a: int, d: int, q: int, r: int)
    requires d >= 1 && 0 <= r < d && a == q * d + r
    ensures a / d == q && a % d == r
  {
    var q', r' := a / d, a % d;
    if q' > q {
      MulMonotone(q + 1, q', d);
    } else if q' < q {
      MulMonotone(q' + 1, q, d);
    }
  }

  lemma MulMonotone(a: int, b: int, d: int)
    requires a <= b && d >= 0
    ensures a * d <= b * d
  {
    assert b * d - a * d == (b - a) * d;
  }

  /** `Array.prototype.splice`'s reading of its start argument: negative counts from the end. */
  function SpliceStart(length: int, position: int): int {
    if position < 0 then (if length + position < 0 then 0 else length + position)
    else if position > length then length
    else position
  }

  /** `s.splice(position, 1)`: the array without the element at the start position, if there is one. */
  function SpliceOne<T>(s: seq<T>, position: int): (r: seq<T>)
    ensures |r| == |s| - 1 || r == s
    ensures 0 <= position < |s| ==> |r| == |s| - 1
    ensures position < 0 && s != [] ==> |r| == |s| - 1
    ensures position >= |s| ==> r == s
  {
    var p := SpliceStart(|s|, position);
    if p < |s| then s[..p] + s[p + 1..] else s
  }

  /**
   * Splicing out an existing position removes exactly that element and keeps
   * the others in order; splicing past the end changes nothing.
   */
  lemma SpliceRemovesExactly<T>(s: seq<T>, position: int)
    ensures 0 <= position < |s| ==>
      && |SpliceOne(s, position)| == |s| - 1
      && (forall k :: 0 <= k < position ==> SpliceOne(s, position)[k] == s[k])
      && (forall k :: position <= k < |s| - 1 ==> SpliceOne(s, position)[k] == s[k + 1])
      && multiset(SpliceOne(s, position)) == multiset(s) - multiset{s[position]}
    ensures position >= |s| ==> SpliceOne(s, position) == s
  {
    if 0 <= position < |s| {
      var r := SpliceOne(s, position);
      assert r == s[..position] + s[position + 1..];
      assert s == s[..position] + [s[position]] + s[position + 1..];
      assert multiset(s) == multiset(s[..position]) + multiset{s[position]} + multiset(s[position + 1..]);
    }
  }

  /** `Math.ceil(n / d)` for a count `n` and a positive divisor `d`: the fewest blocks of `d` that hold `n`. */
  function CeilDiv(n: nat, d: int): (q: nat)
    requires d >= 1
    ensures q * d >= n
    ensures q == 0 || (q - 1) * d < n
  {
    var q := (n + d - 1) / d;
    assert n + d - 1 == q * d + (n + d - 1) % d;
    q
  }

  /**
   * `updatePagination`'s page count: one page when the page size exceeds the
   * item count, otherwise `ceil(itemCount / pageSize)`. It is the least
   * positive number of pages that holds every item.
   */
  function TotalPages(itemCount: nat, pageSize: int): (pages: int)
    requires pageSize >= 1
    ensures pages >= 1
    ensures pages * pageSize >= itemCount
    ensures pages == 1 || (pages - 1) * pageSize < itemCount
  {
    if pageSize > itemCount then 1 else CeilDiv(itemCount, pageSize)
  }

  /** A page size of at least the item count gives a single page. */
  lemma PageSizeCoversAll(itemCount: nat, pageSize: int)
    requires pageSize >= 1 && pageSize >= itemCount
    ensures TotalPages(itemCount, pageSize) == 1
  {
    var pages := TotalPages(itemCount, pageSize);
    if pages != 1 {
      MulMonotone(1, pages - 1, pageSize);
    }
  }

  function Min(a: int, b: int): int {
    if a < b then a else b
  }

  /**
   * With stale filtered indices (more of them than records, as `removeData`
   * leaves them), an end within the filtered count is still cut back to the
   * data count, below both the request and the filtered count.
   */
  lemma StaleFilterClampsToData()
    ensures ClampEnd(3, 4, 2) == 2 < Min(3, 4)
  {
  }

  /** The bounds check of `goToPage` on the end of the page slice. */
  function ClampEnd(requested: int, filteredCount: nat, dataCount: nat): (end: int)
    ensures end <= requested
    ensures 0 < filteredCount <= dataCount ==> end == Min(requested, filteredCount)
    ensures filteredCount == 0 ==> end == Min(requested, dataCount)
    ensures filteredCount > dataCount ==>
      end == (if requested > filteredCount then filteredCount else Min(requested, dataCount))
  {
    if filteredCount > 0 && requested > filteredCount then filteredCount
    else if requested > dataCount then dataCount
    else requested
  }

  /**
   * Pages 1 to `TotalPages` each show between one and `pageSize` items of a
   * non-empty list; a page after the last shows none.
   */
  lemma PageRowCount(itemCount: nat, pageSize: int, page: int)
    requires pageSize >= 1 && itemCount >= 1 && page >= 1
    ensures var start, end := (page - 1) * pageSize, Min(page * pageSize, itemCount);
      && (page <= TotalPages(itemCount, pageSize) ==> 1 <= end - start <= pageSize)
      && (page > TotalPages(itemCount, pageSize) ==> end - start <= 0)
  {
    var pages := TotalPages(itemCount, pageSize);
    var start := (page - 1) * pageSize;
    assert page * pageSize == start + pageSize;
    if page <= pages {
      MulMonotone(page - 1, pages - 1, pageSize);
    } else {
      MulMonotone(pages, page - 1, pageSize);
    }
  }

  /** `updatePagination`'s `itemCount`: the filtered indices if there are any, otherwise the data. */
  function ItemCount(filtered: seq<int>, dataCount: nat): nat {
    if |filtered| > 0 then |filtered| else dataCount
  }

  /** The data index shown at item offset `i`: resolved through the filtered indices when there are any. */
  function VisibleIndex(filtersSet: bool, filtered: seq<int>, dataCount: int, i: int): int {
    if |filtered| > 0 then GetUnfilteredIndex(filtersSet, filtered, dataCount, i) else i
  }

  /** The data indices `refreshTableBody` visits for the offsets `lo` up to but excluding `hi`. */
  function PageSlice(filtersSet: bool, filtered: seq<int>, dataCount: int, lo: int, hi: int): (s: seq<int>)
    ensures |s| == if hi > lo then hi - lo else 0
    ensures forall k :: 0 <= k < |s| ==> s[k] == VisibleIndex(filtersSet, filtered, dataCount, lo + k)
    decreases hi - lo
  {
    if hi <= lo then []
    else PageSlice(filtersSet, filtered, dataCount, lo, hi - 1) + [VisibleIndex(filtersSet, filtered, dataCount, hi - 1)]
  }

  /** The offsets up to `i` are a prefix of the offsets up to `hi`. */
  lemma PageSlicePrefix(filtersSet: bool, filtered: seq<int>, dataCount: int, lo: int, i: int, hi: int)
    requires lo <= i <= hi
    ensures PageSlice(filtersSet, filtered, dataCount, lo, i) == PageSlice(filtersSet, filtered, dataCount, lo, hi)[..i - lo]
  {
  }

  /** `appendRow(_data[index])` completes: with no metadata nothing is read, otherwise the record must exist. */
  predicate Renderable(index: int, metadataCount: int, dataCount: int) {
    metadataCount == 0 || 0 <= index < dataCount
  }

  /**
   * How many rows of `slice` are drawn before `appendRow` throws on a missing
   * record: every row before that count is renderable, the row at it is not.
   */
  function RenderedCount(slice: seq<int>, metadataCount: int, dataCount: int): (c: nat)
    ensures c <= |slice|
    ensures forall k :: 0 <= k < c ==> Renderable(slice[k], metadataCount, dataCount)
    ensures c < |slice| ==> !Renderable(slice[c], metadataCount, dataCount)
  {
    if slice == [] || !Renderable(slice[0], metadataCount, dataCount) then 0
    else 1 + RenderedCount(slice[1..], metadataCount, dataCount)
  }

  /** The drawn count is the first row that cannot be drawn, or the whole slice. */
  lemma RenderedCountAt(slice: seq<int>, metadataCount: int, dataCount: int, j: int)
    requires 0 <= j <= |slice|
    requires forall k :: 0 <= k < j ==> Renderable(slice[k], metadataCount, dataCount)
    requires j == |slice| || !Renderable(slice[j], metadataCount, dataCount)
    ensures RenderedCount(slice, metadataCount, dataCount) == j
  {
  }

  /**
   * The two drawing loops of `refreshTableBody`: the rows of the offsets
   * `[lo, hi)`, resolved through the filtered indices when there are any, up
   * to the first record `appendRow` cannot draw; `complete` says that none was missing.
   */
  method DrawRows(filtersSet: bool, filtered: seq<int>, dataCount: int, metadataCount: int, lo: int, hi: int)
    returns (body: seq<int>, complete: bool)
    ensures var slice := PageSlice(filtersSet, filtered, dataCount, lo, hi);
      body == slice[..RenderedCount(slice, metadataCount, dataCount)]
    ensures complete <==> |body| == |PageSlice(filtersSet, filtered, dataCount, lo, hi)|
  {
    body := [];
    complete := true;
    var i := lo;
    if |filtered| > 0 {
      while i < hi
        invariant lo <= i && (i <= hi || i == lo)
        invariant body == PageSlice(filtersSet, filtered, dataCount, lo, i)
        invariant forall k :: 0 <= k < |body| ==> Renderable(body[k], metadataCount, dataCount)
        invariant complete
      {
        var index := GetUnfilteredIndex(filtersSet, filtered, dataCount, i);
        if !Renderable(index, metadataCount, dataCount) {
          complete := false;
          break;
        }
        body := body + [index];
        i := i + 1;
      }
    } else {
      while i < hi
        invariant lo <= i && (i <= hi || i == lo)
        invariant body == PageSlice(filtersSet, filtered, dataCount, lo, i)
        invariant forall k :: 0 <= k < |body| ==> Renderable(body[k], metadataCount, dataCount)
        invariant complete
      {
        if !Renderable(i, metadataCount, dataCount) {
          complete := false;
          break;
        }
        body := body + [i];
        i := i + 1;
      }
    }
    DrawingStopped(filtersSet, filtered, dataCount, metadataCount, lo, i, hi, body, complete);
  }

  /**
   * Where the drawing loops stop: after the whole slice, or at the first row
   * that cannot be drawn; either way the rows drawn are the renderable prefix.
   */
  lemma DrawingStopped(filtersSet: bool, filtered: seq<int>, dataCount: int, metadataCount: int,
                       lo: int, i: int, hi: int, body: seq<int>, complete: bool)
    requires lo <= i && (i <= hi || i == lo)
    requires body == PageSlice(filtersSet, filtered, dataCount, lo, i)
    requires forall k :: 0 <= k < |body| ==> Renderable(body[k], metadataCount, dataCount)
    requires complete ==> i >= hi
    requires !complete ==> i < hi && !Renderable(VisibleIndex(filtersSet, filtered, dataCount, i), metadataCount, dataCount)
    ensures var slice := PageSlice(filtersSet, filtered, dataCount, lo, hi);
      body == slice[..RenderedCount(slice, metadataCount, dataCount)]
    ensures complete <==> |body| == |PageSlice(filtersSet, filtered, dataCount, lo, hi)|
  {
    var slice := PageSlice(filtersSet, filtered, dataCount, lo, hi);
    var drawn := i - lo;
    if complete {
      assert drawn == |slice|;
    } else {
      PageSlicePrefix(filtersSet, filtered, dataCount, lo, i, hi);
      assert !Renderable(slice[drawn], metadataCount, dataCount);
    }
    RenderedCountAt(slice, metadataCount, dataCount, drawn);
  }

  /**
   * With the filter state fresh, every page from the first to the last shows
   * between one and `pageSize` rows, each of them an existing record, so the
   * whole slice is drawn.
   */
  lemma PageShowsItems(filtersSet: bool, filtered: seq<int>, dataCount: nat, metadataCount: int, pageSize: int, page: int)
    requires FreshFilter(filtersSet, filtered, dataCount) && |filtered| <= dataCount
    requires pageSize >= 1 && ItemCount(filtered, dataCount) >= 1
    requires 1 <= page <= TotalPages(ItemCount(filtered, dataCount), pageSize)
    ensures var slice := PageSlice(filtersSet, filtered, dataCount, (page - 1) * pageSize, ClampEnd(page * pageSize, |filtered|, dataCount));
      && 1 <= |slice| <= pageSize
      && RenderedCount(slice, metadataCount, dataCount) == |slice|
      && forall k :: 0 <= k < |slice| ==> 0 <= slice[k] < dataCount
  {
    var itemCount := ItemCount(filtered, dataCount);
    var lo, hi := (page - 1) * pageSize, ClampEnd(page * pageSize, |filtered|, dataCount);
    PageRowCount(itemCount, pageSize, page);
    MulMonotone(0, page - 1, pageSize);
    assert hi == Min(page * pageSize, itemCount);
    var slice := PageSlice(filtersSet, filtered, dataCount, lo, hi);
    forall k | 0 <= k < |slice| ensures 0 <= slice[k] < dataCount {
      assert 0 <= lo + k < itemCount;
    }
  }

  /**
   * Row `p` drawn on page `page` is the record `valueAt(p)` finds: the
   * page-relative index passes `validateIndex` and resolves to the drawn data
   * index, unless a filter is set that matched nothing, in which case
   * `validateIndex` rejects every row.
   */
  lemma PageRowLookup(filtersSet: bool, filtered: seq<int>, dataCount: nat, pageSize: int, page: int, p: int)
    requires !filtersSet ==> filtered == []
    requires pageSize >= 1 && page >= 1
    requires 0 <= p < |PageSlice(filtersSet, filtered, dataCount, (page - 1) * pageSize, ClampEnd(page * pageSize, |filtered|, dataCount))|
    ensures filtersSet && filtered == [] ==> !ValidateIndex(filtersSet, |filtered|, dataCount, p)
    ensures !(filtersSet && filtered == []) ==>
      && ValidateIndex(filtersSet, |filtered|, dataCount, p)
      && GetUnfilteredIndex(filtersSet, filtered, dataCount, GetArrayIndex(page, pageSize, p))
         == PageSlice(filtersSet, filtered, dataCount, (page - 1) * pageSize, ClampEnd(page * pageSize, |filtered|, dataCount))[p]
  {
    var lo, hi := (page - 1) * pageSize, ClampEnd(page * pageSize, |filtered|, dataCount);
    var slice := PageSlice(filtersSet, filtered, dataCount, lo, hi);
    MulMonotone(0, page - 1, pageSize);
    assert 0 <= lo && lo + p < hi;
    ArrayIndexIsOffset(page, pageSize, p);
    var a := GetArrayIndex(page, pageSize, p);
    assert a == lo + p;
    assert slice[p] == VisibleIndex(filtersSet, filtered, dataCount, a);
  }

  /**
   * `getArrayIndex` unfolded to its offset. Stated apart so that the proof of
   * `PageRowLookup` sees the linear offset without the quotient and remainder
   * facts of `GetArrayIndex`'s contract, which make the solver search longer.
   */
  lemma ArrayIndexIsOffset(page: int, pageSize: int, p: int)
    ensures GetArrayIndex(page, pageSize, p) == (page - 1) * pageSize + p
  {
  }

  /**
   * On the last page, a row position past the rows drawn still passes
   * `validateIndex` when it is below the filtered count, and resolves to the
   * unfiltered data index `getArrayIndex(p)`, which need not be a filtered record.
   */
  lemma PastLastRowEscapesFilter(filtered: seq<int>, dataCount: nat, pageSize: int, page: int, p: int)
    requires 0 <= p < |filtered| <= GetArrayIndex(page, pageSize, p)
    ensures ValidateIndex(true, |filtered|, dataCount, p)
    ensures GetUnfilteredIndex(true, filtered, dataCount, GetArrayIndex(page, pageSize, p)) == GetArrayIndex(page, pageSize, p)
  {
  }

  /** The selection after a redraw: kept if it was made on the page now shown, cleared otherwise. */
  function Reconcile(selectedIndex: int, selectedPage: int, currentPage: int): int {
    if selectedPage == currentPage && selectedIndex != UNDEFINED_INDEX then selectedIndex else UNDEFINED_INDEX
  }
}
