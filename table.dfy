/**
 * The table created by `Sortable.create`: the closure variables become the
 * fields of `SortableTable`, its inner functions and the returned API become
 * methods that update them. What the table draws is kept as `rows`, the data
 * indices of the body rows in order.
 */
module Table {
  import opened Wrappers
  import opened Values
  import opened Sorting
  import opened Compare
  import opened Filtering
  import opened Indexing
  import opened Records

  /** Every variable of the table at one moment, for saying what an operation changes. */
  datatype View = View(
    data: seq<Record>,
    filters: Option<map<string, Value>>,
    filtered: seq<int>,
    pageSize: int,
    currentPage: int,
    totalPages: int,
    pageStart: int,
    pageEnd: int,
    paginationStart: int,
    paginationEnd: int,
    sortField: Option<string>,
    sortOrder: int,
    selectedRowIndex: int,
    selectedRowPage: int,
    rows: seq<int>)

  class SortableTable {
    /** `_data`: the records. */
    var data: seq<Record>
    /** `_metadata`: the columns. */
    const metadata: seq<Column>
    /** `_filters`: the filter object in force, `None` for `null`. */
    var filters: Option<map<string, Value>>
    /** `_filtered`: indices of `data` that passed the filter. */
    var filtered: seq<int>
    /** `_pageSize`, `_currentPage`, `_totalPages`. */
    var pageSize: int
    var currentPage: int
    var totalPages: int
    /** `_start` and `_end`: the item offsets the current page shows. */
    var pageStart: int
    var pageEnd: int
    /** `_paginationStart` and `_paginationEnd`: the window of page numbers. */
    var paginationStart: int
    var paginationEnd: int
    /** `_paginationViewSize`: how many page numbers the window holds. */
    const paginationViewSize: int := 10
    /** `_sortField` (`None` for `null`) and `_sortOrder`. */
    var sortField: Option<string>
    var sortOrder: int
    /** `_currentSelecteRowIndex` and `_currentSelectedRowPage`. */
    var selectedRowIndex: int
    var selectedRowPage: int
    /** The body rows drawn, as the data indices they show. */
    var rows: seq<int>

    /** What every operation keeps. */
    ghost predicate Valid()
      reads this
    {
      && pageSize >= 1
      && (sortOrder == ASCENDING_ORDER || sortOrder == DESCENDING_ORDER)
      && (filters.None? ==> filtered == [])
      && selectedRowIndex >= UNDEFINED_INDEX
    }

    function Snapshot(): View
      reads this
    {
      View(data, filters, filtered, pageSize, currentPage, totalPages, pageStart, pageEnd,
           paginationStart, paginationEnd, sortField, sortOrder, selectedRowIndex, selectedRowPage, rows)
    }

    /** The data indices of the offsets `[pageStart, pageEnd)`. */
    function Slice(): seq<int>
      reads this
    {
      PageSlice(filters.Some?, filtered, |data|, pageStart, pageEnd)
    }

    /**
     * The body as `refreshTableBody` leaves it, starting from the selection
     * `previousSelection`: the rows of the slice up to the first record that
     * cannot be drawn, and, only if the whole slice was drawn, the selection
     * kept when it was made on the current page and cleared otherwise.
     */
    ghost predicate BodyDrawn(previousSelection: int)
      reads this
    {
      var slice := Slice();
      var drawn := RenderedCount(slice, |metadata|, |data|);
      && rows == slice[..drawn]
      && selectedRowIndex == (if drawn == |slice| then Reconcile(previousSelection, selectedRowPage, currentPage) else previousSelection)
    }

    /**
     * The body shows page `currentPage`: the offsets are those of that page,
     * and the rows are the part of their slice that could be drawn.
     */
    ghost predicate PageDrawn()
      reads this
    {
      && currentPage >= 1
      && pageStart == (currentPage - 1) * pageSize
      && pageEnd == ClampEnd(currentPage * pageSize, |filtered|, |data|)
      && rows == Slice()[..RenderedCount(Slice(), |metadata|, |data|)]
    }

    /** `Sortable.create(data, metadata, ...)`. */
    constructor (records: seq<Record>, columns: seq<Column>)
      ensures Valid()
      ensures metadata == columns
      ensures Snapshot() == View(records, None, [], DEFAULT_PAGE_SIZE, 1, CeilDiv(|records|, DEFAULT_PAGE_SIZE), 0, DEFAULT_PAGE_SIZE,
                                 1, CeilDiv(|records|, DEFAULT_PAGE_SIZE), None, ASCENDING_ORDER, UNDEFINED_INDEX, UNDEFINED_INDEX, [])
    {
      data := records;
      metadata := columns;
      filters := None;
      filtered := [];
      pageSize := DEFAULT_PAGE_SIZE;
      currentPage := 1;
      totalPages := CeilDiv(|records|, DEFAULT_PAGE_SIZE);
      pageStart := 0;
      pageEnd := 0 + DEFAULT_PAGE_SIZE;
      paginationStart := 1;
      paginationEnd := totalPages;
      sortField := None;
      sortOrder := ASCENDING_ORDER;
      selectedRowIndex := UNDEFINED_INDEX;
      selectedRowPage := UNDEFINED_INDEX;
      rows := [];
    }

    /**
     * `refreshTableBody`: redraws the rows of `[pageStart, pageEnd)`, through the
     * filtered indices when there are any, then reconciles the selection. A
     * missing record throws in `appendRow` and ends the redraw there.
     */
    method RefreshTableBody()
      requires Valid()
      modifies this
      ensures Valid()
      ensures Snapshot() == old(Snapshot()).(rows := rows, selectedRowIndex := selectedRowIndex)
      ensures BodyDrawn(old(selectedRowIndex))
      ensures |rows| == |Slice()| && selectedRowIndex != UNDEFINED_INDEX ==>
        selectedRowPage == currentPage && selectedRowIndex == old(selectedRowIndex)
      ensures |rows| == |Slice()| && selectedRowPage != currentPage ==> selectedRowIndex == UNDEFINED_INDEX
      ensures |rows| < |Slice()| ==> selectedRowIndex == old(selectedRowIndex)
    {
      var body, complete := DrawRows(filters.Some?, filtered, |data|, |metadata|, pageStart, pageEnd);
      rows := body;
      if !complete {
        // `appendRow` threw on a missing record
        return;
      }
      if selectedRowPage == currentPage && selectedRowIndex != UNDEFINED_INDEX {
        // the selected row is highlighted again
      } else {
        selectedRowIndex := UNDEFINED_INDEX;
      }
    }

    /** `goToPage(page)`: shows the offsets of page `page`, bounded by the item count. */
    method GoToPage(page: int)
      requires Valid()
      modifies this
      ensures Valid()
      ensures Snapshot() == old(Snapshot()).(currentPage := page, pageStart := (page - 1) * pageSize,
        pageEnd := ClampEnd(page * pageSize, |filtered|, |data|), rows := rows, selectedRowIndex := selectedRowIndex)
      ensures BodyDrawn(old(selectedRowIndex))
      ensures |rows| == |Slice()| && page != selectedRowPage ==> selectedRowIndex == UNDEFINED_INDEX
      ensures |rows| == |Slice()| && selectedRowIndex != UNDEFINED_INDEX ==>
        selectedRowPage == page && selectedRowIndex == old(selectedRowIndex)
      ensures page >= 1 ==> PageDrawn()
    {
      currentPage := page;
      pageEnd := page * pageSize;
      pageStart := pageEnd - pageSize;
      if |filtered| > 0 && pageEnd > |filtered| {
        pageEnd := |filtered|;
      } else if pageEnd > |data| {
        pageEnd := |data|;
      }
      RefreshTableBody();
    }

    /** `updatePagination`: recounts the pages of the items and ends the page-number window at the last one. */
    method UpdatePagination()
      requires Valid()
      modifies this
      ensures Valid()
      ensures Snapshot() == old(Snapshot()).(totalPages := totalPages, paginationEnd := totalPages)
      ensures totalPages == TotalPages(ItemCount(filtered, |data|), pageSize)
      ensures totalPages >= 1 && totalPages * pageSize >= ItemCount(filtered, |data|)
    {
      var itemCount := ItemCount(filtered, |data|);
      totalPages := TotalPages(itemCount, pageSize);
      paginationEnd := totalPages;
    }

    /**
     * `setPageSize(size)`: takes the new size, clears the selection, recounts
     * the pages and goes back to page 1 with the window starting at 1.
     */
    method SetPageSize(size: int)
      requires Valid() && size >= 1
      modifies this
      ensures Valid()
      ensures Snapshot() == old(Snapshot()).(pageSize := size, currentPage := 1,
        totalPages := TotalPages(ItemCount(filtered, |data|), size), pageStart := 0, pageEnd := ClampEnd(size, |filtered|, |data|),
        paginationStart := 1, paginationEnd := TotalPages(ItemCount(filtered, |data|), size),
        selectedRowIndex := UNDEFINED_INDEX, selectedRowPage := UNDEFINED_INDEX, rows := rows)
      ensures BodyDrawn(UNDEFINED_INDEX)
    {
      pageSize := size;
      currentPage := UNDEFINED_INDEX;
      selectedRowIndex := UNDEFINED_INDEX;
      selectedRowPage := UNDEFINED_INDEX;
      UpdatePagination();
      ghost var counted := Snapshot();
      assert counted == old(Snapshot()).(pageSize := size, currentPage := UNDEFINED_INDEX,
        totalPages := TotalPages(ItemCount(filtered, |data|), size), paginationEnd := TotalPages(ItemCount(filtered, |data|), size),
        selectedRowIndex := UNDEFINED_INDEX, selectedRowPage := UNDEFINED_INDEX);
      paginationStart := 1;
      ghost var windowed := Snapshot();
      GoToPage(1);
      assert Snapshot() == windowed.(currentPage := 1, pageStart := 0,
        pageEnd := ClampEnd(size, |filtered|, |data|), rows := rows, selectedRowIndex := selectedRowIndex);
    }

    /**
     * `shiftPagination(size, direction)`: moves the page-number window by
     * `size * direction`, snapping it to `[1, paginationViewSize]` when its
     * start falls below 1 and to `[totalPages - paginationViewSize, totalPages]`
     * when its end passes the last page.
     */
    method ShiftPagination(size: int, direction: int)
      requires Valid()
      modifies this
      ensures Valid()
      ensures Snapshot() == old(Snapshot()).(paginationStart := paginationStart, paginationEnd := paginationEnd)
      ensures size == 0 ==> paginationStart == old(paginationStart) && paginationEnd == old(paginationEnd)
      ensures size != 0 && old(paginationStart) + size * direction < 1 ==>
        paginationStart == 1 && paginationEnd == paginationViewSize
      ensures size != 0 && old(paginationStart) + size * direction >= 1 && old(paginationEnd) + size * direction > totalPages ==>
        paginationEnd == totalPages && paginationStart == totalPages - paginationViewSize
      ensures size != 0 && old(paginationStart) + size * direction >= 1 && old(paginationEnd) + size * direction <= totalPages ==>
        paginationStart == old(paginationStart) + size * direction && paginationEnd == old(paginationEnd) + size * direction
      ensures size != 0 ==> paginationStart == 1 || paginationEnd <= totalPages
    {
      if size != 0 {
        var pageShift := size * direction;
        paginationEnd := paginationEnd + pageShift;
        paginationStart := paginationStart + pageShift;
        if paginationStart < 1 {
          paginationStart := 1;
          paginationEnd := paginationViewSize;
        } else if paginationEnd > totalPages {
          paginationEnd := totalPages;
          paginationStart := paginationEnd - paginationViewSize;
        }
      }
    }

    /** The "first" button, drawn when the current page is not the first. */
    method FirstPage()
      requires Valid() && currentPage != 1
      modifies this
      ensures Valid()
      ensures Snapshot() == old(Snapshot()).(currentPage := 1, pageStart := 0,
        pageEnd := ClampEnd(pageSize, |filtered|, |data|), rows := rows, selectedRowIndex := selectedRowIndex)
      ensures BodyDrawn(old(selectedRowIndex))
    {
      GoToPage(1);
    }

    /** The "previous" button, drawn when the current page is not the first: it keeps a page that was in range in range. */
    method PreviousPage()
      requires Valid() && currentPage != 1
      modifies this
      ensures Valid()
      ensures Snapshot() == old(Snapshot()).(currentPage := old(currentPage) - 1, pageStart := (old(currentPage) - 2) * pageSize,
        pageEnd := ClampEnd((old(currentPage) - 1) * pageSize, |filtered|, |data|), rows := rows, selectedRowIndex := selectedRowIndex)
      ensures 1 <= old(currentPage) <= totalPages ==> 1 <= currentPage < totalPages
      ensures BodyDrawn(old(selectedRowIndex))
    {
      GoToPage(currentPage - 1);
    }

    /** The "next" button, drawn when the current page is not the last: it keeps a page that was in range in range. */
    method NextPage()
      requires Valid() && currentPage != totalPages
      modifies this
      ensures Valid()
      ensures Snapshot() == old(Snapshot()).(currentPage := old(currentPage) + 1, pageStart := old(currentPage) * pageSize,
        pageEnd := ClampEnd((old(currentPage) + 1) * pageSize, |filtered|, |data|), rows := rows, selectedRowIndex := selectedRowIndex)
      ensures 1 <= old(currentPage) <= totalPages ==> 1 < currentPage <= totalPages
      ensures BodyDrawn(old(selectedRowIndex))
    {
      GoToPage(currentPage + 1);
    }

    /** The "last" button, drawn when the current page is not the last. */
    method LastPage()
      requires Valid() && currentPage != totalPages
      modifies this
      ensures Valid()
      ensures Snapshot() == old(Snapshot()).(currentPage := totalPages, pageStart := (totalPages - 1) * pageSize,
        pageEnd := ClampEnd(totalPages * pageSize, |filtered|, |data|), rows := rows, selectedRowIndex := selectedRowIndex)
      ensures BodyDrawn(old(selectedRowIndex))
    {
      GoToPage(totalPages);
    }

    /** A page-number button: goes to that page unless it is the current one. */
    method PageClick(page: int)
      requires Valid()
      modifies this
      ensures Valid()
      ensures page == old(currentPage) ==> Snapshot() == old(Snapshot())
      ensures page != old(currentPage) ==>
        && Snapshot() == old(Snapshot()).(currentPage := page, pageStart := (page - 1) * pageSize,
             pageEnd := ClampEnd(page * pageSize, |filtered|, |data|), rows := rows, selectedRowIndex := selectedRowIndex)
        && BodyDrawn(old(selectedRowIndex))
    {
      if page != currentPage {
        GoToPage(page);
      }
    }

    /**
     * A click on body row `position`: clicking the selected row clears the
     * selection, clicking another row selects it on the current page.
     */
    method SelectRow(position: int)
      requires Valid() && 0 <= position < |rows|
      modifies this
      ensures Valid()
      ensures old(selectedRowIndex) == position ==>
        Snapshot() == old(Snapshot()).(selectedRowIndex := UNDEFINED_INDEX, selectedRowPage := UNDEFINED_INDEX)
      ensures old(selectedRowIndex) != position ==>
        Snapshot() == old(Snapshot()).(selectedRowIndex := position, selectedRowPage := currentPage)
      ensures old(selectedRowIndex) != position && PageDrawn() && |metadata| > 0 && !(filters.Some? && filtered == []) ==>
        SelectedRowValue() == Some(data[rows[position]])
    {
      if position == selectedRowIndex {
        selectedRowIndex := UNDEFINED_INDEX;
        selectedRowPage := UNDEFINED_INDEX;
      } else {
        selectedRowIndex := position;
        selectedRowPage := currentPage;
        if PageDrawn() {
          SelectedRowIsDrawnRow();
        }
      }
    }

    /**
     * The filtered branch of `sortByField`: sorts the filtered indices by the
     * records they point at, and throws (`sorted` is false, nothing changes)
     * when one of two or more indices has no record.
     */
    method SortFilteredIndices(column: Column, order: int) returns (sorted: bool)
      requires Valid() && (order == ASCENDING_ORDER || order == DESCENDING_ORDER)
      modifies this
      ensures Valid()
      ensures Snapshot() == old(Snapshot()).(filtered := filtered)
      ensures sorted <==> |old(filtered)| < 2 || InData(old(filtered), |data|)
      ensures !sorted || |filtered| < 2 ==> filtered == old(filtered)
      ensures sorted && |filtered| >= 2 ==>
        && multiset(filtered) == multiset(old(filtered))
        && SortedBy(filtered, FilteredSortKey(data, column.field, column.typ, order))
        && InData(filtered, |data|)
        && forall i, j :: 0 <= i < j < |filtered| ==>
             SortResult(CompareFilteredValue(data, column.field, column.typ, order, filtered[i], filtered[j])) <= 0
    {
      sorted := true;
      if |filtered| >= 2 {
        if !InData(filtered, |data|) {
          // `_data[first][field]` on an index without a record: TypeError
          return false;
        }
        // with fewer than two indices the comparator is never called
        filtered := SortIndices(data, filtered, column.field, column.typ, order);
      }
    }

    /**
     * The unfiltered branch of `sortByField`: sorts the data and points the
     * selection at the record it pointed at before the sort.
     */
    method SortData(column: Column, order: int)
      requires Valid() && (order == ASCENDING_ORDER || order == DESCENDING_ORDER)
      modifies this
      ensures Valid()
      ensures Snapshot() == old(Snapshot()).(data := data, selectedRowIndex := selectedRowIndex)
      ensures multiset(data) == multiset(old(data))
      ensures SortedBy(data, SortKey(column.field, column.typ, order))
      ensures forall i, j :: 0 <= i < j < |data| ==> SortResult(CompareValue(column.field, column.typ, order, data[i], data[j])) <= 0
      ensures 0 <= old(selectedRowIndex) < |old(data)| ==>
        && 0 <= selectedRowIndex < |data| && data[selectedRowIndex] == old(data)[old(selectedRowIndex)]
        && old(data)[old(selectedRowIndex)] !in data[..selectedRowIndex]
      ensures !(0 <= old(selectedRowIndex) < |old(data)|) ==> selectedRowIndex == old(selectedRowIndex)
      ensures selectedRowIndex == Repointed(old(data), old(selectedRowIndex), data)
    {
      var selectedItem: Option<Record> := None;
      if selectedRowIndex != UNDEFINED_INDEX {
        selectedItem := if 0 <= selectedRowIndex < |data| then Some(data[selectedRowIndex]) else None;
      }
      var before := data;
      data := SortRecords(data, column.field, column.typ, order);
      if selectedItem.Some? {
        assert selectedItem.value in multiset(before);
        selectedRowIndex := Find(data, selectedItem.value);
      }
    }

    /** `sortByField(column, order)`: sorts the filtered indices when a filter is set, the data otherwise. */
    method SortByField(column: Column, order: int) returns (sorted: bool)
      requires Valid() && (order == ASCENDING_ORDER || order == DESCENDING_ORDER)
      modifies this
      ensures Valid()
      ensures old(filters).Some? ==>
        && Snapshot() == old(Snapshot()).(filtered := filtered)
        && (sorted <==> |old(filtered)| < 2 || InData(old(filtered), |data|))
        && (!sorted || |filtered| < 2 ==> filtered == old(filtered))
        && (sorted && |filtered| >= 2 ==>
             && multiset(filtered) == multiset(old(filtered))
             && SortedBy(filtered, FilteredSortKey(data, column.field, column.typ, order))
             && InData(filtered, |data|)
             && forall i, j :: 0 <= i < j < |filtered| ==>
                  SortResult(CompareFilteredValue(data, column.field, column.typ, order, filtered[i], filtered[j])) <= 0)
      ensures old(filters).None? ==>
        && sorted
        && Snapshot() == old(Snapshot()).(data := data, selectedRowIndex := selectedRowIndex)
        && multiset(data) == multiset(old(data))
        && SortedBy(data, SortKey(column.field, column.typ, order))
        && (forall i, j :: 0 <= i < j < |data| ==> SortResult(CompareValue(column.field, column.typ, order, data[i], data[j])) <= 0)
        && selectedRowIndex == Repointed(old(data), old(selectedRowIndex), data)
    {
      if filters.Some? {
        sorted := SortFilteredIndices(column, order);
      } else {
        SortData(column, order);
        sorted := true;
      }
    }

    /**
     * A click on header `column`: the same sort field flips the order, another
     * one sorts ascending on it. After sorting, a filtered table goes back to
     * page 1 and an unfiltered one is redrawn.
     */
    method HeaderClick(column: int)
      requires Valid() && 0 <= column < |metadata|
      modifies this
      ensures Valid()
      ensures sortField == Some(metadata[column].field)
      ensures sortOrder == if old(sortField) == Some(metadata[column].field) then -old(sortOrder) else ASCENDING_ORDER
      ensures old(filters).None? ==>
        && Snapshot() == old(Snapshot()).(data := data, sortField := sortField, sortOrder := sortOrder,
             rows := rows, selectedRowIndex := selectedRowIndex)
        && multiset(data) == multiset(old(data))
        && SortedBy(data, SortKey(metadata[column].field, metadata[column].typ, sortOrder))
        && BodyDrawn(Repointed(old(data), old(selectedRowIndex), data))
      ensures old(filters).Some? && (|old(filtered)| < 2 || InData(old(filtered), |old(data)|)) ==>
        && Snapshot() == old(Snapshot()).(sortField := sortField, sortOrder := sortOrder, filtered := filtered,
             currentPage := 1, totalPages := TotalPages(ItemCount(filtered, |data|), pageSize),
             pageStart := 0, pageEnd := ClampEnd(pageSize, |filtered|, |data|),
             paginationStart := 1, paginationEnd := TotalPages(ItemCount(filtered, |data|), pageSize),
             selectedRowIndex := UNDEFINED_INDEX, selectedRowPage := UNDEFINED_INDEX, rows := rows)
        && multiset(filtered) == multiset(old(filtered))
        && SortedBy(filtered, FilteredSortKey(data, metadata[column].field, metadata[column].typ, sortOrder))
        && BodyDrawn(UNDEFINED_INDEX)
      ensures old(filters).Some? && !(|old(filtered)| < 2 || InData(old(filtered), |old(data)|)) ==>
        Snapshot() == old(Snapshot()).(sortField := sortField, sortOrder := sortOrder)
    {
      var entry := metadata[column];
      if Some(entry.field) == sortField {
        sortOrder := sortOrder * DESCENDING_ORDER;
      } else {
        sortOrder := ASCENDING_ORDER;
        sortField := Some(entry.field);
      }
      var sorted := SortByField(entry, sortOrder);
      if !sorted {
        return;
      }
      if filters.Some? {
        SetPageSize(pageSize);
      } else {
        RefreshTableBody();
      }
    }

    /** `resetFilters`: no filter object and no filtered indices. */
    method ResetFilters()
      requires Valid()
      modifies this
      ensures Valid()
      ensures Snapshot() == old(Snapshot()).(filters := None, filtered := [])
    {
      filtered := [];
      filters := None;
    }

    /**
     * `filter(f)`: keeps `f` only if it names a metadata field, and then
     * collects, in increasing order, the indices of the records that pass
     * every named field. A string test on a value that is not a string throws
     * and leaves the indices collected so far (`ok` is false).
     */
    method Filter(f: Option<map<string, Value>>) returns (ok: bool)
      requires Valid()
      modifies this
      ensures Valid()
      ensures Snapshot() == old(Snapshot()).(filters := filters, filtered := filtered)
      ensures f.None? || ActiveFields(metadata, f.value) == [] ==> ok && filters.None? && filtered == []
      ensures f.Some? && ActiveFields(metadata, f.value) != [] ==>
        var fields := ActiveFields(metadata, f.value);
        && filters == f
        && (ok ==> NoThrowBefore(fields, f.value, data, |data|) && filtered == Matching(fields, f.value, data, |data|))
        && (!ok ==> exists t :: ThrowsFirstAt(fields, f.value, data, t) && filtered == Matching(fields, f.value, data, t))
    {
      ResetFilters();
      ok := true;
      if f.Some? {
        var fields := CollectFields(metadata, f.value);
        if |fields| > 0 {
          filters := f;
          var matched;
          matched, ok := FilterIndices(fields, f.value, data);
          filtered := matched;
        }
      }
    }

    /** `filterData(f)`: filters, and goes back to page 1 when some record passed. */
    method FilterData(f: Option<map<string, Value>>) returns (ok: bool)
      requires Valid()
      modifies this
      ensures Valid()
      ensures f.None? || ActiveFields(metadata, f.value) == [] ==> ok && filters.None? && filtered == []
      ensures f.Some? && ActiveFields(metadata, f.value) != [] ==>
        var fields := ActiveFields(metadata, f.value);
        && filters == f
        && (ok ==> NoThrowBefore(fields, f.value, data, |data|) && filtered == Matching(fields, f.value, data, |data|))
        && (!ok ==> exists t :: ThrowsFirstAt(fields, f.value, data, t) && filtered == Matching(fields, f.value, data, t))
      ensures ok && filtered != [] ==>
        && Snapshot() == old(Snapshot()).(filters := filters, filtered := filtered, currentPage := 1,
             totalPages := TotalPages(|filtered|, pageSize), pageStart := 0, pageEnd := ClampEnd(pageSize, |filtered|, |data|),
             paginationStart := 1, paginationEnd := TotalPages(|filtered|, pageSize),
             selectedRowIndex := UNDEFINED_INDEX, selectedRowPage := UNDEFINED_INDEX, rows := rows)
        && BodyDrawn(UNDEFINED_INDEX)
      ensures !(ok && filtered != []) ==> Snapshot() == old(Snapshot()).(filters := filters, filtered := filtered)
    {
      ok := Filter(f);
      if ok && |filtered| > 0 {
        SetPageSize(pageSize);
      }
    }

    /** `clearFilters`: drops the filter and goes back to page 1 of all the data. */
    method ClearFilters()
      requires Valid()
      modifies this
      ensures Valid()
      ensures Snapshot() == old(Snapshot()).(filters := None, filtered := [], currentPage := 1,
        totalPages := TotalPages(|data|, pageSize), pageStart := 0, pageEnd := ClampEnd(pageSize, 0, |data|),
        paginationStart := 1, paginationEnd := TotalPages(|data|, pageSize),
        selectedRowIndex := UNDEFINED_INDEX, selectedRowPage := UNDEFINED_INDEX, rows := rows)
      ensures BodyDrawn(UNDEFINED_INDEX)
    {
      ResetFilters();
      SetPageSize(pageSize);
    }

    /**
     * `appendData(record)`: adds the record after the last one, drops the
     * filter, recounts the pages and redraws the current page. `None`
     * (a missing record) changes nothing.
     */
    method AppendData(record: Option<Record>)
      requires Valid()
      modifies this
      ensures Valid()
      ensures record.None? ==> Snapshot() == old(Snapshot())
      ensures record.Some? ==>
        && Snapshot() == old(Snapshot()).(data := old(data) + [record.value], filters := None, filtered := [],
             totalPages := TotalPages(|old(data)| + 1, pageSize), paginationEnd := TotalPages(|old(data)| + 1, pageSize),
             pageStart := (currentPage - 1) * pageSize, pageEnd := ClampEnd(currentPage * pageSize, 0, |old(data)| + 1),
             rows := rows, selectedRowIndex := selectedRowIndex)
        && BodyDrawn(old(selectedRowIndex))
    {
      if record.Some? {
        data := data + [record.value];
        ResetFilters();
        UpdatePagination();
        GoToPage(currentPage);
      }
    }

    /** Where `removeData`, `updateData` and `valueAt` look for row `index` of the current page. */
    function ResolvedPosition(index: int): int
      reads this
    {
      GetUnfilteredIndex(filters.Some?, filtered, |data|, GetArrayIndex(currentPage, pageSize, index))
    }

    /**
     * `removeData(index)`: for an index that passes `validateIndex`, splices
     * the resolved position out of the data (the filtered indices are left as
     * they are), clears the selection if it equals that position, recounts the
     * pages and redraws, one page back if the current page no longer exists.
     */
    method RemoveData(index: int)
      requires Valid()
      modifies this
      ensures Valid()
      ensures !ValidateIndex(old(filters).Some?, |old(filtered)|, |old(data)|, index) ==> Snapshot() == old(Snapshot())
      ensures ValidateIndex(old(filters).Some?, |old(filtered)|, |old(data)|, index) ==>
        && Snapshot() == old(Snapshot()).(data := SpliceOne(old(data), old(ResolvedPosition(index))),
             totalPages := totalPages, paginationEnd := totalPages,
             currentPage := currentPage, pageStart := (currentPage - 1) * pageSize,
             pageEnd := ClampEnd(currentPage * pageSize, |filtered|, |data|),
             rows := rows, selectedRowIndex := selectedRowIndex)
        && totalPages == TotalPages(ItemCount(filtered, |data|), pageSize)
        && currentPage == (if old(currentPage) > totalPages then old(currentPage) - 1 else old(currentPage))
        && BodyDrawn(if old(ResolvedPosition(index)) == old(selectedRowIndex) then UNDEFINED_INDEX else old(selectedRowIndex))
    {
      if ValidateIndex(filters.Some?, |filtered|, |data|, index) {
        var arrayIndex := GetArrayIndex(currentPage, pageSize, index);
        var position := GetUnfilteredIndex(filters.Some?, filtered, |data|, arrayIndex);
        data := SpliceOne(data, position);
        if position == selectedRowIndex {
          selectedRowIndex := UNDEFINED_INDEX;
        }
        UpdatePagination();
        ghost var counted := Snapshot();
        var page := if currentPage > totalPages then currentPage - 1 else currentPage;
        GoToPage(page);
        assert Snapshot() == counted.(currentPage := page, pageStart := (page - 1) * pageSize,
          pageEnd := ClampEnd(page * pageSize, |filtered|, |data|), rows := rows, selectedRowIndex := selectedRowIndex);
      }
    }

    /**
     * `updateData(index, patch)`: for an index that passes `validateIndex` and
     * a patch, writes into the record at the resolved position every metadata
     * field the patch has. Writing to a position without a record throws
     * before anything is written.
     */
    method UpdateData(index: int, patch: Option<Record>)
      requires Valid()
      modifies this
      ensures Valid()
      ensures Snapshot() == old(Snapshot()).(data := data)
      ensures ValidateIndex(filters.Some?, |filtered|, |old(data)|, index) && patch.Some? && 0 <= old(ResolvedPosition(index)) < |old(data)| ==>
        data == old(data)[old(ResolvedPosition(index)) := Patched(old(data)[old(ResolvedPosition(index))], patch.value, metadata)]
      ensures !(ValidateIndex(filters.Some?, |filtered|, |old(data)|, index) && patch.Some? && 0 <= old(ResolvedPosition(index)) < |old(data)|) ==>
        data == old(data)
    {
      if ValidateIndex(filters.Some?, |filtered|, |data|, index) && patch.Some? {
        var arrayIndex := GetArrayIndex(currentPage, pageSize, index);
        var position := GetUnfilteredIndex(filters.Some?, filtered, |data|, arrayIndex);
        var record: Option<Record> := if 0 <= position < |data| then Some(data[position]) else None;
        var i := 0;
        while i < |metadata|
          invariant 0 <= i <= |metadata|
          invariant record.Some? <==> 0 <= position < |data|
          invariant record.Some? ==> Patched(record.value, patch.value, metadata[i..]) == Patched(data[position], patch.value, metadata)
        {
          var key := metadata[i].field;
          if key != "" && key in patch.value {
            if record.None? {
              // `_data[position]` is undefined: TypeError
              return;
            }
            record := Some(record.value[key := patch.value[key]]);
          }
          i := i + 1;
        }
        if record.Some? {
          data := data[position := record.value];
        }
      }
    }

    /**
     * `valueAt(index)`: the record at the resolved position for an index that
     * passes `validateIndex`, `None` (`undefined`) when no record is there, and
     * an empty record for any other index.
     */
    function ValueAt(index: int): (r: Option<Record>)
      reads this
      ensures !ValidateIndex(filters.Some?, |filtered|, |data|, index) ==> r == Some(map[])
      ensures ValidateIndex(filters.Some?, |filtered|, |data|, index) ==>
        (r.Some? <==> 0 <= ResolvedPosition(index) < |data|) && (r.Some? ==> r.value in data)
      ensures ValidateIndex(filters.Some?, |filtered|, |data|, index) && 0 <= ResolvedPosition(index) < |data| ==>
        r == Some(data[ResolvedPosition(index)])
    {
      if ValidateIndex(filters.Some?, |filtered|, |data|, index) then
        var position := ResolvedPosition(index);
        if 0 <= position < |data| then Some(data[position]) else None
      else Some(map[])
    }

    /** `selectedRowValue()`: `valueAt` of the selection; with nothing selected, an empty record. */
    function SelectedRowValue(): (r: Option<Record>)
      reads this
      ensures selectedRowIndex == UNDEFINED_INDEX ==> r == Some(map[])
      ensures r.Some? && r.value != map[] ==> r.value in data
    {
      ValueAt(selectedRowIndex)
    }

    /** `selectedRowIndex()`: the selection, a row position or `UNDEFINED_INDEX`. */
    function SelectedRowIndex(): (r: int)
      reads this
      requires Valid()
      ensures r == UNDEFINED_INDEX || r >= 0
    {
      selectedRowIndex
    }

    /** `values()`: the data itself, every record in its current order. */
    function Values(): seq<Record>
      reads this
    {
      data
    }

    /**
     * What `valueAt` and `values()` give for a row drawn on the page shown:
     * the row position passes `validateIndex` and resolves to the data index
     * drawn there, so `valueAt` returns the record of that row. Under a filter
     * that matched nothing every row is rejected and the value is an empty
     * record; with no metadata a row may show no record, and the value is then
     * `undefined`.
     */
    lemma DrawnRowValue(p: int)
      requires Valid() && PageDrawn() && 0 <= p < |rows|
      ensures filters.Some? && filtered == [] ==> ValueAt(p) == Some(map[])
      ensures !(filters.Some? && filtered == []) ==>
        && ValidateIndex(filters.Some?, |filtered|, |data|, p)
        && ResolvedPosition(p) == rows[p]
        && (0 <= rows[p] < |Values()| ==> ValueAt(p) == Some(Values()[rows[p]]))
        && (!(0 <= rows[p] < |Values()|) ==> ValueAt(p) == None)
      ensures |metadata| > 0 ==> 0 <= rows[p] < |Values()|
    {
      var slice := Slice();
      assert rows[p] == slice[p];
      PageRowLookup(filters.Some?, filtered, |data|, pageSize, currentPage, p);
    }

    /**
     * `selectedRowValue()` after a row of the page shown was selected: the
     * record drawn in that row.
     */
    lemma SelectedRowIsDrawnRow()
      requires Valid() && PageDrawn() && 0 <= selectedRowIndex < |rows|
      ensures filters.Some? && filtered == [] ==> SelectedRowValue() == Some(map[])
      ensures !(filters.Some? && filtered == []) && 0 <= rows[selectedRowIndex] < |data| ==>
        SelectedRowValue() == Some(data[rows[selectedRowIndex]])
      ensures |metadata| > 0 ==> 0 <= rows[selectedRowIndex] < |data|
    {
      DrawnRowValue(selectedRowIndex);
    }

    /** `render()`: the header is drawn (not modelled) and page 1 is shown. */
    method Render()
      requires Valid()
      modifies this
      ensures Valid()
      ensures Snapshot() == old(Snapshot()).(currentPage := 1, pageStart := 0,
        pageEnd := ClampEnd(pageSize, |filtered|, |data|), rows := rows, selectedRowIndex := selectedRowIndex)
      ensures BodyDrawn(old(selectedRowIndex))
    {
      GoToPage(1);
    }

    /**
     * `removeAll()`: empties the data and shows page 1. The filter, the
     * filtered indices, the page count and the page the selection was made on
     * stay as they were; the redraw clears the selection index unless it was
     * made on page 1 or the redraw stops early.
     */
    method RemoveAll()
      requires Valid()
      modifies this
      ensures Valid()
      ensures Snapshot() == old(Snapshot()).(data := [], currentPage := 1, pageStart := 0,
        pageEnd := ClampEnd(pageSize, |filtered|, 0), rows := rows, selectedRowIndex := selectedRowIndex)
      ensures BodyDrawn(old(selectedRowIndex))
    {
      data := [];
      GoToPage(1);
    }
  }
}
