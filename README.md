# Sortable table view-state engine, in Dafny

`sortable.js` is a jQuery widget that draws a paginated, sortable and
filterable HTML table. `Sortable.create(data, metadata, ...)` keeps all of
its state in closure variables:
- the records `_data`;
- the filter object `_filters` and the indices `_filtered` of the records that passed it;
- the page size, the current page, the page count and the offsets `_start`/`_end` the page shows;
- the window of page numbers;
- the sort field and order;
- the selected row and the page it was selected on.

The inner functions and the returned API update this state step by step.
This project models that engine and proves what it guarantees.

- `values.dfy`:
  - the constants `UNDEFINED_INDEX`, `ASCENDING_ORDER`, `DESCENDING_ORDER` and `DEFAULT_PAGE_SIZE`;
  - field values (`Num`, `Str`, `Date` timestamps);
  - records as maps from field names to values;
  - metadata columns (field name and type).
- `text.dfy`: what the string filter and the string comparator rely on:
  - ASCII lower-casing;
  - `indexOf` and `split(' ')`, with the proof that splitting loses nothing;
  - JavaScript's `<` on strings, a strict total order.
- `compare.dfy`: `compareValue` and `compareFilteredValue`.
  - A comparison is `None` where JavaScript yields NaN.
  - A total-preorder sort key never contradicts the comparator.
  - The sort steps of `sortByField` produce a permutation in comparator order.
- `sorting.dfy`: a sort on sequences that realises what the table relies on from `Array.prototype.sort`, namely a permutation ordered by the comparator.
- `filtering.dfy`: the filter engine:
  - the per-field `switch`, including the TypeError a string test throws on a non-string;
  - the per-record loop with its early `break`;
  - the `fields` object built from the metadata;
  - the loop over the data that pushes matching indices into `_filtered`.
- `indexing.dfy`:
  - `validateIndex`, `getArrayIndex` and `getUnfilteredIndex`;
  - `splice`;
  - the page-count arithmetic and the bounds check of `goToPage`;
  - the two drawing loops of `refreshTableBody` and the selection reconcile, which keeps the selection only on the page it was made on.
- `records.dfy`:
  - `indexOf` on the data, used to find the selected record after a sort;
  - the field-by-field write of `updateData`.
- `table.dfy`: the class `SortableTable`, whose fields are the closure variables.
  - Each method states the whole new state of the table against the old one, using the `View` snapshot.
  - `BodyDrawn` describes the body rows and the selection that `refreshTableBody` leaves.
  - `values()` is the function `Values`, which returns the data.

The model keeps the behaviour of the code as written, including:
- `removeData`, `updateData` and `valueAt` check `validateIndex` on the page-relative index, not on the resolved one.
  - `PastLastRowEscapesFilter` shows a row position that passes the check and resolves to an unfiltered record.
- `removeData` splices `_data` but leaves `_filtered` as it was.
  - A stale index then makes the filtered sort throw (`SortFilteredIndices`) and the redraw stop at the missing record (`BodyDrawn`).
- The selection index is a row position on the page, yet `sortByField` and `removeData` treat it as an index of `_data`.
- `removeAll` keeps the filter, the filtered indices, the page count and the page the selection was made on.
  - Its redraw of page 1 clears the selection index unless the selection was made on page 1 or the redraw stops early.
- The initial page count is `ceil(|data| / 10)`, which is 0 for empty data.
- A filter that is set but matched nothing makes `validateIndex` reject every row, while the pagination falls back to the whole data (`PageRowLookup`).

Thrown exceptions end the operation where the source throws. The method then reports it through a flag (`ok`, `sorted`, `complete`) or leaves the state unchanged:
- a string filter on a non-string value;
- `_data[i][field]` on an index with no record;
- `appendRow` on a missing record;
- `updateData` on a position with no record.

## Model

| member | source | states |
|---|---|---|
| Text.Lower | sortable.js:540-541 | lower-casing keeps the length, maps each character through the ASCII lower-case map, and leaves no upper-case letter |
| Text.LowerIdempotent | sortable.js:540-541 | lower-casing an already lower-cased string changes nothing |
| Text.IndexOf | sortable.js:544 | `indexOf` is -1 or an occurrence of the needle, and no earlier position is one |
| Text.Split | sortable.js:547 | `split(' ')` gives at least one token and no token contains a space |
| Text.JoinSplit | sortable.js:547 | joining the tokens of `split(' ')` with single spaces gives the string back |
| Text.SplitTokensOccur | sortable.js:547 | every token of `split(' ')` is a contiguous piece of the string |
| Text.CountOccurring | sortable.js:548-558 | the token count is at most the number of tokens, and equals it exactly when every token occurs in the item |
| Text.StringFieldMatch | sortable.js:539-560 | a string field matches exactly when every space-separated token of the lower-cased filter occurs in the lower-cased item; the whole-phrase test only short-cuts this |
| Text.PhraseImpliesTokens | sortable.js:544-558 | when the whole lower-cased phrase occurs in the item, so does each of its space-separated tokens, so the short-cut never accepts what the token count would reject |
| Text.LexLessIrreflexive | sortable.js:284-285 | no string is smaller than itself under `<` |
| Text.LexLessAsymmetric | sortable.js:284-285 | two strings are never each smaller than the other |
| Text.LexLessTransitive | sortable.js:284-285 | `<` on strings is transitive |
| Text.LexLessTotal | sortable.js:284-285 | of two different strings one is smaller |
| Text.LexTrichotomy | sortable.js:284-286 | two strings are equal exactly when neither is smaller |
| Compare.StringCompare | sortable.js:284-286 | the string comparison is 0 exactly on equal strings, -1 exactly when the first is smaller, 1 exactly when the second is |
| Compare.CompareAntisymmetric | sortable.js:265-289 | swapping the two records negates the comparison, and NaN stays NaN |
| Compare.DescendingReversesAscending | sortable.js:265-289 | the descending comparator is the ascending one negated, so a second header click reverses the order |
| Compare.CompareValue | sortable.js:265-289 | the comparison is NaN exactly for a numeric column with a missing or non-numeric operand, and otherwise the difference of the two numbers times the order; a date comparison is the sign of the timestamp difference times the order; a string comparison is `-order` exactly when the first is smaller under `<`, `order` exactly when the second is, 0 exactly on equal strings; an unreadable date or string operand gives 0; a record compared with itself is 0 or NaN |
| Compare.CompareFilteredValue | sortable.js:229-252 | comparing two indices gives what `compareValue` gives on their records, so two indices of equal records compare as 0 or NaN |
| Compare.SortKeyRespectsComparator | sortable.js:265-289 | whatever the sort key allows first, the comparator (NaN read as 0) does not order last |
| Compare.SortKeyTotal | sortable.js:265-289 | of any two records, the sort key allows one of them first |
| Compare.SortKeyTransitive | sortable.js:265-289 | the sort key's "may come first" is transitive |
| Compare.SortKeysArePreorders | sortable.js:229-289 | the record key and the index key are both total preorders |
| Compare.SortedRecordsFollowComparator | sortable.js:685 | records ordered by the sort key are in the order `compareValue` asks for |
| Compare.SortedIndicesFollowComparator | sortable.js:675 | indices ordered by the index key are in the order `compareFilteredValue` asks for |
| Compare.SortRecords | sortable.js:685 | sorting the data gives a permutation in which no record is ordered after a later one by `compareValue` |
| Compare.SortIndices | sortable.js:675 | sorting the filtered indices gives a permutation of them, all still in the data, in `compareFilteredValue` order |
| Sorting.Insert | sortable.js:675 | inserting into a sorted sequence keeps it sorted and adds exactly the element |
| Sorting.Sort | sortable.js:685 | the sort returns a permutation of its input ordered by the comparator |
| Filtering.FieldMatch | sortable.js:526-561 | a field test throws exactly for a string column with a non-string operand and leaves `hasValue` alone exactly for an unknown type; a number column passes exactly on the equal number, a date column exactly when both operands have the same timestamp (a number read as a timestamp), and a string column exactly when `StringFieldMatch` accepts the two strings |
| Filtering.MatchRecord | sortable.js:520-576 | the per-record loop gives the outcome of testing the fields in order from `hasValue = false`, stopping at the first failure or throw |
| Filtering.MatchIsConjunction | sortable.js:519-576 | with known column types, a record passes exactly when every active field test passes, and throws only where some string test throws |
| Filtering.SetField | sortable.js:507 | `fields[key] = type` adds the key to the names, keeps the names distinct, and holds only the new entry and old entries |
| Filtering.ActiveFields | sortable.js:500-509 | every field collected has a value in the filter object |
| Filtering.ActiveFieldsSpec | sortable.js:500-513 | the collected fields have distinct names, are exactly the metadata fields the filter object names, come from the metadata, and are empty exactly when the filter names no metadata field |
| Filtering.CollectFields | sortable.js:500-509 | the loop over the metadata builds the active fields |
| Filtering.Matching | sortable.js:519-577 | the filtered indices are strictly increasing, below the record count, each of a passing record, and include every passing record |
| Filtering.FilterIndices | sortable.js:519-577 | without a throw, `_filtered` is exactly the passing indices of the whole data; after a throw it holds the passing indices before the first record that throws |
| Indexing.GetUnfilteredIndex | sortable.js:181-189 | with a filter set, a valid index resolves to the filtered entry there; with no filtered indices it stays as it is; otherwise it is the index or the entry at it |
| Indexing.ValidIndexResolvesIntoData | sortable.js:181-204 | while the filtered indices point into the data, every index `validateIndex` accepts resolves to a record |
| Indexing.ValidateIndex | sortable.js:197-204 | an index is valid exactly when it is non-negative and below the filtered count with a filter set, below the data count without one |
| Indexing.GetArrayIndex | sortable.js:214-216 | row `p` of page `n` is the offset whose quotient by the page size is `n - 1` and whose remainder is `p` |
| Indexing.ArrayIndexCoversItems | sortable.js:214-216 | every non-negative offset is some row of some page |
| Indexing.SpliceOne | sortable.js:865 | `splice(position, 1)` removes one element for an existing position or a negative one on non-empty data, and changes nothing for a position at or past the end |
| Indexing.SpliceRemovesExactly | sortable.js:865 | splicing out an existing position removes exactly that element and keeps the others in order; past the end it changes nothing |
| Indexing.CeilDiv | sortable.js:90 | `Math.ceil(n / d)` is the fewest blocks of `d` that hold `n` |
| Indexing.TotalPages | sortable.js:350 | the page count is at least 1 and is the fewest pages that hold every item |
| Indexing.PageSizeCoversAll | sortable.js:350 | a page size of at least the item count gives one page |
| Indexing.ClampEnd | sortable.js:311-315 | the end of the page never exceeds the requested end; it is the request capped by the filtered count when there are filtered indices and no more of them than records, and capped by the data count when there are none; with more filtered indices than records, a request past the filtered count gives the filtered count and any other request is capped by the data count |
| Indexing.StaleFilterClampsToData | sortable.js:311-315 | with 4 stale filtered indices and 2 records, a request for 3 ends the page at 2, below both the request and the filtered count |
| Indexing.PageRowCount | sortable.js:303-315 | each page from 1 to the page count shows between one and `pageSize` items, and a later page shows none |
| Indexing.PageSlice | sortable.js:787-796 | the body visits one data index per offset of `[start, end)`, resolved through the filtered indices when there are any |
| Indexing.RenderedCount | sortable.js:787-796 | the drawn rows are the longest prefix of the slice whose records `appendRow` can read |
| Indexing.DrawRows | sortable.js:787-796 | the drawing loops draw the renderable prefix of the page slice, and report whether the whole slice was drawn |
| Indexing.PageShowsItems | sortable.js:303-315 | with fresh filtered indices, every page from the first to the last draws between one and `pageSize` existing records, all of them |
| Indexing.PageRowLookup | sortable.js:935-945 | a drawn row's position is resolved by `valueAt` to the record drawn there, except under a filter that matched nothing, where `validateIndex` rejects it |
| Indexing.PastLastRowEscapesFilter | sortable.js:181-204 | on the last page, a row position past the drawn rows but below the filtered count passes `validateIndex` and resolves to an unfiltered data index |
| Records.Find | sortable.js:690 | `indexOf` gives the first position of the record, or -1 exactly when it is absent |
| Records.Repointed | sortable.js:686-690 | after the data is reordered, the selection points at the first position of the record it named, at -1 when that record is gone, and is left alone when it named no record |
| Records.Patched | sortable.js:910-915 | the updated record has its old fields plus the written ones; a written field, named by metadata, non-empty and in the patch, takes the patch's value, and every other field keeps its own |
| Table.SortableTable.constructor | sortable.js:71-147 | the initial state: no filter, page 1 of size 10, offsets 0 to 10, `ceil(|data| / 10)` pages, ascending order, nothing selected |
| Table.SortableTable.RefreshTableBody | sortable.js:783-817 | the redraw changes only the rows and the selection: the rows are the renderable prefix of the page slice; after a complete redraw a selection that survives was made on the page shown and is unchanged, and a selection made on another page is cleared; an interrupted redraw keeps the selection |
| Table.SortableTable.GoToPage | sortable.js:303-318 | sets the current page, the start `(page - 1) * pageSize` and the clamped end, then redraws; a complete redraw of a page other than the one the selection was made on clears the selection, and a surviving selection was made on the new page; a page from 1 up is then the page drawn (`PageDrawn`) |
| Table.SortableTable.UpdatePagination | sortable.js:348-352 | the page count becomes that of the item count (at least 1 and enough for every item), and the page-number window ends there |
| Table.SortableTable.SetPageSize | sortable.js:326-343 | takes the new size, clears the selection, recounts the pages, and shows page 1 with the window starting at 1 |
| Table.SortableTable.ShiftPagination | sortable.js:364-378 | a zero size leaves the window alone; otherwise the window shifts by `size * direction` or snaps to the first or last page numbers, after which it starts at 1 or ends within the page count |
| Table.SortableTable.FirstPage | sortable.js:451-453 | the "first" button shows page 1 |
| Table.SortableTable.PreviousPage | sortable.js:455-457 | the "previous" button shows the page before, which is in range when the current page was |
| Table.SortableTable.NextPage | sortable.js:459-461 | the "next" button shows the page after, which is in range when the current page was |
| Table.SortableTable.LastPage | sortable.js:463-465 | the "last" button shows the last page |
| Table.SortableTable.PageClick | sortable.js:444-449 | a page-number click changes nothing on the current page and goes to any other page |
| Table.SortableTable.SelectRow | sortable.js:599-611 | clicking the selected row clears the index and page to -1; clicking another row selects it on the current page, after which `selectedRowValue()` is the record drawn in that row when the page shown was drawn with metadata and the filter matched something; nothing else changes |
| Table.SortableTable.SortFilteredIndices | sortable.js:674-675 | the filtered sort changes only `_filtered`; it succeeds exactly when no index lacks a record (or there are fewer than two), and then permutes the indices into comparator order |
| Table.SortableTable.SortData | sortable.js:677-691 | the unfiltered sort permutes the data into comparator order and points the selection at the first position of the record selected before |
| Table.SortableTable.SortByField | sortable.js:667-694 | with a filter set only `_filtered` changes: the sort succeeds exactly when no index lacks a record (or there are fewer than two), and then permutes the indices into comparator order, while a failed sort leaves them alone; without a filter the data is permuted into comparator order, the selection follows its record, and nothing else changes |
| Table.SortableTable.HeaderClick | sortable.js:638-656 | clicking the current sort field flips the order, another column sorts ascending on it; an unfiltered table is then sorted and redrawn with the selection following its record; a filtered table whose sort succeeds is shown from page 1 of the sorted indices with no selection; a filtered sort that throws changes only the sort field and order |
| Table.SortableTable.ResetFilters | sortable.js:482-485 | no filter object and no filtered indices, nothing else changes |
| Table.SortableTable.Filter | sortable.js:493-580 | a filter naming no metadata field leaves the table unfiltered; otherwise the filter object is kept and `_filtered` holds exactly the passing indices, or those before the first throwing record |
| Table.SortableTable.FilterData | sortable.js:977-982 | filters, and when some record passed without a throw goes back to page 1 of the filtered items |
| Table.SortableTable.ClearFilters | sortable.js:987-990 | drops the filter and shows page 1 of all the data with the selection cleared |
| Table.SortableTable.AppendData | sortable.js:832-845 | a record becomes the last element of the data, the filter is dropped, the pages are recounted and the current page is redrawn; no record changes nothing |
| Table.SortableTable.RemoveData | sortable.js:854-888 | a valid row index splices exactly the resolved position out of the data, clears the selection if it equals that position, recounts the pages, and steps one page back if the current one no longer exists; an invalid index changes nothing |
| Table.SortableTable.UpdateData | sortable.js:898-918 | in the data as a list of record values, only the record at the resolved position changes, and only in the metadata fields the patch has; any other call changes nothing |
| Table.SortableTable.ValueAt | sortable.js:935-947 | an invalid index gives an empty record; a valid one gives the record at the resolved position, or `undefined` when the resolved position has none |
| Table.SortableTable.SelectedRowValue | sortable.js:952-954 | with nothing selected the value is an empty record; a non-empty value is a record of the data |
| Table.SortableTable.DrawnRowValue | sortable.js:923-947 | on the page shown, a drawn row passes `validateIndex` and resolves to the data index drawn there, so `valueAt` gives `values()` at that index (always a record when there is metadata); under a filter that matched nothing it gives an empty record |
| Table.SortableTable.SelectedRowIsDrawnRow | sortable.js:952-954 | with a row of the page shown selected, `selectedRowValue()` is the record drawn in that row; under a filter that matched nothing it is an empty record |
| Table.SortableTable.SelectedRowIndex | sortable.js:959-961 | the selection is `UNDEFINED_INDEX` or a non-negative position |
| Table.SortableTable.Render | sortable.js:966-969 | shows page 1 |
| Table.SortableTable.RemoveAll | sortable.js:995-999 | empties the data and shows page 1, keeping the filter, the filtered indices, the page count and the page the selection was made on; the redraw reconciles the selection, clearing it unless it was made on page 1 or the redraw stops early |

## Left out

- The HTML and jQuery side is not modelled:
  - `refreshPaginationView`, `appendRow`'s markup, `removeRowAt`, `updateRow`, `refreshTableHeader` and `selectableTable`;
  - the CSS class of the selected row;
  - the `_paginate` redraw of the page-number bar.
  - The body is modelled as the list of data indices drawn.
  - The buttons that `refreshPaginationView` shows only on some pages become preconditions of `FirstPage`, `PreviousPage`, `NextPage` and `LastPage`.
- Event wiring (`.click`, `.change`) is not modelled; only the state changes the handlers make are.
  - The page-size dropdown handler is `SetPageSize`.
- `getObjectKeys` is not modelled because nothing calls it.
- These settings are left out because nothing in the engine reads them or they are only UI:
  - the cosmetic settings `_style`, `_target`, `_selectable`, `_sortable` and `_paginate`;
  - the dropdown sizes `_pageSizes`;
  - `_columnSortIndex`, which is never updated;
  - `LEFT_SHIT`/`RIGHT_SHIFT`;
  - the label of a metadata entry.
- Table.SortableTable.GoToPage: the `page !== undefined` guard is not modelled, because every caller passes a number.
- Table.SortableTable.SetPageSize: the size must be at least 1.
  - The `size !== undefined` guard is not modelled.
  - The "All" option on empty data passes 0, which gives NaN page counts in the source; that case is not modelled.
- Table.SortableTable.FilterData: the filter object is `Option`. Falsy values other than `null` and `undefined` are not distinguished.
- Dates are integer timestamps. `new Date(x).getTime()` is `Values.Timestamp`: a date gives its timestamp, a number is read as one, and a string gives NaN.
  - The time-value limit is not modelled: JavaScript gives NaN for a number whose magnitude exceeds 8.64e15 milliseconds, while `Timestamp` reads every number as a timestamp.
- Filtering.FieldMatch: a string in a date column is not parsed as a date. It reads as NaN and never matches; the source would match a date string that parses to the same time.
- Compare.CompareFields: a string in a date column reads as NaN, so it compares as neither smaller nor greater. The source would parse it as a date.
- Compare.CompareFields: a `Date` value in a numeric column is NaN. The source would subtract its timestamp through `valueOf`.
- Numbers are integers, so floating point is not modelled.
- Filtering.FieldMatch: a number column matches only a `Num` filter against a `Num` value. The source's `parseFloat` would also equate a numeric string with a number.
- Compare.CompareFields: the string/default branch reads a non-string operand as neither smaller nor greater. The source would compare two numbers numerically and coerce mixed operands.
- Compare.CompareFields: the numeric branch gives NaN for a string operand. The source would subtract numeric strings.
- Text.Lower: `toLowerCase` is modelled for ASCII letters only.
- Text.LexLess: strings are compared by code point. JavaScript compares UTF-16 code units, which differs only outside the Basic Multilingual Plane.
- Sorting.Sort: the algorithm and stability of `Array.prototype.sort` are not modelled.
  - Only what the table relies on is stated: a permutation in comparator order.
  - Where the comparator is inconsistent (NaN), ECMAScript leaves the order to the engine. The model picks an order the comparator never contradicts.
- Table.SortableTable.SortFilteredIndices: it throws whenever two or more filtered indices include one without a record. The source throws only when the engine compares that index, which a sort of two or more elements does.
- Records.Find: records are compared by value, not by object identity. With two equal records, the selection may be re-pointed to the first of them.
- Table.SortableTable.UpdateData: records are values, so the write changes one position only. The source writes into the stored record object in place. A record object stored at several positions changes at every one of them, for example after appending the same object twice. A record a caller already holds from `valueAt` or `values()` changes too.
- Table.SortableTable.Values: the live reference `values()` hands out, and any change a caller makes through it, is not modelled.
- Filtering.SetField: the `fields` object is iterated in insertion order. JavaScript's `for...in` would visit integer-like field names first.
- A thrown exception ends the modelled operation and is reported by a flag. Its propagation to the caller of the API is not modelled.
- The defaults `data || []` and `metadata || {}` are not modelled: the data and the metadata are always sequences.
