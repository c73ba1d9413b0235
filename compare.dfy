/**
 * The comparator factory: `compareValue` orders two records by one field,
 * `compareFilteredValue` orders two indices of the data by the records they
 * point at. A comparator returns a negative number, zero or a positive number,
 * or NaN (`None`) when a numeric field is missing or not a number.
 */
module Compare {
  import opened Wrappers
  import opened Values
  import opened Text
  import opened Sorting

  /** `(a < b) ? -1 : (a > b) ? 1 : 0` on numbers (dates). */
  function Sign(a: int, b: int): int {
    if a < b then -1 else if a > b then 1 else 0
  }

  /** The same three-way test on strings, with JavaScript's `<` and `>`. */
  function StringCompare(a: string, b: string): (c: int)
    ensures c == 0 <==> a == b
    ensures c == -1 <==> LexLess(a, b)
    ensures c == 1 <==> LexLess(b, a)
  {
    LexTrichotomy(a, b);
    if LexLess(a, b) then -1 else if LexLess(b, a) then 1 else 0
  }

  /** A value the comparator for `typ` can read: a number, a date, or a string for every other type. */
  predicate Readable(typ: ColumnType, v: Option<Value>) {
    v.Some? &&
    if IsNumeric(typ) then v.value.Num?
    else if typ.DateType? then Timestamp(v.value).Some?
    else v.value.Str?
  }

  /** The ascending comparison of two readable values: a difference, or -1/0/1. */
  function Natural(typ: ColumnType, x: Value, y: Value): int
    requires Readable(typ, Some(x)) && Readable(typ, Some(y))
  {
    if IsNumeric(typ) then x.num - y.num
    else if typ.DateType? then Sign(Timestamp(x).value, Timestamp(y).value)
    else StringCompare(x.str, y.str)
  }

  /**
   * One step of either comparator on the two field values. A numeric
   * subtraction with a missing or non-numeric operand is NaN; the date and
   * string comparisons read such an operand as neither smaller nor greater.
   */
  function CompareFields(typ: ColumnType, order: int, x: Option<Value>, y: Option<Value>): Option<int> {
    if Readable(typ, x) && Readable(typ, y) then Some(Natural(typ, x.value, y.value) * order)
    else if IsNumeric(typ) then None
    else Some(0)
  }

  /** `compareValue(field, type, order)(first, second)`. */
  function CompareValue(field: string, typ: ColumnType, order: int, first: Record, second: Record): (r: Option<int>)
    ensures r.None? <==> IsNumeric(typ) && !(Readable(typ, FieldOf(first, field)) && Readable(typ, FieldOf(second, field)))
    ensures !IsNumeric(typ) && (order == ASCENDING_ORDER || order == DESCENDING_ORDER) ==> r.Some? && -1 <= r.value <= 1
    ensures first == second ==> r.None? || r.value == 0
    ensures var a, b := FieldOf(first, field), FieldOf(second, field);
      IsNumeric(typ) && Readable(typ, a) && Readable(typ, b) ==> r == Some((a.value.num - b.value.num) * order)
    ensures var a, b := FieldOf(first, field), FieldOf(second, field);
      typ.DateType? && Readable(typ, a) && Readable(typ, b) ==>
        var t1, t2 := Timestamp(a.value).value, Timestamp(b.value).value;
        r == Some((if t1 < t2 then -1 else if t1 > t2 then 1 else 0) * order)
    ensures var a, b := FieldOf(first, field), FieldOf(second, field);
      && !IsNumeric(typ) && !typ.DateType? && Readable(typ, a) && Readable(typ, b)
      && (order == ASCENDING_ORDER || order == DESCENDING_ORDER) ==>
        && (r == Some(-order) <==> LexLess(a.value.str, b.value.str))
        && (r == Some(order) <==> LexLess(b.value.str, a.value.str))
        && (r == Some(0) <==> a.value.str == b.value.str)
    ensures !IsNumeric(typ) && !(Readable(typ, FieldOf(first, field)) && Readable(typ, FieldOf(second, field))) ==> r == Some(0)
  {
    CompareFields(typ, order, FieldOf(first, field), FieldOf(second, field))
  }

  /** `compareFilteredValue(field, type, order)(first, second)`: both indices are resolved in `data`. */
  function CompareFilteredValue(data: seq<Record>, field: string, typ: ColumnType, order: int, first: int, second: int): (r: Option<int>)
    requires 0 <= first < |data| && 0 <= second < |data|
    ensures r == CompareValue(field, typ, order, data[first], data[second])
    ensures data[first] == data[second] ==> r.None? || r.value == 0
  {
    CompareFields(typ, order, FieldOf(data[first], field), FieldOf(data[second], field))
  }

  /** Negation that keeps NaN. */
  function Negate(c: Option<int>): Option<int> {
    if c.Some? then Some(-c.value) else None
  }

  /** Swapping the operands negates the comparison (NaN stays NaN). */
  lemma CompareAntisymmetric(field: string, typ: ColumnType, order: int, a: Record, b: Record)
    ensures CompareValue(field, typ, order, b, a) == Negate(CompareValue(field, typ, order, a, b))
  {
    var x, y := FieldOf(a, field), FieldOf(b, field);
    if Readable(typ, x) && Readable(typ, y) && !IsNumeric(typ) && !typ.DateType? {
      assert StringCompare(y.value.str, x.value.str) == -StringCompare(x.value.str, y.value.str);
    }
  }

  /** The descending comparator is the ascending one negated, so a second header click reverses the order. */
  lemma DescendingReversesAscending(field: string, typ: ColumnType, a: Record, b: Record)
    ensures CompareValue(field, typ, DESCENDING_ORDER, a, b) == Negate(CompareValue(field, typ, ASCENDING_ORDER, a, b))
  {
  }

  /** The comparator as `Array.prototype.sort` reads it: NaN counts as 0. */
  function SortResult(c: Option<int>): int {
    if c.Some? then c.value else 0
  }

  /**
   * The order in which the model's sort places records: records whose field
   * the comparator can read follow the comparator, the others come first.
   * The comparator never contradicts it (`SortKeyRespectsComparator`).
   */
  function SortKeyCompare(field: string, typ: ColumnType, order: int, a: Record, b: Record): int {
    var x, y := FieldOf(a, field), FieldOf(b, field);
    if Readable(typ, x) && Readable(typ, y) then Natural(typ, x.value, y.value) * order
    else if Readable(typ, x) then 1
    else if Readable(typ, y) then -1
    else 0
  }

  /** The sort key as a comparator on records. */
  function SortKey(field: string, typ: ColumnType, order: int): (Record, Record) -> int {
    (a: Record, b: Record) => SortKeyCompare(field, typ, order, a, b)
  }

  /** The record at `i`, or an empty record where `data[i]` would be undefined. */
  function RecordAt(data: seq<Record>, i: int): Record {
    if 0 <= i < |data| then data[i] else map[]
  }

  /** The sort key on indices of `data`, for sorting the filtered indices. */
  function FilteredSortKey(data: seq<Record>, field: string, typ: ColumnType, order: int): (int, int) -> int {
    (i: int, j: int) => SortKeyCompare(field, typ, order, RecordAt(data, i), RecordAt(data, j))
  }

  /** Whatever the sort key lets come first, the comparator does not put last. */
  lemma SortKeyRespectsComparator(field: string, typ: ColumnType, order: int, a: Record, b: Record)
    ensures SortKeyCompare(field, typ, order, a, b) <= 0 ==> SortResult(CompareValue(field, typ, order, a, b)) <= 0
  {
  }

  lemma SortKeyTotal(field: string, typ: ColumnType, order: int, a: Record, b: Record)
    requires order == ASCENDING_ORDER || order == DESCENDING_ORDER
    ensures SortKeyCompare(field, typ, order, a, b) <= 0 || SortKeyCompare(field, typ, order, b, a) <= 0
  {
    var x, y := FieldOf(a, field), FieldOf(b, field);
    if Readable(typ, x) && Readable(typ, y) && !IsNumeric(typ) && !typ.DateType? {
      assert StringCompare(y.value.str, x.value.str) == -StringCompare(x.value.str, y.value.str);
    }
  }

  lemma SortKeyTransitive(field: string, typ: ColumnType, order: int, a: Record, b: Record, c: Record)
    requires order == ASCENDING_ORDER || order == DESCENDING_ORDER
    requires SortKeyCompare(field, typ, order, a, b) <= 0 && SortKeyCompare(field, typ, order, b, c) <= 0
    ensures SortKeyCompare(field, typ, order, a, c) <= 0
  {
    var x, y, z := FieldOf(a, field), FieldOf(b, field), FieldOf(c, field);
    if Readable(typ, x) && Readable(typ, y) && Readable(typ, z) && !IsNumeric(typ) && !typ.DateType? {
      var sx, sy, sz := x.value.str, y.value.str, z.value.str;
      if order == ASCENDING_ORDER {
        if sx != sz && !LexLess(sx, sz) {
          LexLessTotal(sx, sz);
          if sx != sy && sy != sz { LexLessTransitive(sx, sy, sz); }
        }
      } else {
        if sx != sz && !LexLess(sz, sx) {
          LexLessTotal(sx, sz);
          if sx != sy && sy != sz { LexLessTransitive(sz, sy, sx); }
        }
      }
    }
  }

  /** Both sort keys are total preorders, so the sort can order by them. */
  lemma SortKeysArePreorders(data: seq<Record>, field: string, typ: ColumnType, order: int)
    requires order == ASCENDING_ORDER || order == DESCENDING_ORDER
    ensures TotalPreorder(SortKey(field, typ, order))
    ensures TotalPreorder(FilteredSortKey(data, field, typ, order))
  {
    var key, indexKey := SortKey(field, typ, order), FilteredSortKey(data, field, typ, order);
    forall a, b ensures key(a, b) <= 0 || key(b, a) <= 0 {
      SortKeyTotal(field, typ, order, a, b);
    }
    forall a, b, c | key(a, b) <= 0 && key(b, c) <= 0 ensures key(a, c) <= 0 {
      SortKeyTransitive(field, typ, order, a, b, c);
    }
    forall i, j ensures indexKey(i, j) <= 0 || indexKey(j, i) <= 0 {
      SortKeyTotal(field, typ, order, RecordAt(data, i), RecordAt(data, j));
    }
    forall i, j, k | indexKey(i, j) <= 0 && indexKey(j, k) <= 0 ensures indexKey(i, k) <= 0 {
      SortKeyTransitive(field, typ, order, RecordAt(data, i), RecordAt(data, j), RecordAt(data, k));
    }
  }

  /** Records sorted by the sort key are in the order the source's comparator asks for. */
  lemma SortedRecordsFollowComparator(field: string, typ: ColumnType, order: int, s: seq<Record>)
    requires SortedBy(s, SortKey(field, typ, order))
    ensures forall i, j :: 0 <= i < j < |s| ==> SortResult(CompareValue(field, typ, order, s[i], s[j])) <= 0
  {
    forall i, j | 0 <= i < j < |s| ensures SortResult(CompareValue(field, typ, order, s[i], s[j])) <= 0 {
      SortKeyRespectsComparator(field, typ, order, s[i], s[j]);
    }
  }

  /** Indices sorted by the index sort key are in the order `compareFilteredValue` asks for. */
  lemma SortedIndicesFollowComparator(data: seq<Record>, field: string, typ: ColumnType, order: int, s: seq<int>)
    requires SortedBy(s, FilteredSortKey(data, field, typ, order))
    requires forall k :: 0 <= k < |s| ==> 0 <= s[k] < |data|
    ensures forall i, j :: 0 <= i < j < |s| ==> SortResult(CompareFilteredValue(data, field, typ, order, s[i], s[j])) <= 0
  {
    forall i, j | 0 <= i < j < |s| ensures SortResult(CompareFilteredValue(data, field, typ, order, s[i], s[j])) <= 0 {
      SortKeyRespectsComparator(field, typ, order, data[s[i]], data[s[j]]);
    }
  }

  /** `records.sort(compareValue(field, typ, order))`: a permutation in the comparator's order. */
  method SortRecords(records: seq<Record>, field: string, typ: ColumnType, order: int) returns (sorted: seq<Record>)
    requires order == ASCENDING_ORDER || order == DESCENDING_ORDER
    ensures multiset(sorted) == multiset(records)
    ensures SortedBy(sorted, SortKey(field, typ, order))
    ensures forall i, j :: 0 <= i < j < |sorted| ==> SortResult(CompareValue(field, typ, order, sorted[i], sorted[j])) <= 0
  {
    SortKeysArePreorders([], field, typ, order);
    sorted := Sort(records, SortKey(field, typ, order));
    SortedRecordsFollowComparator(field, typ, order, sorted);
  }

  /**
   * `indices.sort(compareFilteredValue(field, typ, order))` for indices that
   * all point into `data`: a permutation in the comparator's order.
   */
  method SortIndices(data: seq<Record>, indices: seq<int>, field: string, typ: ColumnType, order: int) returns (sorted: seq<int>)
    requires order == ASCENDING_ORDER || order == DESCENDING_ORDER
    requires forall k :: 0 <= k < |indices| ==> 0 <= indices[k] < |data|
    ensures multiset(sorted) == multiset(indices)
    ensures SortedBy(sorted, FilteredSortKey(data, field, typ, order))
    ensures forall k :: 0 <= k < |sorted| ==> 0 <= sorted[k] < |data|
    ensures forall i, j :: 0 <= i < j < |sorted| ==> SortResult(CompareFilteredValue(data, field, typ, order, sorted[i], sorted[j])) <= 0
  {
    SortKeysArePreorders(data, field, typ, order);
    sorted := Sort(indices, FilteredSortKey(data, field, typ, order));
    forall k | 0 <= k < |sorted| ensures 0 <= sorted[k] < |data| {
      assert sorted[k] in multiset(indices);
    }
    SortedIndicesFollowComparator(data, field, typ, order, sorted);
  }
}
