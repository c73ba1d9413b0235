/**
 * The filter engine: which metadata fields a filter object names, how one
 * record is tested against them, and which indices of the data pass.
 */
module Filtering {
  import opened Wrappers
  import opened Values
  import opened Text

  /**
   * What testing one field does: set `hasValue` to true or false, throw a
   * TypeError (`toLowerCase` on something that is not a string), or leave
   * `hasValue` as it was (a type name the `switch` has no case for).
   */
  datatype FieldOutcome = Pass | Fail | Throw | Keep

  /** The `switch (type)` of the filter for one field. */
  function FieldMatch(typ: ColumnType, filterValue: Value, itemValue: Option<Value>): (o: FieldOutcome)
    ensures o == Throw <==> typ.StringType? && !(filterValue.Str? && itemValue.Some? && itemValue.value.Str?)
    ensures o == Keep <==> typ.OtherType?
    ensures IsNumeric(typ) ==> (o == Pass <==> filterValue.Num? && itemValue == Some(filterValue))
    ensures typ.DateType? ==>
      (o == Pass <==> itemValue.Some? && Timestamp(filterValue).Some? && Timestamp(filterValue) == Timestamp(itemValue.value))
    ensures typ.StringType? && filterValue.Str? && itemValue.Some? && itemValue.value.Str? ==>
      (o == Pass <==> StringFieldMatch(filterValue.str, itemValue.value.str))
  {
    if IsNumeric(typ) then
      if filterValue.Num? && itemValue.Some? && itemValue.value.Num? && filterValue.num == itemValue.value.num
      then Pass else Fail
    else if typ.DateType? then
      if itemValue.Some? && Timestamp(filterValue).Some? && Timestamp(filterValue) == Timestamp(itemValue.value)
      then Pass else Fail
    else if typ.StringType? then
      if filterValue.Str? && itemValue.Some? && itemValue.value.Str? then
        if StringFieldMatch(filterValue.str, itemValue.value.str) then Pass else Fail
      else Throw
    else Keep
  }

  /** Every active field has a value in the filter object. */
  predicate FieldsIn(fields: seq<Column>, filters: map<string, Value>) {
    forall k :: 0 <= k < |fields| ==> fields[k].field in filters
  }

  /** The result of testing one record: pushed, skipped, or the filter threw. */
  datatype Match = Matched | Rejected | Threw

  /** Tests of the active fields in order, from the given `hasValue`, stopping at the first that fails. */
  function RecordOutcome(fields: seq<Column>, filters: map<string, Value>, record: Record, hasValue: bool): Match
    requires FieldsIn(fields, filters)
  {
    if fields == [] then (if hasValue then Matched else Rejected)
    else
      var o := FieldMatch(fields[0].typ, filters[fields[0].field], FieldOf(record, fields[0].field));
      if o == Throw then Threw
      else
        var h := if o == Keep then hasValue else o == Pass;
        if !h then Rejected else RecordOutcome(fields[1..], filters, record, h)
  }

  /** The per-record callback of the filter: the `for (key in fields)` loop and its `break`. */
  method MatchRecord(fields: seq<Column>, filters: map<string, Value>, record: Record) returns (m: Match)
    requires FieldsIn(fields, filters)
    ensures m == RecordOutcome(fields, filters, record, false)
  {
    var hasValue := false;
    var i := 0;
    while i < |fields|
      invariant 0 <= i <= |fields|
      invariant RecordOutcome(fields[i..], filters, record, hasValue) == RecordOutcome(fields, filters, record, false)
    {
      assert fields[i..][1..] == fields[i + 1..];
      var key, typ := fields[i].field, fields[i].typ;
      var o := FieldMatch(typ, filters[key], FieldOf(record, key));
      if o == Throw {
        return Threw;
      }
      if o != Keep {
        hasValue := o == Pass;
      }
      if !hasValue {
        break;
      }
      i := i + 1;
    }
    m := if hasValue then Matched else Rejected;
  }

  /**
   * With only known column types, a record passes exactly when every active
   * field test passes, and the filter throws only where a string test throws.
   */
  lemma {:induction false} MatchIsConjunction(fields: seq<Column>, filters: map<string, Value>, record: Record, hasValue: bool)
    requires FieldsIn(fields, filters) && |fields| > 0
    requires forall k :: 0 <= k < |fields| ==> !fields[k].typ.OtherType?
    ensures RecordOutcome(fields, filters, record, hasValue) == Matched <==>
      forall k :: 0 <= k < |fields| ==> FieldMatch(fields[k].typ, filters[fields[k].field], FieldOf(record, fields[k].field)) == Pass
    ensures RecordOutcome(fields, filters, record, hasValue) == Threw ==>
      exists k :: 0 <= k < |fields| && FieldMatch(fields[k].typ, filters[fields[k].field], FieldOf(record, fields[k].field)) == Throw
  {
    var o := FieldMatch(fields[0].typ, filters[fields[0].field], FieldOf(record, fields[0].field));
    if o == Pass && |fields| > 1 {
      var rest := fields[1..];
      MatchIsConjunction(rest, filters, record, true);
      assert forall k :: 1 <= k < |fields| ==> fields[k] == rest[k - 1];
      if RecordOutcome(fields, filters, record, hasValue) == Threw {
        var k :| 0 <= k < |rest| && FieldMatch(rest[k].typ, filters[rest[k].field], FieldOf(record, rest[k].field)) == Throw;
        assert FieldMatch(fields[k + 1].typ, filters[fields[k + 1].field], FieldOf(record, fields[k + 1].field)) == Throw;
      }
    }
  }

  /** The field names listed in `fields`. */
  function Names(fields: seq<Column>): set<string> {
    set k | 0 <= k < |fields| :: fields[k].field
  }

  /** No field is listed twice. */
  predicate Distinct(fields: seq<Column>) {
    forall i, j :: 0 <= i < j < |fields| ==> fields[i].field != fields[j].field
  }

  /** `fields[c.field] = c.typ`: a new name goes last, a known name keeps its place and takes the new type. */
  function SetField(fields: seq<Column>, c: Column): (r: seq<Column>)
    ensures Names(r) == Names(fields) + {c.field}
    ensures Distinct(fields) ==> Distinct(r)
    ensures c in r
    ensures forall k :: 0 <= k < |r| ==> r[k] == c || r[k] in fields
  {
    if fields == [] then
      NamesCons(c, []);
      [c]
    else
      var rest := SetField(fields[1..], c);
      assert fields == [fields[0]] + fields[1..];
      NamesCons(fields[0], fields[1..]);
      DistinctCons(fields[0], fields[1..]);
      if fields[0].field == c.field then
        NamesCons(c, fields[1..]);
        DistinctCons(c, fields[1..]);
        [c] + fields[1..]
      else
        NamesCons(fields[0], rest);
        DistinctCons(fields[0], rest);
        [fields[0]] + rest
  }

  lemma DistinctCons(c: Column, fields: seq<Column>)
    ensures Distinct([c] + fields) <==> Distinct(fields) && c.field !in Names(fields)
  {
    var s := [c] + fields;
    if Distinct(s) {
      forall i, j | 0 <= i < j < |fields| ensures fields[i].field != fields[j].field {
        assert s[i + 1] == fields[i] && s[j + 1] == fields[j];
      }
      forall k | 0 <= k < |fields| ensures fields[k].field != c.field {
        assert s[k + 1] == fields[k] && s[0] == c;
      }
    }
    if Distinct(fields) && c.field !in Names(fields) {
      forall i, j | 0 <= i < j < |s| ensures s[i].field != s[j].field {
        assert s[j] == fields[j - 1];
        if i > 0 { assert s[i] == fields[i - 1]; }
      }
    }
  }

  lemma NamesCons(c: Column, fields: seq<Column>)
    ensures Names([c] + fields) == {c.field} + Names(fields)
  {
    var s := [c] + fields;
    forall f | f in Names(s) ensures f in {c.field} + Names(fields) {
      var k :| 0 <= k < |s| && s[k].field == f;
      if k > 0 { assert fields[k - 1].field == f; }
    }
    forall f | f in Names(fields) ensures f in Names(s) {
      var k :| 0 <= k < |fields| && fields[k].field == f;
      assert s[k + 1].field == f;
    }
    assert s[0].field == c.field;
  }

  /** The `fields` object the filter builds from the metadata entries whose field the filter object has. */
  function ActiveFields(metadata: seq<Column>, filters: map<string, Value>): (fields: seq<Column>)
    ensures FieldsIn(fields, filters)
    decreases |metadata|
  {
    if metadata == [] then []
    else
      var fields := ActiveFields(metadata[..|metadata| - 1], filters);
      var c := metadata[|metadata| - 1];
      if c.field in filters then SetField(fields, c) else fields
  }

  /** The metadata field names that the filter object names. */
  function NamedFields(metadata: seq<Column>, filters: map<string, Value>): set<string> {
    set j | 0 <= j < |metadata| && metadata[j].field in filters :: metadata[j].field
  }

  /**
   * The active fields are the metadata fields the filter object names, each
   * once, with a type taken from the metadata; there are none exactly when
   * the filter object names no metadata field.
   */
  lemma {:induction false} ActiveFieldsSpec(metadata: seq<Column>, filters: map<string, Value>)
    ensures Distinct(ActiveFields(metadata, filters))
    ensures Names(ActiveFields(metadata, filters)) == NamedFields(metadata, filters)
    ensures forall k :: 0 <= k < |ActiveFields(metadata, filters)| ==> ActiveFields(metadata, filters)[k] in metadata
    ensures |ActiveFields(metadata, filters)| == 0 <==> NamedFields(metadata, filters) == {}
    decreases |metadata|
  {
    var fields := ActiveFields(metadata, filters);
    if metadata != [] {
      var init := metadata[..|metadata| - 1];
      var c := metadata[|metadata| - 1];
      var prev := ActiveFields(init, filters);
      ActiveFieldsSpec(init, filters);
      NamedFieldsSnoc(metadata, filters);
      forall k | 0 <= k < |fields| ensures fields[k] in metadata {
        if fields[k] != c {
          assert fields[k] in prev;
          var j :| 0 <= j < |init| && init[j] == fields[k];
          assert metadata[j] == init[j];
        }
      }
    }
    if |fields| > 0 {
      assert fields[0].field in Names(fields);
    }
  }

  /** The named fields of the metadata with one more entry at its end. */
  lemma NamedFieldsSnoc(metadata: seq<Column>, filters: map<string, Value>)
    requires metadata != []
    ensures var c := metadata[|metadata| - 1];
      NamedFields(metadata, filters) ==
      NamedFields(metadata[..|metadata| - 1], filters) + (if c.field in filters then {c.field} else {})
  {
    var init := metadata[..|metadata| - 1];
    var c := metadata[|metadata| - 1];
    forall f | f in NamedFields(metadata, filters) ensures f in NamedFields(init, filters) + (if c.field in filters then {c.field} else {}) {
      var j :| 0 <= j < |metadata| && metadata[j].field in filters && metadata[j].field == f;
      if j < |init| { assert init[j].field == f; }
    }
    forall f | f in NamedFields(init, filters) ensures f in NamedFields(metadata, filters) {
      var j :| 0 <= j < |init| && init[j].field in filters && init[j].field == f;
      assert metadata[j] == init[j];
    }
    if c.field in filters {
      assert metadata[|metadata| - 1].field == c.field;
    }
  }

  /** The loop over the metadata that builds `fields`. */
  method CollectFields(metadata: seq<Column>, filters: map<string, Value>) returns (fields: seq<Column>)
    ensures fields == ActiveFields(metadata, filters)
  {
    fields := [];
    var i := 0;
    while i < |metadata|
      invariant 0 <= i <= |metadata|
      invariant fields == ActiveFields(metadata[..i], filters)
    {
      assert metadata[..i + 1][..i] == metadata[..i];
      var entry := metadata[i];
      if entry.field in filters {
        fields := SetField(fields, entry);
      }
      i := i + 1;
    }
    assert metadata[..|metadata|] == metadata;
  }

  /**
   * The indices below `n` of the records that pass, in increasing order:
   * what the filter pushes into `_filtered` for the first `n` records.
   */
  function Matching(fields: seq<Column>, filters: map<string, Value>, data: seq<Record>, n: nat): (r: seq<int>)
    requires FieldsIn(fields, filters) && n <= |data|
    ensures forall k :: 0 <= k < |r| ==> 0 <= r[k] < n && RecordOutcome(fields, filters, data[r[k]], false) == Matched
    ensures forall i, j :: 0 <= i < j < |r| ==> r[i] < r[j]
    ensures forall i :: 0 <= i < n && RecordOutcome(fields, filters, data[i], false) == Matched ==> i in r
    ensures |r| <= n
  {
    if n == 0 then []
    else
      var prev := Matching(fields, filters, data, n - 1);
      if RecordOutcome(fields, filters, data[n - 1], false) == Matched then prev + [n - 1] else prev
  }

  /** None of the first `n` records makes the filter throw. */
  ghost predicate NoThrowBefore(fields: seq<Column>, filters: map<string, Value>, data: seq<Record>, n: int)
    requires FieldsIn(fields, filters) && n <= |data|
  {
    forall k :: 0 <= k < n ==> RecordOutcome(fields, filters, data[k], false) != Threw
  }

  /** Record `t` is the first one on which the filter throws. */
  ghost predicate ThrowsFirstAt(fields: seq<Column>, filters: map<string, Value>, data: seq<Record>, t: int)
    requires FieldsIn(fields, filters)
  {
    0 <= t < |data| && NoThrowBefore(fields, filters, data, t) && RecordOutcome(fields, filters, data[t], false) == Threw
  }

  /** Testing one more record extends the indices by it if it passes, and the no-throw prefix if it does not throw. */
  lemma MatchingStep(fields: seq<Column>, filters: map<string, Value>, data: seq<Record>, i: nat)
    requires FieldsIn(fields, filters) && i < |data|
    ensures Matching(fields, filters, data, i + 1) ==
      Matching(fields, filters, data, i) + (if RecordOutcome(fields, filters, data[i], false) == Matched then [i] else [])
    ensures NoThrowBefore(fields, filters, data, i + 1) <==>
      NoThrowBefore(fields, filters, data, i) && RecordOutcome(fields, filters, data[i], false) != Threw
  {
    var outcome := RecordOutcome(fields, filters, data[i], false);
    assert Matching(fields, filters, data, i + 1) ==
      Matching(fields, filters, data, i) + (if outcome == Matched then [i] else []);
    if NoThrowBefore(fields, filters, data, i + 1) {
      assert outcome != Threw;
    }
  }

  /**
   * `_data.filter(...)` with the per-record callback: the indices of the
   * records that pass, in increasing order; when a record makes the callback
   * throw (`ok` is false), the indices pushed before it.
   */
  method FilterIndices(fields: seq<Column>, filters: map<string, Value>, data: seq<Record>) returns (matched: seq<int>, ok: bool)
    requires FieldsIn(fields, filters)
    ensures ok ==> NoThrowBefore(fields, filters, data, |data|) && matched == Matching(fields, filters, data, |data|)
    ensures !ok ==> exists t :: ThrowsFirstAt(fields, filters, data, t) && matched == Matching(fields, filters, data, t)
  {
    matched := [];
    ok := true;
    var i := 0;
    while i < |data|
      invariant 0 <= i <= |data|
      invariant matched == Matching(fields, filters, data, i)
      invariant NoThrowBefore(fields, filters, data, i)
      invariant ok
    {
      var m := MatchRecord(fields, filters, data[i]);
      MatchingStep(fields, filters, data, i);
      if m == Threw {
        assert ThrowsFirstAt(fields, filters, data, i);
        return matched, false;
      }
      if m == Matched {
        matched := matched + [i];
      }
      i := i + 1;
    }
  }
}
