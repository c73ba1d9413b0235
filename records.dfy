/**
 * Operations on records of the data: finding a record again after a sort,
 * and the field-by-field patch `updateData` applies.
 */
module Records {
  import opened Values

  /** `Array.prototype.indexOf` on the data, with records compared by value. */
  function Find(s: seq<Record>, x: Record): (r: int)
    ensures -1 <= r < |s|
    ensures r == -1 <==> x !in s
    ensures r >= 0 ==> s[r] == x && x !in s[..r]
  {
    if s == [] then -1
    else if s[0] == x then 0
    else
      var r := Find(s[1..], x);
      if r == -1 then -1
      else
        assert s[..r + 1] == [s[0]] + s[1..][..r];
        r + 1
  }

  /**
   * Where a row position points once the records `before` are reordered into
   * `after`: at the first position of the record it pointed at, and nowhere
   * (`-1`) when that record is gone; a position that named no record is kept.
   */
  function Repointed(before: seq<Record>, position: int, after: seq<Record>): (p: int)
    ensures 0 <= position < |before| && before[position] in after ==>
      0 <= p < |after| && after[p] == before[position] && before[position] !in after[..p]
    ensures 0 <= position < |before| && before[position] !in after ==> p == -1
    ensures !(0 <= position < |before|) ==> p == position
  {
    if 0 <= position < |before| then Find(after, before[position]) else position
  }

  /** The fields `updateData` writes: named by a metadata entry, non-empty, and present in the patch. */
  function PatchKeys(patch: Record, metadata: seq<Column>): set<string> {
    set k | 0 <= k < |metadata| && metadata[k].field != "" && metadata[k].field in patch :: metadata[k].field
  }

  /**
   * The loop of `updateData` over the metadata, writing each listed field the
   * patch has: the result has the fields of the record plus the written ones;
   * a written field holds the patch's value and every other field keeps its own.
   */
  function Patched(record: Record, patch: Record, metadata: seq<Column>): (r: Record)
    ensures r.Keys == record.Keys + PatchKeys(patch, metadata)
    ensures forall key :: key in r ==> r[key] == if key in PatchKeys(patch, metadata) then patch[key] else record[key]
    decreases |metadata|
  {
    if metadata == [] then record
    else
      var key := metadata[0].field;
      PatchKeysCons(patch, metadata);
      Patched(if key != "" && key in patch then record[key := patch[key]] else record, patch, metadata[1..])
  }

  lemma PatchKeysCons(patch: Record, metadata: seq<Column>)
    requires metadata != []
    ensures PatchKeys(patch, metadata) ==
      PatchKeys(patch, metadata[1..]) + (if metadata[0].field != "" && metadata[0].field in patch then {metadata[0].field} else {})
  {
    var tail := metadata[1..];
    forall f | f in PatchKeys(patch, metadata)
      ensures f in PatchKeys(patch, tail) + (if metadata[0].field != "" && metadata[0].field in patch then {metadata[0].field} else {})
    {
      var k :| 0 <= k < |metadata| && metadata[k].field != "" && metadata[k].field in patch && metadata[k].field == f;
      if k > 0 { assert tail[k - 1].field == f; }
    }
    forall f | f in PatchKeys(patch, tail) ensures f in PatchKeys(patch, metadata) {
      var k :| 0 <= k < |tail| && tail[k].field != "" && tail[k].field in patch && tail[k].field == f;
      assert metadata[k + 1].field == f;
    }
  }
}
