/** The first pass of the conversion (src/main.rs:69-84, 115-152): dense
    surrogate keys for class identifiers and name identifiers, assigned in
    first-occurrence order. */
module IdMapping {
  import opened Hprof

  // ---------------------------------------------------------------------
  // The two update rules on an identifier table

  /** `ensure_id` (src/main.rs:76-80): a new identifier gets the value
      `len + 1`; a repeated one leaves the table as it is. */
  function Ensured(m: map<Id, int>, id: Id): map<Id, int> {
    if id in m then m else m[id := |m| + 1]
  }

  /** `insert_id` (src/main.rs:82-84): the identifier gets the value
      `len + 1` whether or not it was already present. */
  function Inserted(m: map<Id, int>, id: Id): map<Id, int> {
    m[id := |m| + 1]
  }

  /** `ensure_id` adds the identifier, numbers a new one `len + 1` and
      never renumbers an identifier already present. */
  lemma EnsuredFacts(m: map<Id, int>, id: Id)
    ensures Ensured(m, id).Keys == m.Keys + {id}
    ensures forall k | k in m :: Ensured(m, id)[k] == m[k]
    ensures id !in m ==> Ensured(m, id)[id] == |m| + 1 && |Ensured(m, id)| == |m| + 1
  {
  }

  /** `insert_id` renumbers a present identifier to `len + 1` without
      growing the table, and agrees with `ensure_id` on a new one. */
  lemma InsertedFacts(m: map<Id, int>, id: Id)
    ensures Inserted(m, id).Keys == m.Keys + {id}
    ensures Inserted(m, id)[id] == |m| + 1
    ensures |Inserted(m, id)| == if id in m then |m| else |m| + 1
    ensures forall k | k in m && k != id :: Inserted(m, id)[k] == m[k]
    ensures id !in m ==> Inserted(m, id) == Ensured(m, id)
  {
  }

  /** The table after `ensure_id` for every identifier of `ids`, in order. */
  function EnsureAll(m: map<Id, int>, ids: seq<Id>): map<Id, int> {
    if ids == [] then m else Ensured(EnsureAll(m, ids[..|ids| - 1]), ids[|ids| - 1])
  }

  /** The table after `insert_id` for every identifier of `ids`, in order. */
  function InsertAll(m: map<Id, int>, ids: seq<Id>): map<Id, int> {
    if ids == [] then m else Inserted(InsertAll(m, ids[..|ids| - 1]), ids[|ids| - 1])
  }

  /** The distinct identifiers of `ids` in order of first occurrence. */
  function FirstOccurrences(ids: seq<Id>): (d: seq<Id>)
    ensures forall x :: x in d <==> x in ids
  {
    if ids == [] then []
    else
      var d := FirstOccurrences(ids[..|ids| - 1]);
      if ids[|ids| - 1] in d then d else d + [ids[|ids| - 1]]
  }

  // ---------------------------------------------------------------------
  // Density

  /** The table numbers the identifiers of `order` as 1, 2, ..., in that
      order, and holds nothing else. */
  ghost predicate NumbersInOrder(m: map<Id, int>, order: seq<Id>) {
    && |order| == |m|
    && (forall k :: k in m <==> k in order)
    && (forall i :: 0 <= i < |order| ==> order[i] in m && m[order[i]] == i + 1)
  }

  ghost predicate Injective(m: map<Id, int>) {
    forall a, b | a in m && b in m && m[a] == m[b] :: a == b
  }

  /** The surrogate values are exactly 1..|m|, each used once. */
  ghost predicate Dense(m: map<Id, int>) {
    && (forall v :: v in m.Values <==> 1 <= v <= |m|)
    && Injective(m)
  }

  lemma NumbersInOrderIsDense(m: map<Id, int>, order: seq<Id>)
    requires NumbersInOrder(m, order)
    ensures Dense(m)
  {
    forall v | v in m.Values ensures 1 <= v <= |m| {
      var k :| k in m && m[k] == v;
      var i :| 0 <= i < |order| && order[i] == k;
    }
    forall v | 1 <= v <= |m| ensures v in m.Values {
      assert m[order[v - 1]] == v;
    }
    forall a, b | a in m && b in m && m[a] == m[b] ensures a == b {
      var i :| 0 <= i < |order| && order[i] == a;
      var j :| 0 <= j < |order| && order[j] == b;
    }
  }

  /** `ensure_id` keeps the numbering in first-occurrence order. */
  lemma EnsuredKeepsOrder(m: map<Id, int>, order: seq<Id>, id: Id)
    requires NumbersInOrder(m, order)
    ensures NumbersInOrder(Ensured(m, id), if id in order then order else order + [id])
  {
  }

  /** After the whole stream, the class table numbers the distinct
      identifiers 1..N in order of first occurrence. */
  lemma {:induction false} EnsureAllNumbersFirstOccurrences(ids: seq<Id>)
    ensures NumbersInOrder(EnsureAll(map[], ids), FirstOccurrences(ids))
  {
    if ids != [] {
      EnsureAllNumbersFirstOccurrences(ids[..|ids| - 1]);
      EnsuredKeepsOrder(EnsureAll(map[], ids[..|ids| - 1]), FirstOccurrences(ids[..|ids| - 1]), ids[|ids| - 1]);
    }
  }

  /** Density of the class table, for every stream. */
  lemma EnsureAllDense(ids: seq<Id>)
    ensures Dense(EnsureAll(map[], ids))
    ensures EnsureAll(map[], ids).Keys == set x | x in ids
  {
    EnsureAllNumbersFirstOccurrences(ids);
    NumbersInOrderIsDense(EnsureAll(map[], ids), FirstOccurrences(ids));
  }

  ghost predicate Distinct(ids: seq<Id>) {
    forall i, j | 0 <= i < j < |ids| :: ids[i] != ids[j]
  }

  /** With distinct identifiers `insert_id` and `ensure_id` agree, so the
      name table is dense too. */
  lemma {:induction false} InsertAllDistinct(ids: seq<Id>)
    requires Distinct(ids)
    ensures InsertAll(map[], ids) == EnsureAll(map[], ids)
    ensures |InsertAll(map[], ids)| == |ids|
    ensures forall k | k in InsertAll(map[], ids) :: k in ids
  {
    if ids != [] {
      var front := ids[..|ids| - 1];
      InsertAllDistinct(front);
      assert ids[|ids| - 1] !in front;
    }
  }

  lemma InsertAllDistinctDense(ids: seq<Id>)
    requires Distinct(ids)
    ensures Dense(InsertAll(map[], ids))
  {
    InsertAllDistinct(ids);
    EnsureAllDense(ids);
  }

  /** Once the name table has lost density, `insert_id` never restores it:
      a new identifier would need the old table dense already, and a
      repeated one gets `len + 1`, outside 1..len. */
  lemma NotDenseStaysNotDense(m: map<Id, int>, id: Id)
    requires !Dense(m)
    ensures !Dense(Inserted(m, id))
  {
    var m' := Inserted(m, id);
    if id in m {
      assert |m'| == |m|;
      assert m'[id] in m'.Values;
    } else if Dense(m') {
      assert |m'| == |m| + 1;
      forall v | v in m.Values ensures 1 <= v <= |m| {
        var k :| k in m && m[k] == v;
        assert m'[k] == v && k != id;
        assert v in m'.Values;
        assert m'[id] == |m| + 1;
        assert v != |m| + 1;
      }
      forall v | 1 <= v <= |m| ensures v in m.Values {
        assert v in m'.Values;
        var k :| k in m' && m'[k] == v;
        assert k != id;
        assert m[k] == v;
      }
      forall a, b | a in m && b in m && m[a] == m[b] ensures a == b {
        assert m'[a] == m[a] && m'[b] == m[b];
      }
      assert Dense(m);
    }
  }

  /** Any repeated name identifier leaves the name table without density,
      whatever the rest of the stream. */
  lemma {:induction false} RepeatBreaksDensity(ids: seq<Id>)
    requires !Distinct(ids)
    ensures !Dense(InsertAll(map[], ids))
  {
    var front := ids[..|ids| - 1];
    var last := ids[|ids| - 1];
    if !Distinct(front) {
      RepeatBreaksDensity(front);
      NotDenseStaysNotDense(InsertAll(map[], front), last);
    } else {
      var i, j :| 0 <= i < j < |ids| && ids[i] == ids[j];
      assert j == |ids| - 1 && front[i] == last;
      InsertAllDistinct(front);
      EnsureAllDense(front);
      var m := InsertAll(map[], front);
      assert last in m;
      assert InsertAll(map[], ids)[last] == |m| + 1;
      assert |InsertAll(map[], ids)| == |m|;
      assert InsertAll(map[], ids)[last] in InsertAll(map[], ids).Values;
    }
  }

  /** The name table is dense exactly when no name identifier repeats. */
  lemma InsertAllDenseIffDistinct(ids: seq<Id>)
    ensures Dense(InsertAll(map[], ids)) <==> Distinct(ids)
  {
    if Distinct(ids) {
      InsertAllDistinctDense(ids);
    } else {
      RepeatBreaksDensity(ids);
    }
  }

  /** A repeated name identifier breaks density: for the stream `a b a c`
      the surrogate 1 is never used and `a` and `c` share the surrogate 3. */
  lemma RepeatedNameCollides(a: Id, b: Id, c: Id)
    requires a != b && a != c && b != c
    ensures var m := InsertAll(map[], [a, b, a, c]);
      a in m && b in m && c in m && m[a] == 3 && m[c] == 3 && m[b] == 2 && !Injective(m) && !Dense(m)
  {
    var ids := [a, b, a, c];
    assert [a][..0] == [];
    assert InsertAll(map[], []) == map[];
    var m1 := InsertAll(map[], [a]);
    assert m1 == map[a := 1];
    assert [a, b][..1] == [a];
    var m2 := InsertAll(map[], [a, b]);
    assert m2 == map[a := 1, b := 2];
    assert [a, b, a][..2] == [a, b];
    var m3 := InsertAll(map[], [a, b, a]);
    assert m3 == map[a := 3, b := 2];
    assert ids[..3] == [a, b, a];
    var m := InsertAll(map[], ids);
    assert m == map[a := 3, b := 2, c := 3];
    assert 1 !in m.Values;
  }

  // ---------------------------------------------------------------------
  // The mutable table and the pass over the records

  /** A `HashMap<Id, i64>` that the pass fills in place. */
  class IdMap {
    var ids: map<Id, int>

    constructor ()
      ensures ids == map[]
    {
      ids := map[];
    }

    method EnsureId(id: Id)
      modifies this
      ensures ids == Ensured(old(ids), id)
    {
      if id !in ids {
        ids := ids[id := |ids| + 1];
      }
    }

    method InsertId(id: Id)
      modifies this
      ensures ids == Inserted(old(ids), id)
    {
      ids := ids[id := |ids| + 1];
    }
  }

  /** The class and name tables the second pass reads. */
  datatype Mapping = Mapping(classIds: map<Id, int>, nameIds: map<Id, int>)

  /** Class identifiers as the first pass meets them: those of class
      definitions inside heap-dump segments and those of class-load records. */
  function SubRecordClassIds(subs: seq<SubRecord>): seq<Id> {
    if subs == [] then []
    else
      var last := subs[|subs| - 1];
      SubRecordClassIds(subs[..|subs| - 1]) + (if last.ClassDump? then [last.classDef.objId] else [])
  }

  function RecordClassIds(r: Record): seq<Id> {
    match r
    case HeapDumpSegment(subs) => SubRecordClassIds(subs)
    case LoadClass(classObjId, _) => [classObjId]
    case _ => []
  }

  function ClassIdStream(records: seq<Record>): seq<Id> {
    if records == [] then []
    else ClassIdStream(records[..|records| - 1]) + RecordClassIds(records[|records| - 1])
  }

  /** Name identifiers of the name-pool records, in stream order. */
  function NameIdStream(records: seq<Record>): seq<Id> {
    if records == [] then []
    else
      var last := records[|records| - 1];
      NameIdStream(records[..|records| - 1]) + (if last.Utf8? then [last.nameId] else [])
  }

  lemma SubRecordClassIdsNext(seen: seq<Id>, subs: seq<SubRecord>, j: nat)
    requires j < |subs|
    ensures seen + SubRecordClassIds(subs[..j + 1])
      == seen + SubRecordClassIds(subs[..j]) + (if subs[j].ClassDump? then [subs[j].classDef.objId] else [])
  {
    assert subs[..j + 1][..j] == subs[..j];
  }

  lemma EnsureAllNext(seen: seq<Id>, id: Id)
    ensures EnsureAll(map[], seen + [id]) == Ensured(EnsureAll(map[], seen), id)
  {
    assert (seen + [id])[..|seen|] == seen;
  }

  /** The inner loop of `map_ids` over one heap-dump segment
      (src/main.rs:126-137): `ensure_id` for each class definition. */
  method EnsureSegmentClassIds(classIds: IdMap, ghost seen: seq<Id>, subs: seq<SubRecord>)
    requires classIds.ids == EnsureAll(map[], seen)
    modifies classIds
    ensures classIds.ids == EnsureAll(map[], seen + SubRecordClassIds(subs))
  {
    assert subs[..0] == [];
    assert seen + [] == seen;
    for j := 0 to |subs|
      invariant classIds.ids == EnsureAll(map[], seen + SubRecordClassIds(subs[..j]))
    {
      ghost var before := seen + SubRecordClassIds(subs[..j]);
      SubRecordClassIdsNext(seen, subs, j);
      match subs[j]
      case ClassDump(c) =>
        classIds.EnsureId(c.objId);
        EnsureAllNext(before, c.objId);
      case _ =>
        assert before + [] == before;
    }
    assert subs[..|subs|] == subs;
  }

  /** The body of the loop of `map_ids` for one record
      (src/main.rs:124-147). */
  method MapRecord(classIds: IdMap, nameIds: IdMap, ghost seenClasses: seq<Id>, ghost seenNames: seq<Id>, r: Record)
    requires classIds != nameIds
    requires classIds.ids == EnsureAll(map[], seenClasses)
    requires nameIds.ids == InsertAll(map[], seenNames)
    modifies classIds, nameIds
    ensures classIds.ids == EnsureAll(map[], seenClasses + RecordClassIds(r))
    ensures nameIds.ids == InsertAll(map[], seenNames + (if r.Utf8? then [r.nameId] else []))
  {
    match r
    case HeapDumpSegment(subs) =>
      EnsureSegmentClassIds(classIds, seenClasses, subs);
      assert seenNames + [] == seenNames;
    case LoadClass(classObjId, _) =>
      classIds.EnsureId(classObjId);
      assert (seenClasses + [classObjId])[..|seenClasses|] == seenClasses;
      assert seenNames + [] == seenNames;
    case Utf8(nameId, _) =>
      nameIds.InsertId(nameId);
      assert (seenNames + [nameId])[..|seenNames|] == seenNames;
      assert seenClasses + [] == seenClasses;
    case OtherRecord =>
      assert seenClasses + [] == seenClasses;
      assert seenNames + [] == seenNames;
  }

  /** `map_ids` (src/main.rs:115-152): one pass over the records fills the
      class table with `ensure_id` and the name table with `insert_id`. */
  method MapIds(records: seq<Record>) returns (mapping: Mapping)
    ensures mapping.classIds == EnsureAll(map[], ClassIdStream(records))
    ensures mapping.nameIds == InsertAll(map[], NameIdStream(records))
    ensures Dense(mapping.classIds)
    ensures mapping.classIds.Keys == set x | x in ClassIdStream(records)
    ensures Dense(mapping.nameIds) <==> Distinct(NameIdStream(records))
  {
    var classIds := new IdMap();
    var nameIds := new IdMap();
    for r := 0 to |records|
      invariant classIds.ids == EnsureAll(map[], ClassIdStream(records[..r]))
      invariant nameIds.ids == InsertAll(map[], NameIdStream(records[..r]))
    {
      assert records[..r + 1][..r] == records[..r];
      MapRecord(classIds, nameIds, ClassIdStream(records[..r]), NameIdStream(records[..r]), records[r]);
    }
    assert records[..|records|] == records;
    mapping := Mapping(classIds.ids, nameIds.ids);
    EnsureAllDense(ClassIdStream(records));
    InsertAllDenseIffDistinct(NameIdStream(records));
  }
}
