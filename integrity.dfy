/** The row ids the model hands out stand for real rows: the two counters
    equal the number of `hprof_obj_id` and `field` rows written, and every
    surrogate a later row uses points at a row already written. This is what
    justifies reading `last_insert_rowid` as a counter, and it holds of the
    committed rows of every run of `parse_records`. */
module Integrity {
  import opened Wrappers
  import opened Hprof
  import opened TypeTags
  import opened Text
  import opened IdMapping
  import opened Loader
  import opened LoaderFacts

  function CountObjIdRows(rows: seq<Row>): nat {
    if rows == [] then 0 else CountObjIdRows(rows[..|rows| - 1]) + (if rows[|rows| - 1].ObjIdRow? then 1 else 0)
  }

  function CountFieldRows(rows: seq<Row>): nat {
    if rows == [] then 0 else CountFieldRows(rows[..|rows| - 1]) + (if rows[|rows| - 1].FieldRow? then 1 else 0)
  }

  lemma {:induction false} CountsAppend(a: seq<Row>, b: seq<Row>)
    ensures CountObjIdRows(a + b) == CountObjIdRows(a) + CountObjIdRows(b)
    ensures CountFieldRows(a + b) == CountFieldRows(a) + CountFieldRows(b)
    decreases |b|
  {
    if b == [] {
      assert a + b == a;
    } else {
      assert (a + b)[..|a + b| - 1] == a + b[..|b| - 1];
      CountsAppend(a, b[..|b| - 1]);
    }
  }

  /** The surrogates a row refers to exist: object surrogates among the
      first `objIds` `hprof_obj_id` rows, field ids among the first
      `fieldIds` `field` rows. */
  predicate RowRefsIn(row: Row, objIds: int, fieldIds: int) {
    match row
    case InstanceRow(id, _) => 1 <= id <= objIds
    case ObjArrayRow(id, _, _) => 1 <= id <= objIds
    case PrimitiveArrayRow(id, _, _, _) => 1 <= id <= objIds
    case ObjArrayItemRow(arrayId, _, _) => 1 <= arrayId <= objIds
    case FieldValueRow(instance, fieldId, _) => 1 <= instance <= objIds && 1 <= fieldId <= fieldIds
    case _ => true
  }

  ghost predicate FieldIdsIn(infos: map<Id, ClassInfo>, fieldIds: int) {
    forall c | c in infos :: forall i | 0 <= i < |infos[c].fieldIds| :: 1 <= infos[c].fieldIds[i] <= fieldIds
  }

  ghost predicate Consistent(st: Store) {
    && st.instanceId == CountObjIdRows(st.rows)
    && st.fieldRowId == CountFieldRows(st.rows)
    && FieldIdsIn(st.classInfos, st.fieldRowId)
    && (forall k | 0 <= k < |st.rows| :: RowRefsIn(st.rows[k], st.instanceId, st.fieldRowId))
  }

  /** A store grown by `extra` rows, with the counters advanced by the rows
      of each table among them, stays consistent. */
  lemma Extend(st: Store, st': Store, extra: seq<Row>)
    requires Consistent(st)
    requires st'.rows == st.rows + extra
    requires st'.instanceId == st.instanceId + CountObjIdRows(extra)
    requires st'.fieldRowId == st.fieldRowId + CountFieldRows(extra)
    requires forall k | 0 <= k < |extra| :: RowRefsIn(extra[k], st'.instanceId, st'.fieldRowId)
    requires FieldIdsIn(st'.classInfos, st'.fieldRowId)
    ensures Consistent(st')
    ensures st.rows <= st'.rows
  {
    CountsAppend(st.rows, extra);
    forall k | 0 <= k < |st'.rows| ensures RowRefsIn(st'.rows[k], st'.instanceId, st'.fieldRowId) {
      if k < |st.rows| {
        assert RowRefsIn(st.rows[k], st.instanceId, st.fieldRowId);
      } else {
        assert st'.rows[k] == extra[k - |st.rows|];
      }
    }
  }

  lemma {:induction false} FieldRowsCounts(mapping: Mapping, classId: int, fields: seq<FieldDescriptor>, n: nat)
    requires n <= |fields|
    requires forall i | 0 <= i < n :: fields[i].nameId in mapping.nameIds
    ensures CountObjIdRows(FieldRows(mapping, classId, fields, n)) == 0
    ensures CountFieldRows(FieldRows(mapping, classId, fields, n)) == n
  {
    if n > 0 {
      FieldRowsCounts(mapping, classId, fields, n - 1);
      var front := FieldRows(mapping, classId, fields, n - 1);
      var fd := fields[n - 1];
      CountsAppend(front, [FieldRow(classId, mapping.nameIds[fd.nameId], n - 1, FieldTypeId(fd.fieldType))]);
      assert [FieldRow(classId, mapping.nameIds[fd.nameId], n - 1, FieldTypeId(fd.fieldType))][..0] == [];
    }
  }

  lemma LoadClassKeepsConsistent(mapping: Mapping, st: Store, classObjId: Id, classNameId: Id)
    requires Consistent(st)
    requires LoadClassStep(mapping, st, classObjId, classNameId).Ok?
    ensures Consistent(LoadClassStep(mapping, st, classObjId, classNameId).value)
    ensures st.rows <= LoadClassStep(mapping, st, classObjId, classNameId).value.rows
  {
    var st' := LoadClassStep(mapping, st, classObjId, classNameId).value;
    var extra := st'.rows[|st.rows|..];
    assert st'.rows == st.rows + extra;
    if |extra| == 1 {
      assert extra == [extra[0]] && extra[0].ClassRow? && [extra[0]][..0] == [];
    } else {
      assert extra == [];
    }
    Extend(st, st', extra);
  }

  lemma ProcessClassUnfold(mapping: Mapping, st: Store, c: Class)
    requires ProcessClassStep(mapping, st, c).Ok?
    ensures RegisterClass(mapping, st, c).Ok? && NamesMapped(mapping, c.fieldDescriptors)
    ensures var (info, rows) := RegisterClass(mapping, st, c).value;
      var n := |c.fieldDescriptors|;
      ProcessClassStep(mapping, st, c).value
        == Store(st.classInfos[c.objId := info.(fields := c.fieldDescriptors, fieldIds := info.fieldIds + NewFieldIds(st.fieldRowId, n))],
                 st.instanceId, st.fieldRowId + n, rows + FieldRows(mapping, info.id, c.fieldDescriptors, n))
  {
  }

  lemma RegisterClassRows(mapping: Mapping, st: Store, c: Class) returns (classRows: seq<Row>)
    requires RegisterClass(mapping, st, c).Ok?
    ensures RegisterClass(mapping, st, c).value.1 == st.rows + classRows
    ensures CountObjIdRows(classRows) == 0 && CountFieldRows(classRows) == 0
    ensures forall k | 0 <= k < |classRows| :: classRows[k].ClassRow?
    ensures c.objId in st.classInfos ==> RegisterClass(mapping, st, c).value.0.fieldIds == st.classInfos[c.objId].fieldIds
    ensures c.objId !in st.classInfos ==> RegisterClass(mapping, st, c).value.0.fieldIds == []
  {
    if c.objId in st.classInfos {
      var info := st.classInfos[c.objId].(superId := c.superClassObjId, instanceSize := c.instanceSizeBytes);
      classRows := [ClassRowOf(mapping, info).value];
      assert classRows[..0] == [];
    } else {
      classRows := [];
    }
  }

  lemma ProcessClassFieldIds(mapping: Mapping, st: Store, c: Class)
    requires st.fieldRowId >= 0
    requires FieldIdsIn(st.classInfos, st.fieldRowId)
    requires ProcessClassStep(mapping, st, c).Ok?
    ensures FieldIdsIn(ProcessClassStep(mapping, st, c).value.classInfos, ProcessClassStep(mapping, st, c).value.fieldRowId)
  {
    ProcessClassUnfold(mapping, st, c);
    var classRows := RegisterClassRows(mapping, st, c);
    var st' := ProcessClassStep(mapping, st, c).value;
    var n := |c.fieldDescriptors|;
    NewFieldIdsShape(st.fieldRowId, n);
    var oldIds := RegisterClass(mapping, st, c).value.0.fieldIds;
    assert st'.fieldRowId == st.fieldRowId + n;
    assert forall i | 0 <= i < |oldIds| :: 1 <= oldIds[i] <= st.fieldRowId;
    var ids := st'.classInfos[c.objId].fieldIds;
    assert ids == oldIds + NewFieldIds(st.fieldRowId, n);
    forall i | 0 <= i < |ids| ensures 1 <= ids[i] <= st'.fieldRowId {
      if i >= |oldIds| {
        assert ids[i] == NewFieldIds(st.fieldRowId, n)[i - |oldIds|];
      } else {
        assert ids[i] == oldIds[i];
      }
    }
  }

  /** Class rows followed by field rows are rows of those two tables only,
      and they count as the field rows among them. */
  lemma ClassThenFieldRows(classRows: seq<Row>, fieldRows: seq<Row>)
    requires forall k | 0 <= k < |classRows| :: classRows[k].ClassRow?
    requires forall k | 0 <= k < |fieldRows| :: fieldRows[k].FieldRow?
    requires CountObjIdRows(classRows) == 0 && CountFieldRows(classRows) == 0
    ensures CountObjIdRows(classRows + fieldRows) == CountObjIdRows(fieldRows)
    ensures CountFieldRows(classRows + fieldRows) == CountFieldRows(fieldRows)
    ensures forall k | 0 <= k < |classRows + fieldRows| :: (classRows + fieldRows)[k].ClassRow? || (classRows + fieldRows)[k].FieldRow?
  {
    CountsAppend(classRows, fieldRows);
    var extra := classRows + fieldRows;
    forall k | 0 <= k < |extra| ensures extra[k].ClassRow? || extra[k].FieldRow? {
      if k >= |classRows| {
        assert extra[k] == fieldRows[k - |classRows|];
      } else {
        assert extra[k] == classRows[k];
      }
    }
  }

  /** The `field` rows of a class are `field` rows only, one per descriptor. */
  lemma FieldRowsKinds(mapping: Mapping, classId: int, fields: seq<FieldDescriptor>)
    requires forall i | 0 <= i < |fields| :: fields[i].nameId in mapping.nameIds
    ensures var rows := FieldRows(mapping, classId, fields, |fields|);
      && CountObjIdRows(rows) == 0 && CountFieldRows(rows) == |fields|
      && forall k | 0 <= k < |rows| :: rows[k].FieldRow?
  {
    FieldRowsCounts(mapping, classId, fields, |fields|);
    FieldRowsShape(mapping, classId, fields, |fields|);
  }

  /** A store grown by class rows and then `n` field rows, given as `st'`. */
  lemma ClassStoreRows(st: Store, st': Store, classRows: seq<Row>, fieldRows: seq<Row>, n: nat) returns (extra: seq<Row>)
    requires forall k | 0 <= k < |classRows| :: classRows[k].ClassRow?
    requires CountObjIdRows(classRows) == 0 && CountFieldRows(classRows) == 0
    requires forall k | 0 <= k < |fieldRows| :: fieldRows[k].FieldRow?
    requires CountObjIdRows(fieldRows) == 0 && CountFieldRows(fieldRows) == n
    requires st'.rows == st.rows + classRows + fieldRows
    requires st'.instanceId == st.instanceId && st'.fieldRowId == st.fieldRowId + n
    ensures && st'.rows == st.rows + extra
      && st'.instanceId == st.instanceId + CountObjIdRows(extra)
      && st'.fieldRowId == st.fieldRowId + CountFieldRows(extra)
      && forall k | 0 <= k < |extra| :: extra[k].ClassRow? || extra[k].FieldRow?
  {
    ClassThenFieldRows(classRows, fieldRows);
    extra := classRows + fieldRows;
    assert st.rows + classRows + fieldRows == st.rows + extra;
  }

  /** The rows `process_class` writes: at most one class row, then the
      field rows. */
  lemma ProcessClassRows(mapping: Mapping, st: Store, c: Class) returns (extra: seq<Row>)
    requires ProcessClassStep(mapping, st, c).Ok?
    ensures var st' := ProcessClassStep(mapping, st, c).value;
      && st'.rows == st.rows + extra
      && st'.instanceId == st.instanceId + CountObjIdRows(extra)
      && st'.fieldRowId == st.fieldRowId + CountFieldRows(extra)
      && forall k | 0 <= k < |extra| :: extra[k].ClassRow? || extra[k].FieldRow?
  {
    ProcessClassUnfold(mapping, st, c);
    var classRows := RegisterClassRows(mapping, st, c);
    var info := RegisterClass(mapping, st, c).value.0;
    var n := |c.fieldDescriptors|;
    var fieldRows := FieldRows(mapping, info.id, c.fieldDescriptors, n);
    FieldRowsKinds(mapping, info.id, c.fieldDescriptors);
    extra := ClassStoreRows(st, ProcessClassStep(mapping, st, c).value, classRows, fieldRows, n);
  }

  lemma ProcessClassKeepsConsistent(mapping: Mapping, st: Store, c: Class)
    requires Consistent(st)
    requires ProcessClassStep(mapping, st, c).Ok?
    ensures Consistent(ProcessClassStep(mapping, st, c).value)
    ensures st.rows <= ProcessClassStep(mapping, st, c).value.rows
  {
    var extra := ProcessClassRows(mapping, st, c);
    ProcessClassFieldIds(mapping, st, c);
    Extend(st, ProcessClassStep(mapping, st, c).value, extra);
  }

  lemma {:induction false} NoCountedRows(rows: seq<Row>)
    requires forall k | 0 <= k < |rows| :: !rows[k].ObjIdRow? && !rows[k].FieldRow?
    ensures CountObjIdRows(rows) == 0 && CountFieldRows(rows) == 0
  {
    if rows != [] {
      NoCountedRows(rows[..|rows| - 1]);
    }
  }

  /** The `field_value` rows of an instance walk carry field ids of the
      classes walked, hence ids of `field` rows already written. */
  lemma {:induction false} DecodeWalkFieldIds(infos: map<Id, ClassInfo>, cur: Id, visited: set<Id>, size: IdSize, instance: int, input: seq<Byte>, bound: int)
    requires FieldIdsIn(infos, bound)
    requires DecodeWalk(infos, cur, visited, size, instance, input).Ok?
    ensures var rows := DecodeWalk(infos, cur, visited, size, instance, input).value.0;
      forall k | 0 <= k < |rows| :: rows[k].FieldValueRow? && 1 <= rows[k].fieldId <= bound
    decreases infos.Keys - visited
  {
    var info := infos[cur];
    var n := |info.fields|;
    DecodeFieldsFacts(info, n, size, instance, input);
    var (rows, rest) := DecodeFields(info, n, size, instance, input).value;
    forall k | 0 <= k < |rows| ensures rows[k].FieldValueRow? && 1 <= rows[k].fieldId <= bound {
      assert RowOfReferenceField(info, n, instance, rows[k]);
      var i :| 0 <= i < n && i < |info.fieldIds| && info.fields[i].fieldType == ObjectId && rows[k].fieldId == info.fieldIds[i];
      assert 1 <= infos[cur].fieldIds[i] <= bound;
    }
    if info.superId.Some? {
      DecodeWalkFieldIds(infos, info.superId.value, visited + {cur}, size, instance, rest, bound);
    }
  }

  /** The rows of one instance: its `hprof_obj_id` row, its `instance` row,
      then `field_value` rows of that instance. */
  lemma InstanceExtra(objId: Id, id: int, classRowId: int, walkRows: seq<Row>, fieldIds: int)
    requires id >= 1
    requires forall k | 0 <= k < |walkRows| ::
      walkRows[k].FieldValueRow? && walkRows[k].instanceId == id && 1 <= walkRows[k].fieldId <= fieldIds
    ensures var extra := [ObjIdRow(objId), InstanceRow(id, classRowId)] + walkRows;
      && CountObjIdRows(extra) == 1 && CountFieldRows(extra) == 0
      && forall k | 0 <= k < |extra| :: RowRefsIn(extra[k], id, fieldIds)
  {
    var head := [ObjIdRow(objId), InstanceRow(id, classRowId)];
    var extra := head + walkRows;
    NoCountedRows(walkRows);
    NoCountedRows([InstanceRow(id, classRowId)]);
    assert head == [ObjIdRow(objId)] + [InstanceRow(id, classRowId)];
    CountsAppend([ObjIdRow(objId)], [InstanceRow(id, classRowId)]);
    assert [ObjIdRow(objId)][..0] == [];
    CountsAppend(head, walkRows);
    forall k | 0 <= k < |extra| ensures RowRefsIn(extra[k], id, fieldIds) {
      if k >= 2 {
        assert extra[k] == walkRows[k - 2];
      }
    }
  }

  /** A store grown by one instance's rows, given as `st'`. */
  lemma InstanceStoreRows(st: Store, st': Store, objId: Id, classRowId: int, walkRows: seq<Row>) returns (extra: seq<Row>)
    requires st.instanceId >= 0
    requires forall k | 0 <= k < |walkRows| ::
      walkRows[k].FieldValueRow? && walkRows[k].instanceId == st.instanceId + 1 && 1 <= walkRows[k].fieldId <= st.fieldRowId
    requires st' == st.(instanceId := st.instanceId + 1,
                        rows := st.rows + [ObjIdRow(objId), InstanceRow(st.instanceId + 1, classRowId)] + walkRows)
    ensures && st'.rows == st.rows + extra
      && st'.classInfos == st.classInfos
      && st'.instanceId == st.instanceId + CountObjIdRows(extra)
      && st'.fieldRowId == st.fieldRowId + CountFieldRows(extra)
      && forall k | 0 <= k < |extra| :: RowRefsIn(extra[k], st'.instanceId, st'.fieldRowId)
  {
    InstanceExtra(objId, st.instanceId + 1, classRowId, walkRows, st.fieldRowId);
    extra := [ObjIdRow(objId), InstanceRow(st.instanceId + 1, classRowId)] + walkRows;
    assert st.rows + [ObjIdRow(objId), InstanceRow(st.instanceId + 1, classRowId)] + walkRows == st.rows + extra;
  }

  /** The rows `process_instance` writes, with the counters it advances. */
  lemma InstanceStepRows(size: IdSize, st: Store, inst: Instance) returns (extra: seq<Row>)
    requires st.instanceId >= 0
    requires FieldIdsIn(st.classInfos, st.fieldRowId)
    requires InstanceStep(size, st, inst).Ok?
    ensures var st' := InstanceStep(size, st, inst).value;
      && st'.rows == st.rows + extra
      && st'.classInfos == st.classInfos
      && st'.instanceId == st.instanceId + CountObjIdRows(extra)
      && st'.fieldRowId == st.fieldRowId + CountFieldRows(extra)
      && forall k | 0 <= k < |extra| :: RowRefsIn(extra[k], st'.instanceId, st'.fieldRowId)
  {
    var id := st.instanceId + 1;
    InstanceStepShape(size, st, inst);
    DecodeWalkRows(st.classInfos, inst.classObjId, {}, size, id, inst.fields);
    DecodeWalkFieldIds(st.classInfos, inst.classObjId, {}, size, id, inst.fields, st.fieldRowId);
    var walkRows := DecodeWalk(st.classInfos, inst.classObjId, {}, size, id, inst.fields).value.0;
    extra := InstanceStoreRows(st, InstanceStep(size, st, inst).value, inst.objId, st.classInfos[inst.classObjId].id, walkRows);
  }

  lemma InstanceKeepsConsistent(size: IdSize, st: Store, inst: Instance)
    requires Consistent(st)
    requires InstanceStep(size, st, inst).Ok?
    ensures Consistent(InstanceStep(size, st, inst).value)
    ensures st.rows <= InstanceStep(size, st, inst).value.rows
  {
    var extra := InstanceStepRows(size, st, inst);
    Extend(st, InstanceStep(size, st, inst).value, extra);
  }

  lemma ObjectArrayKeepsConsistent(st: Store, a: ObjectArray)
    requires Consistent(st)
    requires ObjectArrayStep(st, a).Ok?
    ensures Consistent(ObjectArrayStep(st, a).value)
    ensures st.rows <= ObjectArrayStep(st, a).value.rows
  {
    var st' := ObjectArrayStep(st, a).value;
    var id := st.instanceId + 1;
    var n := |a.elements|;
    ItemRowsShape(id, a.elements, n);
    var items := ItemRows(id, a.elements, n);
    var arrayRow := ObjArrayRow(id, st.classInfos[a.arrayClassObjId].id, n);
    var rest := [arrayRow] + items;
    var extra := [ObjIdRow(a.objId)] + rest;
    assert st'.rows == st.rows + extra;
    forall k | 0 <= k < |rest| ensures !rest[k].ObjIdRow? && !rest[k].FieldRow? {
      if k >= 1 {
        assert rest[k] == items[k - 1];
      }
    }
    NoCountedRows(rest);
    CountsAppend([ObjIdRow(a.objId)], rest);
    assert [ObjIdRow(a.objId)][..0] == [];
    forall k | 0 <= k < |extra| ensures RowRefsIn(extra[k], st'.instanceId, st'.fieldRowId) {
      if k >= 2 {
        assert extra[k] == items[k - 2];
      }
    }
    Extend(st, st', extra);
  }

  lemma PrimitiveArrayKeepsConsistent(st: Store, a: PrimitiveArray)
    requires Consistent(st)
    requires PrimitiveArrayStep(st, a).Ok?
    ensures Consistent(PrimitiveArrayStep(st, a).value)
    ensures st.rows <= PrimitiveArrayStep(st, a).value.rows
  {
    var text := PrimitiveArrayText(a.elements).value;
    var id := st.instanceId + 1;
    var row := PrimitiveArrayRow(id, PrimitiveArrayTypeId(a.elements.ElementType()), a.elements.Length(), text);
    var st' := st.(instanceId := id, rows := st.rows + [ObjIdRow(a.objId), row]);
    assert PrimitiveArrayStep(st, a).value == st';
    var extra := [ObjIdRow(a.objId), row];
    assert st'.rows == st.rows + extra;
    assert extra == [ObjIdRow(a.objId)] + [row];
    NoCountedRows([row]);
    CountsAppend([ObjIdRow(a.objId)], [row]);
    assert [ObjIdRow(a.objId)][..0] == [];
    Extend(st, st', extra);
  }

  lemma SubRecordKeepsConsistent(mapping: Mapping, size: IdSize, st: Store, sub: SubRecord)
    requires Consistent(st)
    requires SubRecordStep(mapping, size, st, sub).Ok?
    ensures Consistent(SubRecordStep(mapping, size, st, sub).value)
    ensures st.rows <= SubRecordStep(mapping, size, st, sub).value.rows
  {
    match sub
    case ClassDump(c) => ProcessClassKeepsConsistent(mapping, st, c);
    case InstanceDump(inst) => InstanceKeepsConsistent(size, st, inst);
    case ObjectArrayDump(a) => ObjectArrayKeepsConsistent(st, a);
    case PrimitiveArrayDump(a) => PrimitiveArrayKeepsConsistent(st, a);
    case OtherSubRecord =>
  }

  lemma {:induction false} DumpStepsKeepConsistent(mapping: Mapping, size: IdSize, st: Store, subs: seq<SubRecord>, n: nat)
    requires n <= |subs|
    requires Consistent(st)
    requires DumpSteps(mapping, size, st, subs, n).Ok?
    ensures Consistent(DumpSteps(mapping, size, st, subs, n).value)
    ensures st.rows <= DumpSteps(mapping, size, st, subs, n).value.rows
  {
    if n > 0 {
      DumpStepsKeepConsistent(mapping, size, st, subs, n - 1);
      SubRecordKeepsConsistent(mapping, size, DumpSteps(mapping, size, st, subs, n - 1).value, subs[n - 1]);
    }
  }

  lemma RecordKeepsConsistent(mapping: Mapping, size: IdSize, st: Store, r: Record)
    requires Consistent(st)
    requires RecordStep(mapping, size, st, r).Ok?
    ensures Consistent(RecordStep(mapping, size, st, r).value)
    ensures st.rows <= RecordStep(mapping, size, st, r).value.rows
  {
    match r
    case HeapDumpSegment(subs) => DumpStepsKeepConsistent(mapping, size, st, subs, |subs|);
    case LoadClass(classObjId, classNameId) => LoadClassKeepsConsistent(mapping, st, classObjId, classNameId);
    case Utf8(_, text) =>
      NoCountedRows([NameRow(text)]);
      Extend(st, RecordStep(mapping, size, st, r).value, [NameRow(text)]);
    case OtherRecord =>
  }

  lemma {:induction false} RecordStepsKeepConsistent(mapping: Mapping, size: IdSize, st: Store, records: seq<Record>, n: nat)
    requires n <= |records|
    requires Consistent(st)
    requires RecordSteps(mapping, size, st, records, n).Ok?
    ensures Consistent(RecordSteps(mapping, size, st, records, n).value)
    ensures st.rows <= RecordSteps(mapping, size, st, records, n).value.rows
  {
    if n > 0 {
      RecordStepsKeepConsistent(mapping, size, st, records, n - 1);
      RecordKeepsConsistent(mapping, size, RecordSteps(mapping, size, st, records, n - 1).value, records[n - 1]);
    }
  }

  /** Every committed run of `parse_records` (src/main.rs:154-245) starts
      with its header row and respects the references between tables: each
      instance, array and array-item row names an `hprof_obj_id` row that
      exists, and each `field_value` row names an `hprof_obj_id` row and a
      `field` row that exist. */
  lemma LoadKeepsReferences(header: Header, records: seq<Record>, mapping: Mapping)
    requires Load(header, records, mapping).Ok?
    ensures var rows := Load(header, records, mapping).value;
      && |rows| >= 1 && rows[0] == HeaderRowOf(header)
      && forall k | 0 <= k < |rows| :: RowRefsIn(rows[k], CountObjIdRows(rows), CountFieldRows(rows))
  {
    var st0 := Store(map[], 0, 0, [HeaderRowOf(header)]);
    NoCountedRows([HeaderRowOf(header)]);
    assert RowRefsIn(HeaderRowOf(header), 0, 0);
    assert Consistent(st0);
    RecordStepsKeepConsistent(mapping, header.idSize, st0, records, |records|);
  }
}
