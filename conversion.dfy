/** The conversion context of the second pass as a mutable object
    (src/main.rs:86-102): its methods update the class infos, the two row-id
    counters and the rows in place, each proved against the step function of
    module Loader that describes it. */
module Conversion {
  import opened Wrappers
  import opened Hprof
  import opened TypeTags
  import opened Text
  import opened IdMapping
  import opened Loader

  /** Rows appended in two steps are the rows appended at once. */
  lemma AppendRowsTwice(st0: Store, st1: Store, st2: Store, written: seq<Row>, more: seq<Row>)
    requires st1 == st0.(rows := st0.rows + written)
    requires st2 == st1.(rows := st1.rows + more)
    ensures st2 == st0.(rows := st0.rows + (written + more))
  {
    assert st0.rows + written + more == st0.rows + (written + more);
  }

  class Context {
    var classInfos: map<Id, ClassInfo>
    const idSize: IdSize
    /** The row id of the last `hprof_obj_id` insert. */
    var instanceId: int
    /** The row id of the last `field` insert. */
    var fieldRowId: int
    const mapping: Mapping
    /** The rows inserted so far, in order. */
    var rows: seq<Row>

    function State(): Store
      reads this
    {
      Store(classInfos, instanceId, fieldRowId, rows)
    }

    constructor (idSize: IdSize, mapping: Mapping, rows: seq<Row>)
      ensures State() == Store(map[], 0, 0, rows)
      ensures this.idSize == idSize && this.mapping == mapping
    {
      this.classInfos := map[];
      this.idSize := idSize;
      this.instanceId := 0;
      this.fieldRowId := 0;
      this.mapping := mapping;
      this.rows := rows;
    }

    /** `next_instance_id` (src/main.rs:96-102). */
    method NextInstanceId(objId: Id) returns (id: int)
      modifies this
      ensures State() == NextInstance(old(State()), objId)
      ensures id == instanceId
    {
      rows := rows + [ObjIdRow(objId)];
      instanceId := instanceId + 1;
      id := instanceId;
    }

    /** `insert_class` (src/main.rs:105-113). */
    method InsertClass(info: ClassInfo) returns (r: Outcome<LoadError>)
      modifies this
      ensures r == Status(ClassRowOf(mapping, info))
      ensures r.Pass? ==> State() == old(State()).(rows := old(rows) + [ClassRowOf(mapping, info).value])
      ensures r.Fail? ==> State() == old(State())
    {
      var superId: Option<int> := None;
      if info.superId.Some? {
        if info.superId.value !in mapping.classIds {
          return Fail(Panic);
        }
        superId := Some(mapping.classIds[info.superId.value]);
      }
      rows := rows + [ClassRow(info.id, info.nameId, superId, info.instanceSize)];
      return Pass;
    }

    /** The LoadClass arm of `parse_records` (src/main.rs:207-231). */
    method LoadClass(classObjId: Id, classNameId: Id) returns (r: Outcome<LoadError>)
      modifies this
      ensures r == Status(LoadClassStep(mapping, old(State()), classObjId, classNameId))
      ensures r.Pass? ==> State() == LoadClassStep(mapping, old(State()), classObjId, classNameId).value
    {
      if classObjId in classInfos {
        var info := classInfos[classObjId];
        if info.nameId == 0 {
          if classNameId !in mapping.nameIds {
            return Fail(Panic);
          }
          info := info.(nameId := mapping.nameIds[classNameId]);
        }
        classInfos := classInfos[classObjId := info];
        if info.instanceSize >= 0 {
          r := InsertClass(info);
          return;
        }
        return Pass;
      }
      if classObjId !in mapping.classIds || classNameId !in mapping.nameIds {
        return Fail(Panic);
      }
      var info := ClassInfo(mapping.classIds[classObjId], [], [], -1, mapping.nameIds[classNameId], None);
      classInfos := classInfos[classObjId := info];
      return Pass;
    }

    /** The first half of `process_class` (src/main.rs:291-310): a class
        already loaded gets its superclass and size and its class row; an
        unknown one gets a fresh entry without a row. */
    method RegisterClassInfo(c: Class) returns (r: Outcome<LoadError>, info: ClassInfo)
      modifies this
      ensures var spec := RegisterClass(mapping, old(State()), c);
        && r == Status(spec)
        && (r.Pass? ==> info == spec.value.0
                        && State() == old(State()).(classInfos := old(classInfos)[c.objId := info], rows := spec.value.1))
    {
      if c.objId in classInfos {
        info := classInfos[c.objId].(superId := c.superClassObjId, instanceSize := c.instanceSizeBytes);
        classInfos := classInfos[c.objId := info];
        r := InsertClass(info);
      } else {
        info := ClassInfo(|classInfos| + 1, [], [], c.instanceSizeBytes, -1, None);
        classInfos := classInfos[c.objId := info];
        r := Pass;
      }
    }

    /** The field loop of `process_class` (src/main.rs:311-325): records
        the descriptors, then writes one `field` row per descriptor and
        appends each new row id to the class's field ids; a descriptor whose
        name was not mapped panics. */
    method AddFields(objId: Id, registered: ClassInfo, fields: seq<FieldDescriptor>) returns (r: Outcome<LoadError>)
      modifies this
      ensures r == (if NamesMapped(mapping, fields) then Pass else Fail(Panic))
      ensures r.Pass? ==>
        && NamesMapped(mapping, fields)
        && State() == old(State()).(
             classInfos := old(classInfos)[objId := registered.(fields := fields, fieldIds := registered.fieldIds + NewFieldIds(old(fieldRowId), |fields|))],
             fieldRowId := old(fieldRowId) + |fields|,
             rows := old(rows) + FieldRows(mapping, registered.id, fields, |fields|))
    {
      var info := registered.(fields := fields);
      classInfos := classInfos[objId := info];
      assert registered.fieldIds + NewFieldIds(old(fieldRowId), 0) == registered.fieldIds;
      for i := 0 to |fields|
        invariant forall j | 0 <= j < i :: fields[j].nameId in mapping.nameIds
        invariant info == registered.(fields := fields, fieldIds := registered.fieldIds + NewFieldIds(old(fieldRowId), i))
        invariant classInfos == old(classInfos)[objId := info]
        invariant fieldRowId == old(fieldRowId) + i && instanceId == old(instanceId)
        invariant rows == old(rows) + FieldRows(mapping, registered.id, fields, i)
      {
        var descriptor := fields[i];
        if descriptor.nameId !in mapping.nameIds {
          return Fail(Panic);
        }
        rows := rows + [FieldRow(info.id, mapping.nameIds[descriptor.nameId], i, FieldTypeId(descriptor.fieldType))];
        fieldRowId := fieldRowId + 1;
        info := info.(fieldIds := info.fieldIds + [fieldRowId]);
        classInfos := classInfos[objId := info];
      }
      return Pass;
    }

    /** `process_class` (src/main.rs:290-326). */
    method ProcessClass(c: Class) returns (r: Outcome<LoadError>)
      modifies this
      ensures r == Status(ProcessClassStep(mapping, old(State()), c))
      ensures r.Pass? ==> State() == ProcessClassStep(mapping, old(State()), c).value
    {
      var info;
      r, info := RegisterClassInfo(c);
      if r.Fail? {
        return;
      }
      r := AddFields(c.objId, info, c.fieldDescriptors);
    }

    /** One decoded field (src/main.rs:345-350): its value is split into
       the column slots, and a non-null reference is written as a
       `field_value` row. */
    method InsertFieldValue(info: ClassInfo, i: nat, value: FieldValue, instance: int) returns (r: Outcome<LoadError>)
      requires InJavaRange(value)
      modifies this
      ensures r == Status(FieldValueRows(info, i, value, instance))
      ensures r.Pass? ==> State() == old(State()).(rows := old(rows) + FieldValueRows(info, i, value, instance).value)
    {
      if !FitsTuple(value) {
        return Fail(Panic);
      }
      var slots := FieldValueTuple(value);
      if slots.obj.Some? {
        if i >= |info.fieldIds| {
          return Fail(Panic);
        }
        rows := rows + [FieldValueRow(instance, info.fieldIds[i], slots.obj.value)];
      } else {
        assert rows + [] == rows;
      }
      return Pass;
    }

    /** One field of the loop (src/main.rs:340-350): decodes it at the
        cursor and writes its row, if any. */
    method ReadField(info: ClassInfo, i: nat, instance: int, cursor: seq<Byte>) returns (r: Outcome<LoadError>, next: seq<Byte>)
      requires i < |info.fields|
      modifies this
      ensures var spec := FieldStep(info, i, idSize, instance, cursor);
        && r == Status(spec)
        && (r.Pass? ==> next == spec.value.1 && State() == old(State()).(rows := old(rows) + spec.value.0))
    {
      var parsed := ParseValue(info.fields[i].fieldType, idSize, cursor);
      if parsed.None? {
        return Fail(Panic), cursor;
      }
      next := parsed.value.1;
      r := InsertFieldValue(info, i, parsed.value.0, instance);
    }

    /** One turn of the field loop: the field after the first `i`, whose
        rows are `written` and which end at `cursor`. On success the first
        `i + 1` fields have produced `written + more`; on failure the whole
        loop fails with the same error. */
    method DecodeNextField(info: ClassInfo, i: nat, instance: int, input: seq<Byte>, ghost written: seq<Row>, cursor: seq<Byte>)
      returns (r: Outcome<LoadError>, next: seq<Byte>, ghost more: seq<Row>)
      requires i < |info.fields|
      requires DecodeFields(info, i, idSize, instance, input) == Ok((written, cursor))
      modifies this
      ensures r.Fail? ==> r == Status(DecodeFields(info, |info.fields|, idSize, instance, input))
      ensures r.Pass? ==>
        && DecodeFields(info, i + 1, idSize, instance, input) == Ok((written + more, next))
        && State() == old(State()).(rows := old(State()).rows + more)
    {
      more := [];
      DecodeFieldsNext(info, i, idSize, instance, input, written, cursor);
      ghost var step := FieldStep(info, i, idSize, instance, cursor);
      r, next := ReadField(info, i, instance, cursor);
      if r.Fail? {
        DecodeFieldsAbortIsFinal(info, i + 1, |info.fields|, idSize, instance, input);
        return;
      }
      more := step.value.0;
    }

    /** The field loop of `process_instance` for one class
        (src/main.rs:339-351): decodes every field of `info` from `input`,
        writes a `field_value` row per non-null reference and returns the
        rest of the cursor. */
    method DecodeClassFields(info: ClassInfo, instance: int, input: seq<Byte>) returns (r: Outcome<LoadError>, rest: seq<Byte>)
      modifies this
      ensures var spec := DecodeFields(info, |info.fields|, idSize, instance, input);
        && r == Status(spec)
        && (r.Pass? ==> rest == spec.value.1 && State() == old(State()).(rows := old(rows) + spec.value.0))
    {
      ghost var st0 := State();
      ghost var written: seq<Row> := [];
      rest := input;
      for i := 0 to |info.fields|
        invariant DecodeFields(info, i, idSize, instance, input) == Ok((written, rest))
        invariant State() == st0.(rows := st0.rows + written)
      {
        var status, next;
        ghost var more;
        ghost var before := State();
        status, next, more := DecodeNextField(info, i, instance, input, written, rest);
        if status.Fail? {
          return status, next;
        }
        AppendRowsTwice(st0, before, State(), written, more);
        written := written + more;
        rest := next;
      }
      return Pass, rest;
    }

    /** One class of the walk of `process_instance` (src/main.rs:338-351):
        the class must be known and not met before; its fields are decoded
        and the walk goes on with its superclass, `next`. */
    method WalkClass(cur: Id, visited: set<Id>, id: int, input: seq<Byte>,
                     ghost walk: Result<(seq<Row>, seq<Byte>), LoadError>, ghost written: seq<Row>)
      returns (r: Outcome<LoadError>, next: Option<Id>, rest: seq<Byte>, ghost more: seq<Row>)
      requires walk == PrependRows(written, DecodeWalk(classInfos, cur, visited, idSize, id, input))
      modifies this
      ensures r.Fail? ==> r == Status(walk)
      ensures r.Pass? ==>
        && cur in classInfos && cur !in visited && next == classInfos[cur].superId
        && State() == old(State()).(rows := old(State()).rows + more)
        && (next.Some? ==> walk == PrependRows(written + more, DecodeWalk(classInfos, next.value, visited + {cur}, idSize, id, rest)))
        && (next.None? ==> walk == Ok((written + more, rest)))
    {
      more := [];
      next := None;
      rest := input;
      DecodeWalkFails(walk, written, classInfos, cur, visited, idSize, id, input);
      if cur !in classInfos {
        return Fail(Panic), next, rest, more;
      }
      if cur in visited {
        return Fail(SuperCycle), next, rest, more;
      }
      var info := classInfos[cur];
      r, rest := DecodeClassFields(info, id, input);
      if r.Fail? {
        return;
      }
      more := DecodeFields(info, |info.fields|, idSize, id, input).value.0;
      DecodeWalkAdvance(walk, written, old(classInfos), cur, visited, idSize, id, input);
      next := info.superId;
    }

    /** The walk of `process_instance` (src/main.rs:337-353): decodes the
        fields of the class `classId`, then of its superclass and so on up
        to a class without one. The source has no guard against a cycle of
        links; the model stops at the first class met twice. */
    method WalkFields(classId: Id, id: int, fields: seq<Byte>) returns (r: Outcome<LoadError>)
      modifies this
      ensures var walk := DecodeWalk(old(classInfos), classId, {}, idSize, id, fields);
        && r == Status(walk)
        && (r.Pass? ==> State() == old(State()).(rows := old(rows) + walk.value.0))
    {
      ghost var st0 := State();
      ghost var walk := DecodeWalk(classInfos, classId, {}, idSize, id, fields);
      ghost var written: seq<Row> := [];
      var current: Option<Id> := Some(classId);
      var visited: set<Id> := {};
      var input := fields;
      PrependNothing(walk);
      while current.Some?
        invariant classInfos == st0.classInfos
        invariant State() == st0.(rows := st0.rows + written)
        invariant current.Some? ==> walk == PrependRows(written, DecodeWalk(classInfos, current.value, visited, idSize, id, input))
        invariant current.None? ==> walk == Ok((written, input))
        decreases st0.classInfos.Keys - visited
      {
        var cur := current.value;
        var outcome, next, rest;
        ghost var more;
        ghost var before := State();
        outcome, next, rest, more := WalkClass(cur, visited, id, input, walk, written);
        if outcome.Fail? {
          return outcome;
        }
        AppendRowsTwice(st0, before, State(), written, more);
        written := written + more;
        input := rest;
        visited := visited + {cur};
        current := next;
      }
      return Pass;
    }

    /** `process_instance` (src/main.rs:328-356): the instance's surrogate
        and row, then the field walk along the superclass links. */
    method ProcessInstance(inst: Instance) returns (r: Outcome<LoadError>)
      modifies this
      ensures r == Status(InstanceStep(idSize, old(State()), inst))
      ensures r.Pass? ==> State() == InstanceStep(idSize, old(State()), inst).value
    {
      var id := NextInstanceId(inst.objId);
      if inst.classObjId !in classInfos {
        return Fail(Panic);
      }
      rows := rows + [InstanceRow(id, classInfos[inst.classObjId].id)];
      r := WalkFields(inst.classObjId, id, inst.fields);
    }

    /** The ObjectArray arm of `parse_dump_records` (src/main.rs:259-274). */
    method ObjectArray(a: ObjectArray) returns (r: Outcome<LoadError>)
      modifies this
      ensures r == Status(ObjectArrayStep(old(State()), a))
      ensures r.Pass? ==> State() == ObjectArrayStep(old(State()), a).value
    {
      var id := NextInstanceId(a.objId);
      if a.arrayClassObjId !in classInfos {
        return Fail(Panic);
      }
      rows := rows + [ObjArrayRow(id, classInfos[a.arrayClassObjId].id, |a.elements|)];
      ghost var st1 := State();
      for i := 0 to |a.elements|
        invariant State() == st1.(rows := st1.rows + ItemRows(id, a.elements, i))
      {
        rows := rows + [ObjArrayItemRow(id, i, a.elements[i])];
      }
      return Pass;
    }

    /** The PrimitiveArray arm of `parse_dump_records` (src/main.rs:275-283). */
    method PrimitiveArray(a: PrimitiveArray) returns (r: Outcome<LoadError>)
      modifies this
      ensures r == Status(PrimitiveArrayStep(old(State()), a))
      ensures r.Pass? ==> State() == PrimitiveArrayStep(old(State()), a).value
    {
      var id := NextInstanceId(a.objId);
      var text := PrimitiveArrayText(a.elements);
      if text.Err? {
        return Fail(UnpairedSurrogate);
      }
      rows := rows + [PrimitiveArrayRow(id, PrimitiveArrayTypeId(a.elements.ElementType()), a.elements.Length(), text.value)];
      return Pass;
    }

    /** The dispatch of the loop in `parse_dump_records`
        (src/main.rs:253-285): one sub-record, by its kind; other kinds
        are skipped. */
    method ProcessSubRecord(sub: SubRecord) returns (r: Outcome<LoadError>)
      modifies this
      ensures r == Status(SubRecordStep(mapping, idSize, old(State()), sub))
      ensures r.Pass? ==> State() == SubRecordStep(mapping, idSize, old(State()), sub).value
    {
      match sub {
        case ClassDump(c) =>
          r := ProcessClass(c);
        case InstanceDump(inst) =>
          r := ProcessInstance(inst);
        case ObjectArrayDump(a) =>
          r := ObjectArray(a);
        case PrimitiveArrayDump(a) =>
          r := PrimitiveArray(a);
        case OtherSubRecord =>
          r := Pass;
      }
    }

    /** `parse_dump_records` (src/main.rs:249-288). */
    method ParseDumpRecords(subs: seq<SubRecord>) returns (r: Outcome<LoadError>, count: nat)
      modifies this
      ensures r == Status(DumpSteps(mapping, idSize, old(State()), subs, |subs|))
      ensures r.Pass? ==> State() == DumpSteps(mapping, idSize, old(State()), subs, |subs|).value
      ensures r.Pass? ==> count == CountInstances(subs, |subs|)
    {
      ghost var st0 := State();
      count := 0;
      for i := 0 to |subs|
        invariant DumpSteps(mapping, idSize, st0, subs, i) == Ok(State())
        invariant count == CountInstances(subs, i)
      {
        if subs[i].InstanceDump? {
          count := count + 1;
        }
        r := ProcessSubRecord(subs[i]);
        if r.Fail? {
          DumpStepsAbortIsFinal(mapping, idSize, st0, subs, i + 1, |subs|);
          return;
        }
      }
      return Pass, count;
    }

    /** The Utf8 arm of `parse_records` (src/main.rs:233-239). */
    method InsertName(text: seq<Byte>)
      modifies this
      ensures State() == old(State()).(rows := old(rows) + [NameRow(text)])
    {
      rows := rows + [NameRow(text)];
    }
  }

  /** `parse_records` (src/main.rs:154-245): the header row, then every
      record in order. The rows are committed only when every record went
      through; an abort commits nothing. */
  method ParseRecords(header: Header, records: seq<Record>, mapping: Mapping) returns (r: Result<seq<Row>, LoadError>)
    ensures r == Load(header, records, mapping)
  {
    var context := new Context(header.idSize, mapping, [HeaderRowOf(header)]);
    ghost var st0 := context.State();
    for i := 0 to |records|
      invariant RecordSteps(mapping, header.idSize, st0, records, i) == Ok(context.State())
    {
      var outcome: Outcome<LoadError> := Pass;
      match records[i] {
        case HeapDumpSegment(subs) =>
          var instances;
          outcome, instances := context.ParseDumpRecords(subs);
        case LoadClass(classObjId, classNameId) =>
          outcome := context.LoadClass(classObjId, classNameId);
        case Utf8(_, text) =>
          context.InsertName(text);
        case OtherRecord =>
      }
      if outcome.Fail? {
        RecordStepsAbortIsFinal(mapping, header.idSize, st0, records, i + 1, |records|);
        return Err(outcome.error);
      }
    }
    return Ok(context.rows);
  }
}
