/** The second pass of the conversion (src/main.rs:154-356): it walks the
    records again and writes rows. Each table insert is a row appended to the
    store's row log; `last_insert_rowid` on the freshly created
    `hprof_obj_id` and `field` tables is the number of rows inserted so far,
    kept in two counters. A panic or an error aborts the run; the transaction
    is then never committed, so an aborted run writes nothing. */
module Loader {
  import opened Wrappers
  import opened Hprof
  import opened TypeTags
  import opened Text
  import opened IdMapping

  /** What the conversion remembers about one class (src/main.rs:60-67). */
  datatype ClassInfo = ClassInfo(
    id: int,
    fields: seq<FieldDescriptor>,
    fieldIds: seq<int>,
    instanceSize: int,
    nameId: int,
    superId: Option<Id>)

  /** One inserted row, named after its table. */
  datatype Row =
    | HeaderRow(formatLabel: string, idBytes: int, timestamp: int)
    | NameRow(nameBytes: seq<Byte>)
    | ClassRow(id: int, nameId: int, superId: Option<int>, instanceSize: int)
    | FieldRow(classId: int, nameId: int, ind: nat, typeId: int)
    | ObjIdRow(hprofObjId: Id)
    | InstanceRow(id: int, classId: int)
    | FieldValueRow(instanceId: int, fieldId: int, objId: int)
    | ObjArrayRow(id: int, classId: int, length: nat)
    | ObjArrayItemRow(arrayId: int, ind: nat, itemId: Option<Id>)
    | PrimitiveArrayRow(id: int, typeId: int, length: nat, text: Option<string>)

  /** Why a run aborts: an `unwrap` or a map index on a missing key panics;
      an unpaired UTF-16 surrogate is an error the source propagates; a
      cycle of superclass links never ends the field walk. */
  datatype LoadError = Panic | UnpairedSurrogate | SuperCycle

  /** The mutable part of the conversion context plus the rows written. */
  datatype Store = Store(classInfos: map<Id, ClassInfo>, instanceId: int, fieldRowId: int, rows: seq<Row>)

  function Status<T>(r: Result<T, LoadError>): Outcome<LoadError> {
    match r
    case Ok(_) => Pass
    case Err(e) => Fail(e)
  }

  // ---------------------------------------------------------------------
  // Surrogate object ids

  /** `next_instance_id` (src/main.rs:96-102): one `hprof_obj_id` row, whose
      row id becomes the new surrogate. */
  function NextInstance(st: Store, objId: Id): Store {
    st.(instanceId := st.instanceId + 1, rows := st.rows + [ObjIdRow(objId)])
  }

  // ---------------------------------------------------------------------
  // Classes

  /** `insert_class` (src/main.rs:104-113): the superclass is looked up in
      the class table of the first pass, which panics when it is missing. */
  function ClassRowOf(mapping: Mapping, info: ClassInfo): Result<Row, LoadError> {
    match info.superId
    case None => Ok(ClassRow(info.id, info.nameId, None, info.instanceSize))
    case Some(s) =>
      if s in mapping.classIds then Ok(ClassRow(info.id, info.nameId, Some(mapping.classIds[s]), info.instanceSize))
      else Err(Panic)
  }

  /** The LoadClass arm of `parse_records` (src/main.rs:207-231). A class
      already defined gets its name (only while its name id is 0) and its
      row, when its instance size is known; an unseen class is recorded with
      instance size -1 and no row. */
  function LoadClassStep(mapping: Mapping, st: Store, classObjId: Id, classNameId: Id): Result<Store, LoadError> {
    if classObjId in st.classInfos then
      var info := st.classInfos[classObjId];
      if info.nameId == 0 && classNameId !in mapping.nameIds then Err(Panic)
      else
        var named := if info.nameId == 0 then info.(nameId := mapping.nameIds[classNameId]) else info;
        var st1 := st.(classInfos := st.classInfos[classObjId := named]);
        if named.instanceSize >= 0 then
          match ClassRowOf(mapping, named)
          case Err(e) => Err(e)
          case Ok(row) => Ok(st1.(rows := st1.rows + [row]))
        else Ok(st1)
    else if classObjId !in mapping.classIds || classNameId !in mapping.nameIds then Err(Panic)
    else
      var info := ClassInfo(mapping.classIds[classObjId], [], [], -1, mapping.nameIds[classNameId], None);
      Ok(st.(classInfos := st.classInfos[classObjId := info]))
  }

  predicate NamesMapped(mapping: Mapping, fields: seq<FieldDescriptor>) {
    forall i | 0 <= i < |fields| :: fields[i].nameId in mapping.nameIds
  }

  /** The `field` rows of the first `n` descriptors. */
  function FieldRows(mapping: Mapping, classId: int, fields: seq<FieldDescriptor>, n: nat): seq<Row>
    requires n <= |fields|
    requires forall i | 0 <= i < n :: fields[i].nameId in mapping.nameIds
  {
    if n == 0 then []
    else
      var fd := fields[n - 1];
      FieldRows(mapping, classId, fields, n - 1) + [FieldRow(classId, mapping.nameIds[fd.nameId], n - 1, FieldTypeId(fd.fieldType))]
  }

  /** The row ids of `n` consecutive `field` inserts after `base` rows. */
  function NewFieldIds(base: int, n: nat): seq<int> {
    if n == 0 then [] else NewFieldIds(base, n - 1) + [base + n]
  }

  /** The class-info entry `process_class` starts from (src/main.rs:290-310)
      and the class row it writes when the class was already loaded. */
  function RegisterClass(mapping: Mapping, st: Store, c: Class): Result<(ClassInfo, seq<Row>), LoadError> {
    if c.objId in st.classInfos then
      var info := st.classInfos[c.objId].(superId := c.superClassObjId, instanceSize := c.instanceSizeBytes);
      match ClassRowOf(mapping, info)
      case Err(e) => Err(e)
      case Ok(row) => Ok((info, st.rows + [row]))
    else
      Ok((ClassInfo(|st.classInfos| + 1, [], [], c.instanceSizeBytes, -1, None), st.rows))
  }

  /** `process_class` (src/main.rs:290-326): register the class, then write
      one `field` row per instance-field descriptor and append each row id
      to the class's field ids. */
  function ProcessClassStep(mapping: Mapping, st: Store, c: Class): Result<Store, LoadError> {
    match RegisterClass(mapping, st, c)
    case Err(e) => Err(e)
    case Ok((info, rows)) =>
      if !NamesMapped(mapping, c.fieldDescriptors) then Err(Panic)
      else
        var n := |c.fieldDescriptors|;
        var info' := info.(fields := c.fieldDescriptors, fieldIds := info.fieldIds + NewFieldIds(st.fieldRowId, n));
        Ok(Store(st.classInfos[c.objId := info'], st.instanceId, st.fieldRowId + n,
                 rows + FieldRows(mapping, info.id, c.fieldDescriptors, n)))
  }

  // ---------------------------------------------------------------------
  // Instances

  /** The rows one decoded field value yields (src/main.rs:345-350): a row
      only for a non-null reference, keyed by the class's `i`-th field id. */
  function FieldValueRows(info: ClassInfo, i: nat, value: FieldValue, instance: int): Result<seq<Row>, LoadError>
    requires InJavaRange(value)
  {
    if !FitsTuple(value) then Err(Panic)
    else
      var slots := FieldValueTuple(value);
      if slots.obj.None? then Ok([])
      else if i >= |info.fieldIds| then Err(Panic)
      else Ok([FieldValueRow(instance, info.fieldIds[i], slots.obj.value)])
  }

  /** Decodes the first `n` fields of one class from the cursor
      (src/main.rs:339-351): the rows written and the rest of the cursor. */
  function DecodeFields(info: ClassInfo, n: nat, size: IdSize, instance: int, input: seq<Byte>): Result<(seq<Row>, seq<Byte>), LoadError>
    requires n <= |info.fields|
  {
    if n == 0 then Ok(([], input))
    else
      match DecodeFields(info, n - 1, size, instance, input)
      case Err(e) => Err(e)
      case Ok((rows, rest)) =>
        match ParseValue(info.fields[n - 1].fieldType, size, rest)
        case None => Err(Panic)
        case Some((value, next)) =>
          match FieldValueRows(info, n - 1, value, instance)
          case Err(e) => Err(e)
          case Ok(more) => Ok((rows + more, next))
  }

  /** Puts the rows of the classes already walked in front of the result
      of the rest of the walk. */
  function PrependRows(written: seq<Row>, r: Result<(seq<Row>, seq<Byte>), LoadError>): Result<(seq<Row>, seq<Byte>), LoadError> {
    match r
    case Err(e) => Err(e)
    case Ok((more, rest)) => Ok((written + more, rest))
  }

  lemma PrependNothing(r: Result<(seq<Row>, seq<Byte>), LoadError>)
    ensures PrependRows([], r) == r
  {
    if r.Ok? {
      assert [] + r.value.0 == r.value.0;
    }
  }

  lemma PrependTwice(written: seq<Row>, more: seq<Row>, r: Result<(seq<Row>, seq<Byte>), LoadError>)
    ensures PrependRows(written, PrependRows(more, r)) == PrependRows(written + more, r)
  {
    if r.Ok? {
      assert written + (more + r.value.0) == (written + more) + r.value.0;
    }
  }

  /** The walk of `process_instance` (src/main.rs:337-353) from class
      `cur`: its fields, then those of its superclass, until a class has
      none. `visited` holds the classes already walked. */
  function DecodeWalk(infos: map<Id, ClassInfo>, cur: Id, visited: set<Id>, size: IdSize, instance: int, input: seq<Byte>)
    : Result<(seq<Row>, seq<Byte>), LoadError>
    decreases infos.Keys - visited
  {
    if cur !in infos then Err(Panic)
    else if cur in visited then Err(SuperCycle)
    else
      var info := infos[cur];
      match DecodeFields(info, |info.fields|, size, instance, input)
      case Err(e) => Err(e)
      case Ok((rows, rest)) =>
        match info.superId
        case None => Ok((rows, rest))
        case Some(s) => PrependRows(rows, DecodeWalk(infos, s, visited + {cur}, size, instance, rest))
  }

  /** One class of the walk, seen from a caller that has already written
      `written`: the walk goes on from the superclass after this class's
      rows, or ends with them. */
  lemma DecodeWalkAdvance(walk: Result<(seq<Row>, seq<Byte>), LoadError>, written: seq<Row>,
                          infos: map<Id, ClassInfo>, cur: Id, visited: set<Id>, size: IdSize, instance: int, input: seq<Byte>)
    requires cur in infos && cur !in visited
    requires walk == PrependRows(written, DecodeWalk(infos, cur, visited, size, instance, input))
    requires DecodeFields(infos[cur], |infos[cur].fields|, size, instance, input).Ok?
    ensures var (rows, rest) := DecodeFields(infos[cur], |infos[cur].fields|, size, instance, input).value;
      && (infos[cur].superId.Some? ==>
            walk == PrependRows(written + rows, DecodeWalk(infos, infos[cur].superId.value, visited + {cur}, size, instance, rest)))
      && (infos[cur].superId.None? ==> walk == Ok((written + rows, rest)))
  {
    var (rows, rest) := DecodeFields(infos[cur], |infos[cur].fields|, size, instance, input).value;
    if infos[cur].superId.Some? {
      PrependTwice(written, rows, DecodeWalk(infos, infos[cur].superId.value, visited + {cur}, size, instance, rest));
    }
  }

  /** The ways one class of the walk fails, seen from a caller that has
      already written `written`. */
  lemma DecodeWalkFails(walk: Result<(seq<Row>, seq<Byte>), LoadError>, written: seq<Row>,
                        infos: map<Id, ClassInfo>, cur: Id, visited: set<Id>, size: IdSize, instance: int, input: seq<Byte>)
    requires walk == PrependRows(written, DecodeWalk(infos, cur, visited, size, instance, input))
    ensures cur !in infos ==> walk == Err(Panic)
    ensures cur in infos && cur in visited ==> walk == Err(SuperCycle)
    ensures cur in infos && cur !in visited && DecodeFields(infos[cur], |infos[cur].fields|, size, instance, input).Err? ==>
      walk == Err(DecodeFields(infos[cur], |infos[cur].fields|, size, instance, input).error)
  {
  }

  /** `process_instance` (src/main.rs:328-356). */
  function InstanceStep(size: IdSize, st: Store, inst: Instance): Result<Store, LoadError> {
    var st1 := NextInstance(st, inst.objId);
    var id := st1.instanceId;
    if inst.classObjId !in st1.classInfos then Err(Panic)
    else
      var st2 := st1.(rows := st1.rows + [InstanceRow(id, st1.classInfos[inst.classObjId].id)]);
      match DecodeWalk(st2.classInfos, inst.classObjId, {}, size, id, inst.fields)
      case Err(e) => Err(e)
      case Ok((rows, _)) => Ok(st2.(rows := st2.rows + rows))
  }

  // ---------------------------------------------------------------------
  // Arrays

  /** The `obj_array_item` rows of the first `n` elements. */
  function ItemRows(arrayId: int, elements: seq<Option<Id>>, n: nat): seq<Row>
    requires n <= |elements|
  {
    if n == 0 then [] else ItemRows(arrayId, elements, n - 1) + [ObjArrayItemRow(arrayId, n - 1, elements[n - 1])]
  }

  /** The ObjectArray arm of `parse_dump_records` (src/main.rs:259-274). */
  function ObjectArrayStep(st: Store, a: ObjectArray): Result<Store, LoadError> {
    var st1 := NextInstance(st, a.objId);
    var id := st1.instanceId;
    if a.arrayClassObjId !in st1.classInfos then Err(Panic)
    else
      var header := ObjArrayRow(id, st1.classInfos[a.arrayClassObjId].id, |a.elements|);
      Ok(st1.(rows := st1.rows + [header] + ItemRows(id, a.elements, |a.elements|)))
  }

  /** The PrimitiveArray arm of `parse_dump_records` (src/main.rs:275-283). */
  function PrimitiveArrayStep(st: Store, a: PrimitiveArray): Result<Store, LoadError> {
    var st1 := NextInstance(st, a.objId);
    match PrimitiveArrayText(a.elements)
    case Err(_) => Err(UnpairedSurrogate)
    case Ok(text) =>
      var row := PrimitiveArrayRow(st1.instanceId, PrimitiveArrayTypeId(a.elements.ElementType()), a.elements.Length(), text);
      Ok(st1.(rows := st1.rows + [row]))
  }

  // ---------------------------------------------------------------------
  // Record streams

  function SubRecordStep(mapping: Mapping, size: IdSize, st: Store, sub: SubRecord): Result<Store, LoadError> {
    match sub
    case ClassDump(c) => ProcessClassStep(mapping, st, c)
    case InstanceDump(inst) => InstanceStep(size, st, inst)
    case ObjectArrayDump(a) => ObjectArrayStep(st, a)
    case PrimitiveArrayDump(a) => PrimitiveArrayStep(st, a)
    case OtherSubRecord => Ok(st)
  }

  /** `parse_dump_records` (src/main.rs:249-288) over the first `n`
      sub-records of a segment. */
  function DumpSteps(mapping: Mapping, size: IdSize, st: Store, subs: seq<SubRecord>, n: nat): Result<Store, LoadError>
    requires n <= |subs|
  {
    if n == 0 then Ok(st)
    else
      match DumpSteps(mapping, size, st, subs, n - 1)
      case Err(e) => Err(e)
      case Ok(st1) => SubRecordStep(mapping, size, st1, subs[n - 1])
  }

  /** The number of instance dumps among the first `n` sub-records: the
      value `parse_dump_records` returns. */
  function CountInstances(subs: seq<SubRecord>, n: nat): nat
    requires n <= |subs|
  {
    if n == 0 then 0 else CountInstances(subs, n - 1) + (if subs[n - 1].InstanceDump? then 1 else 0)
  }

  /** One record of the loop in `parse_records` (src/main.rs:199-241). */
  function RecordStep(mapping: Mapping, size: IdSize, st: Store, r: Record): Result<Store, LoadError> {
    match r
    case HeapDumpSegment(subs) => DumpSteps(mapping, size, st, subs, |subs|)
    case LoadClass(classObjId, classNameId) => LoadClassStep(mapping, st, classObjId, classNameId)
    case Utf8(_, text) => Ok(st.(rows := st.rows + [NameRow(text)]))
    case OtherRecord => Ok(st)
  }

  function RecordSteps(mapping: Mapping, size: IdSize, st: Store, records: seq<Record>, n: nat): Result<Store, LoadError>
    requires n <= |records|
  {
    if n == 0 then Ok(st)
    else
      match RecordSteps(mapping, size, st, records, n - 1)
      case Err(e) => Err(e)
      case Ok(st1) => RecordStep(mapping, size, st1, records[n - 1])
  }

  function HeaderRowOf(header: Header): Row {
    HeaderRow(header.formatLabel, IdBytes(header.idSize), header.timestampMillis)
  }

  /** `parse_records` (src/main.rs:154-245): the header row, then every
      record in order, starting from an empty context; the rows committed,
      or why the run aborted. */
  function Load(header: Header, records: seq<Record>, mapping: Mapping): Result<seq<Row>, LoadError> {
    match RecordSteps(mapping, header.idSize, Store(map[], 0, 0, [HeaderRowOf(header)]), records, |records|)
    case Err(e) => Err(e)
    case Ok(st) => Ok(st.rows)
  }

  // ---------------------------------------------------------------------
  // An abort is final: once a prefix of a loop fails, the whole loop fails
  // with the same error.

  /** Decodes field `i` of `info` at the cursor (src/main.rs:340-350): the
      rows it writes and the rest of the cursor. */
  function FieldStep(info: ClassInfo, i: nat, size: IdSize, instance: int, input: seq<Byte>): Result<(seq<Row>, seq<Byte>), LoadError>
    requires i < |info.fields|
  {
    match ParseValue(info.fields[i].fieldType, size, input)
    case None => Err(Panic)
    case Some((value, next)) =>
      match FieldValueRows(info, i, value, instance)
      case Err(e) => Err(e)
      case Ok(more) => Ok((more, next))
  }

  /** One more field, once the first `n` decoded to `rows` and `rest`. */
  lemma DecodeFieldsNext(info: ClassInfo, n: nat, size: IdSize, instance: int, input: seq<Byte>, rows: seq<Row>, rest: seq<Byte>)
    requires n < |info.fields|
    requires DecodeFields(info, n, size, instance, input) == Ok((rows, rest))
    ensures DecodeFields(info, n + 1, size, instance, input) ==
              match FieldStep(info, n, size, instance, rest)
              case Err(e) => Err(e)
              case Ok((more, next)) => Ok((rows + more, next))
  {
  }

  lemma {:induction false} DecodeFieldsAbortIsFinal(info: ClassInfo, n: nat, m: nat, size: IdSize, instance: int, input: seq<Byte>)
    requires n <= m <= |info.fields|
    requires DecodeFields(info, n, size, instance, input).Err?
    ensures DecodeFields(info, m, size, instance, input) == DecodeFields(info, n, size, instance, input)
    decreases m
  {
    if m > n {
      DecodeFieldsAbortIsFinal(info, n, m - 1, size, instance, input);
    }
  }

  lemma {:induction false} DumpStepsAbortIsFinal(mapping: Mapping, size: IdSize, st: Store, subs: seq<SubRecord>, n: nat, m: nat)
    requires n <= m <= |subs|
    requires DumpSteps(mapping, size, st, subs, n).Err?
    ensures DumpSteps(mapping, size, st, subs, m) == DumpSteps(mapping, size, st, subs, n)
    decreases m
  {
    if m > n {
      DumpStepsAbortIsFinal(mapping, size, st, subs, n, m - 1);
    }
  }

  lemma {:induction false} RecordStepsAbortIsFinal(mapping: Mapping, size: IdSize, st: Store, records: seq<Record>, n: nat, m: nat)
    requires n <= m <= |records|
    requires RecordSteps(mapping, size, st, records, n).Err?
    ensures RecordSteps(mapping, size, st, records, m) == RecordSteps(mapping, size, st, records, n)
    decreases m
  {
    if m > n {
      RecordStepsAbortIsFinal(mapping, size, st, records, n, m - 1);
    }
  }
}
