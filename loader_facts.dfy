/** What the second pass promises, proved about the step functions of
    module Loader. */
module LoaderFacts {
  import opened Wrappers
  import opened Hprof
  import opened TypeTags
  import opened Text
  import opened IdMapping
  import opened Loader

  // ---------------------------------------------------------------------
  // Field rows of one class definition

  lemma {:induction false} FieldRowsShape(mapping: Mapping, classId: int, fields: seq<FieldDescriptor>, n: nat)
    requires n <= |fields|
    requires forall i | 0 <= i < n :: fields[i].nameId in mapping.nameIds
    ensures |FieldRows(mapping, classId, fields, n)| == n
    ensures forall i | 0 <= i < n ::
      FieldRows(mapping, classId, fields, n)[i] == FieldRow(classId, mapping.nameIds[fields[i].nameId], i, FieldTypeId(fields[i].fieldType))
  {
    if n > 0 {
      FieldRowsShape(mapping, classId, fields, n - 1);
    }
  }

  lemma {:induction false} NewFieldIdsShape(base: int, n: nat)
    ensures |NewFieldIds(base, n)| == n
    ensures forall i | 0 <= i < n :: NewFieldIds(base, n)[i] == base + i + 1
  {
    if n > 0 {
      NewFieldIdsShape(base, n - 1);
    }
  }

  /** `process_class` goes through exactly when the superclass of an
      already-loaded class is known to the first pass and every field name
      is in the name table (src/main.rs:290-326). */
  lemma ProcessClassSucceeds(mapping: Mapping, st: Store, c: Class)
    ensures ProcessClassStep(mapping, st, c).Ok? <==>
      && (c.objId in st.classInfos && c.superClassObjId.Some? ==> c.superClassObjId.value in mapping.classIds)
      && NamesMapped(mapping, c.fieldDescriptors)
  {
  }

  /** A first definition of a class (src/main.rs:297-309, 311-324): the
      entry gets the surrogate `len + 1`, name id -1 and no superclass,
      one field id per descriptor numbered after the last `field` row, and
      one `field` row per descriptor in declaration order; no class row. */
  lemma FirstDefinition(mapping: Mapping, st: Store, c: Class)
    requires c.objId !in st.classInfos
    requires NamesMapped(mapping, c.fieldDescriptors)
    ensures ProcessClassStep(mapping, st, c).Ok?
    ensures var st1 := ProcessClassStep(mapping, st, c).value;
      var n := |c.fieldDescriptors|;
      && st1.classInfos == st.classInfos[c.objId := st1.classInfos[c.objId]]
      && st1.classInfos[c.objId] == ClassInfo(|st.classInfos| + 1, c.fieldDescriptors, st1.classInfos[c.objId].fieldIds, c.instanceSizeBytes, -1, None)
      && |st1.classInfos[c.objId].fieldIds| == n
      && (forall i | 0 <= i < n :: st1.classInfos[c.objId].fieldIds[i] == st.fieldRowId + i + 1)
      && st1.fieldRowId == st.fieldRowId + n
      && st1.instanceId == st.instanceId
      && |st1.rows| == |st.rows| + n
      && st1.rows[..|st.rows|] == st.rows
      && (forall i | 0 <= i < n ::
            st1.rows[|st.rows| + i] == FieldRow(|st.classInfos| + 1, mapping.nameIds[c.fieldDescriptors[i].nameId], i, FieldTypeId(c.fieldDescriptors[i].fieldType)))
  {
    var n := |c.fieldDescriptors|;
    FieldRowsShape(mapping, |st.classInfos| + 1, c.fieldDescriptors, n);
    NewFieldIdsShape(st.fieldRowId, n);
    assert [] + NewFieldIds(st.fieldRowId, n) == NewFieldIds(st.fieldRowId, n);
  }

  /** Defining a class again appends to its field ids instead of replacing
      them (src/main.rs:323): after two definitions there are twice as many
      field ids as fields. */
  lemma RedefinitionAppendsFieldIds(mapping: Mapping, st: Store, c: Class)
    requires c.objId !in st.classInfos
    requires NamesMapped(mapping, c.fieldDescriptors)
    requires c.superClassObjId.Some? ==> c.superClassObjId.value in mapping.classIds
    ensures ProcessClassStep(mapping, st, c).Ok?
    ensures ProcessClassStep(mapping, ProcessClassStep(mapping, st, c).value, c).Ok?
    ensures var st2 := ProcessClassStep(mapping, ProcessClassStep(mapping, st, c).value, c).value;
      && |st2.classInfos[c.objId].fields| == |c.fieldDescriptors|
      && |st2.classInfos[c.objId].fieldIds| == 2 * |c.fieldDescriptors|
  {
    FirstDefinition(mapping, st, c);
    NewFieldIdsShape(ProcessClassStep(mapping, st, c).value.fieldRowId, |c.fieldDescriptors|);
  }

  // ---------------------------------------------------------------------
  // The two observations of a class

  function MappedSuper(mapping: Mapping, s: Option<Id>): Option<int>
    requires s.Some? ==> s.value in mapping.classIds
  {
    match s
    case None => None
    case Some(id) => Some(mapping.classIds[id])
  }

  /** Definition first, load second (src/main.rs:297-309, then 209-216):
      the definition writes no class row; the load always goes through and
      writes exactly one, with the surrogate `len + 1`, name id -1 and no
      superclass. */
  lemma DefinitionThenLoad(mapping: Mapping, st: Store, c: Class, classNameId: Id)
    requires c.objId !in st.classInfos
    requires NamesMapped(mapping, c.fieldDescriptors)
    ensures ProcessClassStep(mapping, st, c).Ok?
    ensures var st1 := ProcessClassStep(mapping, st, c).value;
      && (forall i | |st.rows| <= i < |st1.rows| :: !st1.rows[i].ClassRow?)
      && LoadClassStep(mapping, st1, c.objId, classNameId)
         == Ok(st1.(rows := st1.rows + [ClassRow(|st.classInfos| + 1, -1, None, c.instanceSizeBytes)]))
  {
    FirstDefinition(mapping, st, c);
    var st1 := ProcessClassStep(mapping, st, c).value;
    forall i | |st.rows| <= i < |st1.rows| ensures !st1.rows[i].ClassRow? {
      var j := i - |st.rows|;
      var fd := c.fieldDescriptors[j];
      assert st1.rows[|st.rows| + j] == FieldRow(|st.classInfos| + 1, mapping.nameIds[fd.nameId], j, FieldTypeId(fd.fieldType));
    }
    assert st1.classInfos[c.objId := st1.classInfos[c.objId]] == st1.classInfos;
  }

  /** Load first, definition second (src/main.rs:217-229, then 291-296):
      the load writes no row and records the first pass's surrogate and the
      class name; the definition writes exactly one class row, with those
      values and the mapped superclass, then its field rows. */
  lemma LoadThenDefinition(mapping: Mapping, st: Store, c: Class, classNameId: Id)
    requires c.objId !in st.classInfos
    requires c.objId in mapping.classIds && classNameId in mapping.nameIds
    ensures LoadClassStep(mapping, st, c.objId, classNameId).Ok?
    ensures var st1 := LoadClassStep(mapping, st, c.objId, classNameId).value;
      && st1.rows == st.rows
      && st1.classInfos[c.objId] == ClassInfo(mapping.classIds[c.objId], [], [], -1, mapping.nameIds[classNameId], None)
      && (ProcessClassStep(mapping, st1, c).Ok? <==>
            (c.superClassObjId.Some? ==> c.superClassObjId.value in mapping.classIds) && NamesMapped(mapping, c.fieldDescriptors))
      && (ProcessClassStep(mapping, st1, c).Ok? ==>
            var st2 := ProcessClassStep(mapping, st1, c).value;
            var id := mapping.classIds[c.objId];
            st2.rows == st.rows
              + [ClassRow(id, mapping.nameIds[classNameId], MappedSuper(mapping, c.superClassObjId), c.instanceSizeBytes)]
              + FieldRows(mapping, id, c.fieldDescriptors, |c.fieldDescriptors|))
  {
  }

  /** The class row depends on the order of the two observations: with any
      name table of the first pass (whose surrogates start at 1) the name id
      is -1 when the definition comes first and the class's name surrogate
      when the load comes first. */
  lemma ClassRowDependsOnOrder(mapping: Mapping, st: Store, c: Class, classNameId: Id)
    requires c.objId !in st.classInfos
    requires c.objId in mapping.classIds && classNameId in mapping.nameIds
    requires forall k | k in mapping.nameIds :: mapping.nameIds[k] >= 1
    requires NamesMapped(mapping, c.fieldDescriptors)
    requires c.superClassObjId.Some? ==> c.superClassObjId.value in mapping.classIds
    ensures var defFirst := ProcessClassStep(mapping, st, c).value;
      var loadFirst := LoadClassStep(mapping, st, c.objId, classNameId).value;
      var a := LoadClassStep(mapping, defFirst, c.objId, classNameId).value.rows;
      var b := ProcessClassStep(mapping, loadFirst, c).value.rows;
      a[|a| - 1].ClassRow? && a[|a| - 1].nameId == -1
      && b[|st.rows|].ClassRow? && b[|st.rows|].nameId == mapping.nameIds[classNameId] >= 1
  {
    DefinitionThenLoad(mapping, st, c, classNameId);
    LoadThenDefinition(mapping, st, c, classNameId);
  }

  // ---------------------------------------------------------------------
  // The field walk of an instance

  /** Bytes taken by the first `n` fields. */
  function FieldsWidth(fields: seq<FieldDescriptor>, n: nat, size: IdSize): nat
    requires n <= |fields|
  {
    if n == 0 then 0 else FieldsWidth(fields, n - 1, size) + FieldWidth(fields[n - 1].fieldType, size)
  }

  /** Reference fields among the first `n`. */
  function ReferenceCount(fields: seq<FieldDescriptor>, n: nat): nat
    requires n <= |fields|
  {
    if n == 0 then 0 else ReferenceCount(fields, n - 1) + (if fields[n - 1].fieldType == ObjectId then 1 else 0)
  }

  /** A `field_value` row of `instance` for one of the first `n` fields of
      the class: a reference field, keyed by the field id at its index. */
  ghost predicate RowOfReferenceField(info: ClassInfo, n: nat, instance: int, row: Row)
    requires n <= |info.fields|
  {
    && row.FieldValueRow?
    && row.instanceId == instance
    && exists i | 0 <= i < n && i < |info.fieldIds| :: info.fields[i].fieldType == ObjectId && row.fieldId == info.fieldIds[i]
  }

  /** Decoding the fields of one class (src/main.rs:339-351) consumes
      exactly the sum of the field widths from the front of the cursor and
      writes at most one row per reference field, each keyed by that
      field's id. */
  lemma {:induction false} DecodeFieldsFacts(info: ClassInfo, n: nat, size: IdSize, instance: int, input: seq<Byte>)
    requires n <= |info.fields|
    requires DecodeFields(info, n, size, instance, input).Ok?
    ensures var (rows, rest) := DecodeFields(info, n, size, instance, input).value;
      && |input| == FieldsWidth(info.fields, n, size) + |rest|
      && rest == input[FieldsWidth(info.fields, n, size)..]
      && |rows| <= ReferenceCount(info.fields, n)
      && (forall k | 0 <= k < |rows| :: RowOfReferenceField(info, n, instance, rows[k]))
  {
    if n > 0 {
      DecodeFieldsFacts(info, n - 1, size, instance, input);
      var (rows, rest) := DecodeFields(info, n - 1, size, instance, input).value;
      var t := info.fields[n - 1].fieldType;
      var (value, next) := ParseValue(t, size, rest).value;
      var more := FieldValueRows(info, n - 1, value, instance).value;
      forall k | 0 <= k < |rows + more| ensures RowOfReferenceField(info, n, instance, (rows + more)[k]) {
        if k < |rows| {
          assert RowOfReferenceField(info, n - 1, instance, rows[k]);
        } else {
          assert info.fields[n - 1].fieldType == ObjectId && (rows + more)[k].fieldId == info.fieldIds[n - 1];
        }
      }
    }
  }

  /** The classes the walk of an instance visits from `cur`: `cur`, then
      each superclass link in turn until a class without one; `None` when a
      class is missing or met twice. */
  function SuperChain(infos: map<Id, ClassInfo>, cur: Id, visited: set<Id>): (r: Option<seq<Id>>)
    ensures r.Some? ==> ChainShape(infos, cur, visited, r.value)
    decreases infos.Keys - visited
  {
    if cur !in infos || cur in visited then None
    else
      match infos[cur].superId
      case None => Some([cur])
      case Some(s) =>
        match SuperChain(infos, s, visited + {cur})
        case None => None
        case Some(rest) => Some([cur] + rest)
  }

  ghost predicate ChainShape(infos: map<Id, ClassInfo>, cur: Id, visited: set<Id>, chain: seq<Id>) {
    && |chain| >= 1
    && chain[0] == cur
    && (forall i | 0 <= i < |chain| :: chain[i] in infos && chain[i] !in visited)
    && (forall i | 0 <= i < |chain| - 1 :: infos[chain[i]].superId == Some(chain[i + 1]))
    && infos[chain[|chain| - 1]].superId.None?
    && (forall i, j | 0 <= i < j < |chain| :: chain[i] != chain[j])
  }

  /** Bytes taken by all fields of the classes of a chain. */
  function ChainWidth(infos: map<Id, ClassInfo>, chain: seq<Id>, size: IdSize): nat
    requires forall i | 0 <= i < |chain| :: chain[i] in infos
  {
    if chain == [] then 0
    else
      var info := infos[chain[0]];
      FieldsWidth(info.fields, |info.fields|, size) + ChainWidth(infos, chain[1..], size)
  }

  /** Reference fields of the classes of a chain. */
  function ChainReferences(infos: map<Id, ClassInfo>, chain: seq<Id>): nat
    requires forall i | 0 <= i < |chain| :: chain[i] in infos
  {
    if chain == [] then 0
    else
      var info := infos[chain[0]];
      ReferenceCount(info.fields, |info.fields|) + ChainReferences(infos, chain[1..])
  }

  /** The walk of `process_instance` (src/main.rs:337-353) follows the
      superclass chain from the instance's own class to a class without a
      superclass and consumes exactly the sum of the field widths along
      it. */
  lemma {:induction false} DecodeWalkWidth(infos: map<Id, ClassInfo>, cur: Id, visited: set<Id>, size: IdSize, instance: int, input: seq<Byte>)
    requires DecodeWalk(infos, cur, visited, size, instance, input).Ok?
    ensures SuperChain(infos, cur, visited).Some?
    ensures var chain := SuperChain(infos, cur, visited).value;
      var rest := DecodeWalk(infos, cur, visited, size, instance, input).value.1;
      && |input| == ChainWidth(infos, chain, size) + |rest|
      && rest == input[ChainWidth(infos, chain, size)..]
    decreases infos.Keys - visited
  {
    var info := infos[cur];
    var n := |info.fields|;
    DecodeFieldsFacts(info, n, size, instance, input);
    var rest := DecodeFields(info, n, size, instance, input).value.1;
    match info.superId
    case None =>
      assert SuperChain(infos, cur, visited) == Some([cur]);
      assert [cur][1..] == [];
    case Some(s) =>
      DecodeWalkWidth(infos, s, visited + {cur}, size, instance, rest);
      var tail := SuperChain(infos, s, visited + {cur}).value;
      assert ([cur] + tail)[1..] == tail;
  }

  /** Along that chain the walk writes only `field_value` rows of the
      instance, at most one per reference field. */
  lemma {:induction false} DecodeWalkRows(infos: map<Id, ClassInfo>, cur: Id, visited: set<Id>, size: IdSize, instance: int, input: seq<Byte>)
    requires DecodeWalk(infos, cur, visited, size, instance, input).Ok?
    ensures SuperChain(infos, cur, visited).Some?
    ensures var chain := SuperChain(infos, cur, visited).value;
      var rows := DecodeWalk(infos, cur, visited, size, instance, input).value.0;
      && |rows| <= ChainReferences(infos, chain)
      && (forall k | 0 <= k < |rows| :: rows[k].FieldValueRow? && rows[k].instanceId == instance)
    decreases infos.Keys - visited
  {
    var info := infos[cur];
    var n := |info.fields|;
    DecodeFieldsFacts(info, n, size, instance, input);
    var (rows, rest) := DecodeFields(info, n, size, instance, input).value;
    assert forall k | 0 <= k < |rows| :: RowOfReferenceField(info, n, instance, rows[k]);
    match info.superId
    case None =>
      assert SuperChain(infos, cur, visited) == Some([cur]);
      assert [cur][1..] == [];
    case Some(s) =>
      DecodeWalkRows(infos, s, visited + {cur}, size, instance, rest);
      var tail := SuperChain(infos, s, visited + {cur}).value;
      assert ([cur] + tail)[1..] == tail;
      var more := DecodeWalk(infos, s, visited + {cur}, size, instance, rest).value.0;
      forall k | 0 <= k < |rows + more| ensures (rows + more)[k].FieldValueRow? && (rows + more)[k].instanceId == instance {
        if k < |rows| {
          assert RowOfReferenceField(info, n, instance, rows[k]);
        }
      }
  }

  /** `process_instance` (src/main.rs:328-356) as a whole: it goes through
      only when the instance's class and every class up its superclass
      chain are defined and the field bytes cover all their fields; it then
      writes the surrogate row, the instance row and only `field_value`
      rows of this instance. */
  lemma InstanceRows(size: IdSize, st: Store, inst: Instance)
    requires InstanceStep(size, st, inst).Ok?
    ensures inst.classObjId in st.classInfos
    ensures SuperChain(st.classInfos, inst.classObjId, {}).Some?
    ensures |inst.fields| >= ChainWidth(st.classInfos, SuperChain(st.classInfos, inst.classObjId, {}).value, size)
    ensures var st' := InstanceStep(size, st, inst).value;
      var id := st.instanceId + 1;
      && st'.classInfos == st.classInfos && st'.fieldRowId == st.fieldRowId && st'.instanceId == id
      && |st'.rows| >= |st.rows| + 2
      && st'.rows[..|st.rows| + 2] == st.rows + [ObjIdRow(inst.objId), InstanceRow(id, st.classInfos[inst.classObjId].id)]
      && |st'.rows| - |st.rows| - 2 <= ChainReferences(st.classInfos, SuperChain(st.classInfos, inst.classObjId, {}).value)
      && (forall k | |st.rows| + 2 <= k < |st'.rows| :: st'.rows[k].FieldValueRow? && st'.rows[k].instanceId == id)
  {
    var id := st.instanceId + 1;
    InstanceStepShape(size, st, inst);
    DecodeWalkWidth(st.classInfos, inst.classObjId, {}, size, id, inst.fields);
    DecodeWalkRows(st.classInfos, inst.classObjId, {}, size, id, inst.fields);
    var walkRows := DecodeWalk(st.classInfos, inst.classObjId, {}, size, id, inst.fields).value.0;
    var head := st.rows + [ObjIdRow(inst.objId), InstanceRow(id, st.classInfos[inst.classObjId].id)];
    var st' := InstanceStep(size, st, inst).value;
    assert st'.rows[..|head|] == head;
    forall k | |head| <= k < |st'.rows| ensures st'.rows[k].FieldValueRow? && st'.rows[k].instanceId == id {
      assert st'.rows[k] == walkRows[k - |head|];
    }
  }

  lemma InstanceStepShape(size: IdSize, st: Store, inst: Instance)
    requires InstanceStep(size, st, inst).Ok?
    ensures inst.classObjId in st.classInfos
    ensures var id := st.instanceId + 1;
      && DecodeWalk(st.classInfos, inst.classObjId, {}, size, id, inst.fields).Ok?
      && InstanceStep(size, st, inst).value
           == st.(instanceId := id,
                  rows := st.rows + [ObjIdRow(inst.objId), InstanceRow(id, st.classInfos[inst.classObjId].id)]
                          + DecodeWalk(st.classInfos, inst.classObjId, {}, size, id, inst.fields).value.0)
  {
  }

  lemma {:induction false} ItemRowsShape(arrayId: int, elements: seq<Option<Id>>, n: nat)
    requires n <= |elements|
    ensures |ItemRows(arrayId, elements, n)| == n
    ensures forall i | 0 <= i < n :: ItemRows(arrayId, elements, n)[i] == ObjArrayItemRow(arrayId, i, elements[i])
  {
    if n > 0 {
      ItemRowsShape(arrayId, elements, n - 1);
    }
  }

  /** The ObjectArray arm (src/main.rs:259-274) goes through exactly when
      the array class is defined, and writes the surrogate row, one
      `obj_array` row with the element count, then one item row per element
      in order. */
  lemma ObjectArrayRows(st: Store, a: ObjectArray)
    ensures ObjectArrayStep(st, a).Ok? <==> a.arrayClassObjId in st.classInfos
    ensures ObjectArrayStep(st, a).Ok? ==>
      var st' := ObjectArrayStep(st, a).value;
      var id := st.instanceId + 1;
      var n := |a.elements|;
      && st'.classInfos == st.classInfos && st'.fieldRowId == st.fieldRowId && st'.instanceId == id
      && |st'.rows| == |st.rows| + 2 + n
      && st'.rows[..|st.rows| + 2] == st.rows + [ObjIdRow(a.objId), ObjArrayRow(id, st.classInfos[a.arrayClassObjId].id, n)]
      && (forall i | 0 <= i < n :: st'.rows[|st.rows| + 2 + i] == ObjArrayItemRow(id, i, a.elements[i]))
  {
    ItemRowsShape(st.instanceId + 1, a.elements, |a.elements|);
  }

  /** The PrimitiveArray arm (src/main.rs:275-283) aborts exactly on a char
      array that is not valid UTF-16; otherwise it writes the surrogate row
      and one `primitive_array` row whose text is the decoded string of a
      valid UTF-8 byte array or of a char array, and null otherwise. */
  lemma PrimitiveArrayRows(st: Store, a: PrimitiveArray)
    ensures PrimitiveArrayStep(st, a).Ok? <==> !(a.elements.CharElements? && !ValidUtf16(a.elements.units))
    ensures PrimitiveArrayStep(st, a).Ok? ==>
      var st' := PrimitiveArrayStep(st, a).value;
      var id := st.instanceId + 1;
      && st'.classInfos == st.classInfos && st'.fieldRowId == st.fieldRowId && st'.instanceId == id
      && |st'.rows| == |st.rows| + 2
      && st'.rows[..|st.rows| + 1] == st.rows + [ObjIdRow(a.objId)]
      && var row := st'.rows[|st.rows| + 1];
      && row.PrimitiveArrayRow? && row.id == id
      && row.typeId == PrimitiveArrayTypeId(a.elements.ElementType())
      && row.length == a.elements.Length()
      && (row.text.Some? <==> (a.elements.ByteElements? && ValidUtf8(a.elements.bytes)) || a.elements.CharElements?)
      && (row.text.Some? && a.elements.ByteElements? ==> EncodeUtf8(row.text.value) == a.elements.bytes)
      && (row.text.Some? && a.elements.CharElements? ==> EncodeUtf16(row.text.value) == a.elements.units)
  {
  }
}
