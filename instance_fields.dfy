/** The exact `field_value` rows of an instance, defined from the offsets
    of its fields in the raw field bytes rather than by walking a cursor,
    and proved equal to what the walk of `process_instance` writes. */
module InstanceFields {
  import opened Wrappers
  import opened Hprof
  import opened TypeTags
  import opened Loader
  import opened LoaderFacts

  // ---------------------------------------------------------------------
  // One class

  /** The value of field `i`, decoded from its own bytes: those after the
      first `i` fields. */
  function ValueAt(fields: seq<FieldDescriptor>, i: nat, size: IdSize, input: seq<Byte>): FieldValue
    requires i < |fields| && FieldsWidth(fields, i + 1, size) <= |input|
  {
    DecodeValue(fields[i].fieldType, size, input[FieldsWidth(fields, i, size)..FieldsWidth(fields, i + 1, size)])
  }

  /** A field whose value is a non-null reference. */
  predicate IsReference(v: FieldValue) {
    v.ObjectIdValue? && v.obj.Some?
  }

  /** What decoding field `i` needs besides its bytes: a non-null reference
      must fit a signed 64-bit integer and the class must have a field id
      at index `i`. */
  predicate FieldStorable(info: ClassInfo, i: nat, v: FieldValue) {
    IsReference(v) ==> v.obj.value <= MaxI64 && i < |info.fieldIds|
  }

  /** The first `n` fields of a class can be decoded from `input`: their
      bytes are there and every one of them is storable. */
  ghost predicate FieldsDecodable(info: ClassInfo, n: nat, size: IdSize, input: seq<Byte>)
    requires n <= |info.fields|
  {
    && FieldsWidth(info.fields, n, size) <= |input|
    && forall i | 0 <= i < n && FieldsWidth(info.fields, i + 1, size) <= |input| ::
         FieldStorable(info, i, ValueAt(info.fields, i, size, input))
  }

  lemma FieldsDecodableStep(info: ClassInfo, n: nat, size: IdSize, input: seq<Byte>)
    requires 0 < n <= |info.fields|
    ensures FieldsDecodable(info, n, size, input) <==>
      && FieldsDecodable(info, n - 1, size, input)
      && FieldsWidth(info.fields, n, size) <= |input|
      && FieldStorable(info, n - 1, ValueAt(info.fields, n - 1, size, input))
  {
  }

  /** The rows the first `n` fields should yield: one `field_value` row per
      non-null reference, in declaration order, keyed by that field's id
      and holding the referenced id. */
  ghost function ReferenceRows(info: ClassInfo, n: nat, size: IdSize, instance: int, input: seq<Byte>): seq<Row>
    requires n <= |info.fields|
    requires FieldsDecodable(info, n, size, input)
  {
    if n == 0 then []
    else
      FieldsDecodableStep(info, n, size, input);
      var v := ValueAt(info.fields, n - 1, size, input);
      ReferenceRows(info, n - 1, size, instance, input)
        + (if IsReference(v) then [FieldValueRow(instance, info.fieldIds[n - 1], v.obj.value)] else [])
  }

  /** One field, decoded at the cursor left by the fields before it. */
  lemma FieldStepExact(info: ClassInfo, i: nat, size: IdSize, instance: int, input: seq<Byte>, rest: seq<Byte>)
    requires i < |info.fields|
    requires FieldsWidth(info.fields, i, size) <= |input|
    requires rest == input[FieldsWidth(info.fields, i, size)..]
    ensures FieldStep(info, i, size, instance, rest).Ok? <==>
      FieldsWidth(info.fields, i + 1, size) <= |input| && FieldStorable(info, i, ValueAt(info.fields, i, size, input))
    ensures FieldStep(info, i, size, instance, rest).Ok? ==>
      var v := ValueAt(info.fields, i, size, input);
      FieldStep(info, i, size, instance, rest).value
        == ((if IsReference(v) then [FieldValueRow(instance, info.fieldIds[i], v.obj.value)] else []),
            input[FieldsWidth(info.fields, i + 1, size)..])
  {
    var t := info.fields[i].fieldType;
    var a := FieldsWidth(info.fields, i, size);
    var b := FieldsWidth(info.fields, i + 1, size);
    if b <= |input| {
      assert rest[..FieldWidth(t, size)] == input[a..b];
      assert rest[FieldWidth(t, size)..] == input[b..];
    }
  }

  /** Decoding the fields of one class (src/main.rs:338-352) goes through
      exactly when they are decodable; it then writes exactly the reference
      rows, in order, and leaves the bytes after the last field. */
  lemma {:induction false} DecodeFieldsExact(info: ClassInfo, n: nat, size: IdSize, instance: int, input: seq<Byte>)
    requires n <= |info.fields|
    ensures DecodeFields(info, n, size, instance, input).Ok? <==> FieldsDecodable(info, n, size, input)
    ensures DecodeFields(info, n, size, instance, input).Ok? ==>
      DecodeFields(info, n, size, instance, input).value
        == (ReferenceRows(info, n, size, instance, input), input[FieldsWidth(info.fields, n, size)..])
  {
    if n > 0 {
      DecodeFieldsExact(info, n - 1, size, instance, input);
      FieldsDecodableStep(info, n, size, input);
      if DecodeFields(info, n - 1, size, instance, input).Ok? {
        var (rows, rest) := DecodeFields(info, n - 1, size, instance, input).value;
        DecodeFieldsNext(info, n - 1, size, instance, input, rows, rest);
        FieldStepExact(info, n - 1, size, instance, input, rest);
      }
    }
  }

  // ---------------------------------------------------------------------
  // The superclass chain

  /** Every class of the chain can be decoded from the bytes left by the
      classes before it. */
  ghost predicate ChainDecodable(infos: map<Id, ClassInfo>, chain: seq<Id>, size: IdSize, input: seq<Byte>)
    requires forall i | 0 <= i < |chain| :: chain[i] in infos
    decreases |chain|
  {
    chain == [] ||
      var info := infos[chain[0]];
      && FieldsDecodable(info, |info.fields|, size, input)
      && ChainDecodable(infos, chain[1..], size, input[FieldsWidth(info.fields, |info.fields|, size)..])
  }

  /** The rows of the chain: the reference rows of the instance's own class,
      then those of each superclass in turn. */
  ghost function ChainRows(infos: map<Id, ClassInfo>, chain: seq<Id>, size: IdSize, instance: int, input: seq<Byte>): seq<Row>
    requires forall i | 0 <= i < |chain| :: chain[i] in infos
    requires ChainDecodable(infos, chain, size, input)
    decreases |chain|
  {
    if chain == [] then []
    else
      var info := infos[chain[0]];
      var n := |info.fields|;
      ReferenceRows(info, n, size, instance, input)
        + ChainRows(infos, chain[1..], size, instance, input[FieldsWidth(info.fields, n, size)..])
  }

  /** The walk of `process_instance` (src/main.rs:334-354) goes through
      exactly when the superclass chain is defined and acyclic and every
      class on it is decodable; it then writes exactly the chain's rows. */
  lemma {:induction false} DecodeWalkExact(infos: map<Id, ClassInfo>, cur: Id, visited: set<Id>, size: IdSize, instance: int, input: seq<Byte>)
    ensures DecodeWalk(infos, cur, visited, size, instance, input).Ok? <==>
      SuperChain(infos, cur, visited).Some? && ChainDecodable(infos, SuperChain(infos, cur, visited).value, size, input)
    ensures DecodeWalk(infos, cur, visited, size, instance, input).Ok? ==>
      DecodeWalk(infos, cur, visited, size, instance, input).value.0
        == ChainRows(infos, SuperChain(infos, cur, visited).value, size, instance, input)
    decreases infos.Keys - visited
  {
    if cur in infos && cur !in visited {
      var info := infos[cur];
      var n := |info.fields|;
      DecodeFieldsExact(info, n, size, instance, input);
      if DecodeFields(info, n, size, instance, input).Ok? {
        var rest := input[FieldsWidth(info.fields, n, size)..];
        match info.superId
        case None =>
          assert SuperChain(infos, cur, visited) == Some([cur]);
          assert [cur][1..] == [];
        case Some(s) =>
          DecodeWalkExact(infos, s, visited + {cur}, size, instance, rest);
          if SuperChain(infos, s, visited + {cur}).Some? {
            var tail := SuperChain(infos, s, visited + {cur}).value;
            assert ([cur] + tail)[1..] == tail;
          }
      } else if SuperChain(infos, cur, visited).Some? {
        assert SuperChain(infos, cur, visited).value[0] == cur;
      }
    }
  }

  // ---------------------------------------------------------------------
  // The whole instance

  /** `process_instance` (src/main.rs:328-356) goes through exactly when
      the instance's class is defined, its superclass chain is defined and
      acyclic, and the field bytes hold every field of the chain with each
      reference storable. It then writes the surrogate row, the instance
      row and exactly the chain's reference rows, own class first. */
  lemma InstanceStepExact(size: IdSize, st: Store, inst: Instance)
    ensures InstanceStep(size, st, inst).Ok? <==>
      && inst.classObjId in st.classInfos
      && SuperChain(st.classInfos, inst.classObjId, {}).Some?
      && ChainDecodable(st.classInfos, SuperChain(st.classInfos, inst.classObjId, {}).value, size, inst.fields)
    ensures InstanceStep(size, st, inst).Ok? ==>
      var id := st.instanceId + 1;
      && InstanceStep(size, st, inst).value.instanceId == id
      && InstanceStep(size, st, inst).value.rows
           == st.rows + [ObjIdRow(inst.objId), InstanceRow(id, st.classInfos[inst.classObjId].id)]
              + ChainRows(st.classInfos, SuperChain(st.classInfos, inst.classObjId, {}).value, size, id, inst.fields)
  {
    DecodeWalkExact(st.classInfos, inst.classObjId, {}, size, st.instanceId + 1, inst.fields);
    if InstanceStep(size, st, inst).Ok? {
      InstanceStepShape(size, st, inst);
    }
  }
}
