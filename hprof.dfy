/** The decoded HPROF records that the converter consumes. The binary framing
    of the capture file (record headers, sub-record tags, element iterators)
    is decoded by a library that is not part of this model: the records below
    are what that library hands over. */
module Hprof {
  import opened Wrappers

  /** A native HPROF identifier: an unsigned 64-bit value (32-bit captures
      zero-extend). */
  type Id = x: int | 0 <= x < 0x1_0000_0000_0000_0000

  /** An unsigned byte (`u8`) and an unsigned 16-bit code unit (`u16`). */
  type Byte = b: int | 0 <= b < 0x100
  type U16 = u: int | 0 <= u < 0x1_0000

  /** The identifier width that the capture header declares. */
  datatype IdSize = U32 | U64

  /** Width in bytes of an identifier (src/main.rs:182-185). */
  function IdBytes(size: IdSize): (n: nat)
    ensures n == 4 || n == 8
  {
    match size
    case U32 => 4
    case U64 => 8
  }

  datatype FieldType = ObjectId | Boolean | Char | Float | Double | Byte | Short | Int | Long

  datatype PrimitiveArrayType = Boolean | Char | Float | Double | Byte | Short | Int | Long

  /** One declared instance field of a class definition. */
  datatype FieldDescriptor = FieldDescriptor(nameId: Id, fieldType: FieldType)

  /** A class-definition sub-record. The instance size is an unsigned 32-bit
      value in the format. */
  datatype Class = Class(
    objId: Id,
    superClassObjId: Option<Id>,
    instanceSizeBytes: nat,
    fieldDescriptors: seq<FieldDescriptor>)

  /** An instance sub-record: its raw field bytes form the cursor that the
      field decoder walks. */
  datatype Instance = Instance(objId: Id, classObjId: Id, fields: seq<Byte>)

  /** An object-array sub-record, with its elements already decoded
      (`None` is a null reference). */
  datatype ObjectArray = ObjectArray(objId: Id, arrayClassObjId: Id, elements: seq<Option<Id>>)

  /** The decoded elements of a primitive array. Only byte and char elements
      are ever looked at by the converter; for the other element types only
      the count matters. */
  datatype PrimitiveElements =
    | BooleanElements(count: nat)
    | CharElements(units: seq<U16>)
    | FloatElements(count: nat)
    | DoubleElements(count: nat)
    | ByteElements(bytes: seq<Byte>)
    | ShortElements(count: nat)
    | IntElements(count: nat)
    | LongElements(count: nat)
  {
    function ElementType(): PrimitiveArrayType {
      match this
      case BooleanElements(_) => PrimitiveArrayType.Boolean
      case CharElements(_) => PrimitiveArrayType.Char
      case FloatElements(_) => PrimitiveArrayType.Float
      case DoubleElements(_) => PrimitiveArrayType.Double
      case ByteElements(_) => PrimitiveArrayType.Byte
      case ShortElements(_) => PrimitiveArrayType.Short
      case IntElements(_) => PrimitiveArrayType.Int
      case LongElements(_) => PrimitiveArrayType.Long
    }

    /** The element count. */
    function Length(): nat {
      match this
      case CharElements(units) => |units|
      case ByteElements(bytes) => |bytes|
      case BooleanElements(n) => n
      case FloatElements(n) => n
      case DoubleElements(n) => n
      case ShortElements(n) => n
      case IntElements(n) => n
      case LongElements(n) => n
    }
  }

  datatype PrimitiveArray = PrimitiveArray(objId: Id, elements: PrimitiveElements)

  /** The sub-records of a heap-dump segment; GC roots and the other kinds
      are ignored by the converter. */
  datatype SubRecord =
    | ClassDump(classDef: Class)
    | InstanceDump(instance: Instance)
    | ObjectArrayDump(array: ObjectArray)
    | PrimitiveArrayDump(primitiveArray: PrimitiveArray)
    | OtherSubRecord

  /** Top-level records. `HeapDump` and `HeapDumpSegment` records are handled
      alike, so one constructor stands for both. A `Utf8` record's text is the
      raw byte string of the name pool entry. */
  datatype Record =
    | HeapDumpSegment(subRecords: seq<SubRecord>)
    | LoadClass(classObjId: Id, classNameId: Id)
    | Utf8(nameId: Id, text: seq<Byte>)
    | OtherRecord

  datatype Header = Header(formatLabel: string, idSize: IdSize, timestampMillis: int)
}
