/** Type-tag codes, field widths, the decoding of one field value from an
    instance's field cursor, and the three-slot classification of a decoded
    value (src/main.rs:358-397). */
module TypeTags {
  import opened Wrappers
  import opened Hprof

  /** The stored type code of a field type (src/main.rs:358-370). */
  function FieldTypeId(t: FieldType): (code: int)
    ensures FieldTypeOfId(code) == Some(t)
  {
    match t
    case ObjectId => 2
    case Boolean => 4
    case Char => 5
    case Float => 6
    case Double => 7
    case Byte => 8
    case Short => 9
    case Int => 10
    case Long => 11
  }

  /** Reading a stored type code back; codes the converter never writes give
      `None`. */
  function FieldTypeOfId(code: int): Option<FieldType> {
    match code
    case 2 => Some(FieldType.ObjectId)
    case 4 => Some(FieldType.Boolean)
    case 5 => Some(FieldType.Char)
    case 6 => Some(FieldType.Float)
    case 7 => Some(FieldType.Double)
    case 8 => Some(FieldType.Byte)
    case 9 => Some(FieldType.Short)
    case 10 => Some(FieldType.Int)
    case 11 => Some(FieldType.Long)
    case _ => None
  }

  /** The field type that holds one element of a primitive array. */
  function ElementFieldType(t: PrimitiveArrayType): FieldType {
    match t
    case Boolean => FieldType.Boolean
    case Char => FieldType.Char
    case Float => FieldType.Float
    case Double => FieldType.Double
    case Byte => FieldType.Byte
    case Short => FieldType.Short
    case Int => FieldType.Int
    case Long => FieldType.Long
  }

  /** The stored type code of a primitive array's element type
      (src/main.rs:386-397): the same code as the field of that type, and
      never the reference code. */
  function PrimitiveArrayTypeId(t: PrimitiveArrayType): (code: int)
    ensures code == FieldTypeId(ElementFieldType(t))
    ensures FieldTypeOfId(code) != Some(FieldType.ObjectId)
  {
    match t
    case Boolean => 4
    case Char => 5
    case Float => 6
    case Double => 7
    case Byte => 8
    case Short => 9
    case Int => 10
    case Long => 11
  }

  /** Bytes one field of type `t` occupies in an instance's field cursor: the
      identifier width for a reference, and the widths of section 2.3 of the
      Java Virtual Machine Specification for primitives. */
  function FieldWidth(t: FieldType, size: IdSize): (w: nat)
    ensures w > 0
  {
    match t
    case ObjectId => IdBytes(size)
    case Boolean => 1
    case Byte => 1
    case Char => 2
    case Short => 2
    case Int => 4
    case Float => 4
    case Long => 8
    case Double => 8
  }

  function Pow256(k: nat): (p: nat)
    ensures p >= 1
  {
    if k == 0 then 1 else 256 * Pow256(k - 1)
  }

  lemma Pow256Values()
    ensures Pow256(1) == 0x100 && Pow256(2) == 0x1_0000
    ensures Pow256(4) == 0x1_0000_0000 && Pow256(8) == 0x1_0000_0000_0000_0000
  {
    assert Pow256(2) == 0x1_0000 by { assert Pow256(1) == 0x100; }
    assert Pow256(4) == 0x1_0000_0000 by { assert Pow256(3) == 0x100_0000; }
    assert Pow256(6) == 0x1_0000_0000_0000 by { assert Pow256(5) == 0x100_0000_0000; }
    assert Pow256(8) == 0x1_0000_0000_0000_0000 by { assert Pow256(7) == 0x100_0000_0000_0000; }
  }

  /** The unsigned big-endian value of a byte string (HPROF is big-endian). */
  function BigEndian(bs: seq<Byte>): (n: nat)
    ensures n < Pow256(|bs|)
  {
    if bs == [] then 0 else BigEndian(bs[..|bs| - 1]) * 256 + bs[|bs| - 1]
  }

  /** Two's-complement reading of a `width`-byte unsigned value. */
  function Signed(u: nat, width: nat): int {
    if 2 * u >= Pow256(width) then u - Pow256(width) else u
  }

  /** A decoded field value. Floating-point values are kept as their raw IEEE
      bit patterns; nothing here computes with them. */
  datatype FieldValue =
    | ObjectIdValue(obj: Option<Id>)
    | BooleanValue(b: bool)
    | CharValue(unit: int)
    | FloatValue(f32Bits: nat)
    | DoubleValue(f64Bits: nat)
    | ByteValue(i8: int)
    | ShortValue(i16: int)
    | IntValue(i32: int)
    | LongValue(i64: int)

  function TypeOf(v: FieldValue): FieldType {
    match v
    case ObjectIdValue(_) => FieldType.ObjectId
    case BooleanValue(_) => FieldType.Boolean
    case CharValue(_) => FieldType.Char
    case FloatValue(_) => FieldType.Float
    case DoubleValue(_) => FieldType.Double
    case ByteValue(_) => FieldType.Byte
    case ShortValue(_) => FieldType.Short
    case IntValue(_) => FieldType.Int
    case LongValue(_) => FieldType.Long
  }

  /** Decodes the value of a field of type `t` from exactly its width of
      bytes. A zero identifier is the null reference. */
  function DecodeValue(t: FieldType, size: IdSize, bs: seq<Byte>): (v: FieldValue)
    requires |bs| == FieldWidth(t, size)
    ensures TypeOf(v) == t
  {
    Pow256Values();
    var u := BigEndian(bs);
    match t
    case ObjectId => ObjectIdValue(if u == 0 then None else Some(u))
    case Boolean => BooleanValue(u != 0)
    case Char => CharValue(u)
    case Float => FloatValue(u)
    case Double => DoubleValue(u)
    case Byte => ByteValue(Signed(u, 1))
    case Short => ShortValue(Signed(u, 2))
    case Int => IntValue(Signed(u, 4))
    case Long => LongValue(Signed(u, 8))
  }

  /** Reads one value of type `t` from the front of `input` and returns it with
      the rest of the cursor; `None` when the cursor is too short (the source
      unwraps this and panics). */
  function ParseValue(t: FieldType, size: IdSize, input: seq<Byte>): (r: Option<(FieldValue, seq<Byte>)>)
    ensures r.Some? <==> |input| >= FieldWidth(t, size)
    ensures r.Some? ==> TypeOf(r.value.0) == t && r.value.1 == input[FieldWidth(t, size)..]
    ensures r.Some? ==> InJavaRange(r.value.0)
  {
    var w := FieldWidth(t, size);
    if |input| < w then None
    else
      DecodedValueInRange(t, size, input[..w]);
      Some((DecodeValue(t, size, input[..w]), input[w..]))
  }

  /** How a value of a given declared type is stored: in the reference, the
      integer or the floating slot of a field-value row. */
  datatype ValueKind = Reference | Integral | Floating

  function Kind(t: FieldType): ValueKind {
    match t
    case ObjectId => Reference
    case Float => Floating
    case Double => Floating
    case _ => Integral
  }

  const MinI64: int := -0x8000_0000_0000_0000
  const MaxI64: int := 0x7fff_ffff_ffff_ffff

  /** The floating slot, stored as a double: a float widens exactly. */
  datatype Float64 = FromF32(f32Bits: nat) | FromF64(f64Bits: nat)

  datatype ValueTuple = ValueTuple(floating: Option<Float64>, integer: Option<int>, obj: Option<int>)

  /** A value that `field_value_tuple` can convert without panicking: a
      reference identifier must fit a signed 64-bit integer. */
  predicate FitsTuple(v: FieldValue) {
    v.ObjectIdValue? && v.obj.Some? ==> v.obj.value <= MaxI64
  }

  /** Every integral value lies in its Java type's range (section 2.3 of
      the Java Virtual Machine Specification). */
  predicate InJavaRange(v: FieldValue) {
    && (v.CharValue? ==> 0 <= v.unit < 0x1_0000)
    && (v.ByteValue? ==> -0x80 <= v.i8 < 0x80)
    && (v.ShortValue? ==> -0x8000 <= v.i16 < 0x8000)
    && (v.IntValue? ==> -0x8000_0000 <= v.i32 < 0x8000_0000)
    && (v.LongValue? ==> MinI64 <= v.i64 <= MaxI64)
  }

  /** Splits a decoded value into the (floating, integer, reference) slots
      (src/main.rs:372-384). The slot used is fixed by the value's declared
      type; a null reference fills no slot. */
  function FieldValueTuple(v: FieldValue): (r: ValueTuple)
    requires FitsTuple(v)
    requires InJavaRange(v)
    ensures r.floating.Some? <==> Kind(TypeOf(v)) == Floating
    ensures r.integer.Some? <==> Kind(TypeOf(v)) == Integral
    ensures r.obj.Some? <==> Kind(TypeOf(v)) == Reference && v.obj.Some?
    ensures r.integer.Some? ==> MinI64 <= r.integer.value <= MaxI64
    ensures r.obj.Some? ==> r.obj.value == v.obj.value
    ensures v.BooleanValue? ==> r.integer == Some(if v.b then 1 else 0)
    ensures v.CharValue? ==> r.integer == Some(v.unit)
    ensures v.ByteValue? ==> r.integer == Some(v.i8)
    ensures v.ShortValue? ==> r.integer == Some(v.i16)
    ensures v.IntValue? ==> r.integer == Some(v.i32)
    ensures v.LongValue? ==> r.integer == Some(v.i64)
    ensures v.FloatValue? ==> r.floating == Some(FromF32(v.f32Bits))
    ensures v.DoubleValue? ==> r.floating == Some(FromF64(v.f64Bits))
  {
    match v
    case ObjectIdValue(obj) => ValueTuple(None, None, obj.Map((o: Id) => o as int))
    case BooleanValue(b) => ValueTuple(None, Some(if b then 1 else 0), None)
    case CharValue(c) => ValueTuple(None, Some(c), None)
    case FloatValue(f) => ValueTuple(Some(FromF32(f)), None, None)
    case DoubleValue(d) => ValueTuple(Some(FromF64(d)), None, None)
    case ByteValue(b) => ValueTuple(None, Some(b), None)
    case ShortValue(s) => ValueTuple(None, Some(s), None)
    case IntValue(i) => ValueTuple(None, Some(i), None)
    case LongValue(l) => ValueTuple(None, Some(l), None)
  }

  /** A decoded integral value lies in its Java type's range, so it always
      satisfies the range requirements of `FieldValueTuple`. */
  lemma DecodedValueInRange(t: FieldType, size: IdSize, bs: seq<Byte>)
    requires |bs| == FieldWidth(t, size)
    ensures var v := DecodeValue(t, size, bs);
      && InJavaRange(v)
      && (size == U32 && v.ObjectIdValue? ==> FitsTuple(v))
  {
    Pow256Values();
  }

  /** At most one of the three slots is filled, for every value. */
  lemma AtMostOneSlot(v: FieldValue)
    requires FitsTuple(v)
    requires InJavaRange(v)
    ensures var r := FieldValueTuple(v);
      (if r.floating.Some? then 1 else 0) + (if r.integer.Some? then 1 else 0) + (if r.obj.Some? then 1 else 0) <= 1
    ensures var r := FieldValueTuple(v);
      !(v.ObjectIdValue? && v.obj.None?) ==> r.floating.Some? || r.integer.Some? || r.obj.Some?
  {
  }
}
