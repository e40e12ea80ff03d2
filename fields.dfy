/**
 * index/IndexableField and index/Field: a field is a name, a stored flag
 * (its type's `stored()`), and up to three accessors that are null or not.
 * The interface lets any combination be non-null; `index/Field` holds one
 * `fieldData` object and answers each accessor by `instanceof`.
 */
module Fields {
  import opened Java

  type int8 = x: int | -TWO_7 <= x < TWO_7

  /**
   * The boxed `Number` classes `writeField` distinguishes.  A float or a
   * double is carried by its bit pattern; any other `Number` subclass is
   * `OtherNumber`.
   */
  datatype Number =
    | ByteNumber(b: int8)
    | ShortNumber(s: int16)
    | IntegerNumber(i: int32)
    | LongNumber(l: int64)
    | FloatNumber(floatBits: int32)
    | DoubleNumber(doubleBits: int64)
    | OtherNumber

  /** `util/BytesRef`: an array with an offset and a length. */
  datatype BytesRefValue = BytesRefValue(bytes: seq<uint8>, offset: int32, length: int32)

  /** `FieldInfo(name, number)`. */
  datatype FieldInfo = FieldInfo(name: string, number: int32)

  datatype Field = Field(
    name: string,
    stored: bool,
    stringValue: Option<string>,
    binaryValue: Option<BytesRefValue>,
    numericValue: Option<Number>)

  /** What `Field.fieldData` holds: a String, a BytesRef, a Number, or anything else (or null). */
  datatype FieldData =
    | StringData(s: string)
    | BinaryData(ref: BytesRefValue)
    | NumericData(n: Number)
    | OtherData

  /**
   * At most one accessor of a field is non-null, which is what lets
   * `writeField` test them one after another.
   */
  predicate SingleValued(f: Field) {
    (if f.stringValue.Some? then 1 else 0)
      + (if f.binaryValue.Some? then 1 else 0)
      + (if f.numericValue.Some? then 1 else 0) <= 1
  }

  /** The data a field's accessors expose, read back in `writeField`'s order. */
  function DataOf(f: Field): FieldData {
    if f.stringValue.Some? then StringData(f.stringValue.value)
    else if f.binaryValue.Some? then BinaryData(f.binaryValue.value)
    else if f.numericValue.Some? then NumericData(f.numericValue.value)
    else OtherData
  }

  /**
   * `new Field(name, type, fieldData)`: the accessors answer by `instanceof`
   * on one object, so at most one of them is non-null and together they give
   * back the data the field was built from.
   */
  function MakeField(name: string, stored: bool, data: FieldData): (f: Field)
    ensures f.name == name && f.stored == stored
    ensures SingleValued(f)
    ensures DataOf(f) == data
  {
    Field(name, stored,
      if data.StringData? then Some(data.s) else None,
      if data.BinaryData? then Some(data.ref) else None,
      if data.NumericData? then Some(data.n) else None)
  }
}
