/**
 * index/StoredFieldConsumer: buffers the stored fields of documents in a
 * RamWriter, one tagged record per field, and keeps per document the
 * number of fields and the end offset of its bytes; after 128 buffered
 * documents every `finishDocument` flushes a chunk.
 */
module StoredFieldConsumer {
  import opened Java
  import opened BitUtils
  import opened BytesRef
  import opened Writer
  import opened Reader
  import opened Fields
  import RamWriter

  // Type codes, the low three bits of a record's tag.
  const STRING := 0x00
  const BYTE_ARR := 0x01
  const NUMERIC_INT := 0x02
  const NUMERIC_FLOAT := 0x03
  const NUMERIC_LONG := 0x04
  const NUMERIC_DOUBLE := 0x05

  /**
   * `writeTlong`, `writeZFloat` and `writeZDouble`: encoders the chosen
   * writer calls that are not part of this model, as functions from the
   * value (a float or double by its bits) to the bytes they emit.
   */
  datatype Encoders = Encoders(
    tlong: int64 -> seq<uint8>,
    zfloat: int32 -> seq<uint8>,
    zdouble: int64 -> seq<uint8>)

  /** The type code of a number: ints of every width share one code; other classes are refused. */
  function NumericTypeCode(n: Number): (r: Result<int>)
    ensures r.Err? <==> n.OtherNumber?
    ensures r.Err? ==> r.error == IllegalArgumentException
    ensures r.Ok? ==> NUMERIC_INT <= r.value <= NUMERIC_DOUBLE
    ensures n.ByteNumber? || n.ShortNumber? || n.IntegerNumber? ==> r == Ok(NUMERIC_INT)
    ensures n.LongNumber? ==> r == Ok(NUMERIC_LONG)
    ensures n.FloatNumber? ==> r == Ok(NUMERIC_FLOAT)
    ensures n.DoubleNumber? ==> r == Ok(NUMERIC_DOUBLE)
  {
    match n
    case ByteNumber(_) => Ok(NUMERIC_INT)
    case ShortNumber(_) => Ok(NUMERIC_INT)
    case IntegerNumber(_) => Ok(NUMERIC_INT)
    case LongNumber(_) => Ok(NUMERIC_LONG)
    case FloatNumber(_) => Ok(NUMERIC_FLOAT)
    case DoubleNumber(_) => Ok(NUMERIC_DOUBLE)
    case OtherNumber => Err(IllegalArgumentException)
  }

  /** What `writeField` decided to write: the type code and the `bytes` and `string` locals. */
  datatype Selection = Selection(bits: int, bytes: Option<BytesRefValue>, str: Option<string>)

  /**
   * The choice of `writeField` as written: a field without a number and
   * without binary bytes is tagged BYTE_ARR with nothing to write, and one
   * with binary bytes is tagged STRING and needs a string value too.
   */
  function SelectAsWritten(f: Field): (r: Result<Selection>)
    ensures r.Err? ==> r.error == IllegalArgumentException
    ensures f.numericValue.None? && f.binaryValue.None? ==> r == Ok(Selection(BYTE_ARR, None, None))
    ensures f.numericValue.None? && f.binaryValue.Some? ==>
      r == if f.stringValue.None? then Err(IllegalArgumentException)
           else Ok(Selection(STRING, f.binaryValue, f.stringValue))
  {
    if f.numericValue.Some? then
      var bits :- NumericTypeCode(f.numericValue.value);
      Ok(Selection(bits, None, None))
    else if f.binaryValue.None? then Ok(Selection(BYTE_ARR, None, None))
    else if f.stringValue.None? then Err(IllegalArgumentException)
    else Ok(Selection(STRING, f.binaryValue, f.stringValue))
  }

  /**
   * The evident intent: binary bytes are tagged BYTE_ARR, otherwise the
   * string value is tagged STRING, and a field with neither is refused.
   */
  function Select(f: Field): (r: Result<Selection>)
    ensures r.Err? ==> r.error == IllegalArgumentException
    ensures f.numericValue.None? && f.binaryValue.Some? ==> r == Ok(Selection(BYTE_ARR, f.binaryValue, None))
    ensures f.numericValue.None? && f.binaryValue.None? ==>
      r == if f.stringValue.None? then Err(IllegalArgumentException)
           else Ok(Selection(STRING, None, f.stringValue))
  {
    if f.numericValue.Some? then
      var bits :- NumericTypeCode(f.numericValue.value);
      Ok(Selection(bits, None, None))
    else if f.binaryValue.Some? then Ok(Selection(BYTE_ARR, f.binaryValue, None))
    else if f.stringValue.None? then Err(IllegalArgumentException)
    else Ok(Selection(STRING, None, f.stringValue))
  }

  /**
   * `((long) number << 3) | bits`: the shift leaves the low three bits
   * clear, so the `|` adds the code; `& 7` and `>> 3` take the two apart.
   */
  function Tag(number: int32, bits: int): (t: int64)
    requires 0 <= bits < 8
    ensures t % 8 == bits && t / 8 == number
  {
    number * 8 + bits
  }

  /** The bytes a record starts with: the tag as a VLong. */
  function TagBytes(number: int32, bits: int): seq<uint8>
    requires 0 <= bits < 8
  {
    VarintBytes(Unsigned(64, Tag(number, bits)))
  }

  /** What a record appends after its tag, and how the write ends. */
  datatype Written = Written(bytes: seq<uint8>, outcome: Outcome)

  /** The bytes of a BytesRef: a vint length, then the slice as RamWriter's `writeBytes` copies it. */
  function BytesPayload(b: BytesRefValue): Written {
    Written(VarintBytes(Unsigned(32, b.length)) + RamWriter.Copied(b.bytes, b.offset, b.length),
      if b.length <= 0 || (0 <= b.offset && b.offset + b.length <= |b.bytes|) then Normal
      else Thrown(IndexOutOfBoundsException))
  }

  /** The bytes of a number: `writeZInt` for an int of any width, else the unseen encoders. */
  function NumberPayload(n: Option<Number>, enc: Encoders): Written {
    if n.None? then Written([], Thrown(AssertionError))
    else
      match n.value
      case ByteNumber(i) => Written(VarintBytes(Unsigned(32, ZigZagEncode(32, i))), Normal)
      case ShortNumber(i) => Written(VarintBytes(Unsigned(32, ZigZagEncode(32, i))), Normal)
      case IntegerNumber(i) => Written(VarintBytes(Unsigned(32, ZigZagEncode(32, i))), Normal)
      case LongNumber(l) => Written(enc.tlong(l), Normal)
      case FloatNumber(bits) => Written(enc.zfloat(bits), Normal)
      case DoubleNumber(bits) => Written(enc.zdouble(bits), Normal)
      case OtherNumber => Written([], Thrown(AssertionError))
  }

  /** The payload after the tag: the bytes if there are any, else the string, else the number. */
  function Payload(sel: Selection, n: Option<Number>, enc: Encoders): (w: Written)
    requires sel.str.Some? ==> |Utf8Encode(sel.str.value)| < TWO_31
  {
    if sel.bytes.Some? then BytesPayload(sel.bytes.value)
    else if sel.str.Some? then
      var u := Utf8Encode(sel.str.value);
      Written(VarintBytes(|u|) + u, Normal)
    else NumberPayload(n, enc)
  }

  /** The record `writeField` appends for a selection: nothing when refused, else the tag and the payload. */
  function Record(number: int32, sel: Result<Selection>, n: Option<Number>, enc: Encoders): (w: Written)
    requires sel.Ok? ==> 0 <= sel.value.bits < 8
    requires sel.Ok? && sel.value.str.Some? ==> |Utf8Encode(sel.value.str.value)| < TWO_31
  {
    if sel.Err? then Written([], Thrown(sel.error))
    else
      var p := Payload(sel.value, n, enc);
      Written(TagBytes(number, sel.value.bits) + p.bytes, p.outcome)
  }

  /** A string field small enough for a Java array. */
  predicate Encodable(f: Field) {
    f.stringValue.Some? ==> |Utf8Encode(f.stringValue.value)| < TWO_31
  }

  /** The selections only ever carry a type code and a string of the field. */
  lemma SelectionsWellFormed(f: Field)
    requires Encodable(f)
    ensures SelectAsWritten(f).Ok? ==> 0 <= SelectAsWritten(f).value.bits < 8
    ensures SelectAsWritten(f).Ok? && SelectAsWritten(f).value.str.Some? ==>
      SelectAsWritten(f).value.str == f.stringValue
    ensures Select(f).Ok? ==> 0 <= Select(f).value.bits < 8
    ensures Select(f).Ok? && Select(f).value.str.Some? ==> Select(f).value.str == f.stringValue
  {
  }

  /** What `writeField` as written appends for a field, and how it ends. */
  function FieldRecordAsWritten(info: FieldInfo, f: Field, enc: Encoders): Written
    requires Encodable(f)
  {
    SelectionsWellFormed(f);
    Record(info.number, SelectAsWritten(f), f.numericValue, enc)
  }

  /** What the intended `writeField` appends for a field, and how it ends. */
  function FieldRecord(info: FieldInfo, f: Field, enc: Encoders): Written
    requires Encodable(f)
  {
    SelectionsWellFormed(f);
    Record(info.number, Select(f), f.numericValue, enc)
  }

  // ---------------------------------------------------------------------
  // What the records mean.

  /** A record's tag reads back as a VLong whose low three bits are the code and the rest the field number. */
  lemma TagRoundTrip(src: seq<uint8>, pos: nat, number: int32, bits: int)
    requires 0 <= bits < 8
    requires var t := TagBytes(number, bits); pos + |t| <= |src| && src[pos..pos + |t|] == t
    ensures var d := DecodeVarintFrom(64, src, pos, 0, 0);
      d.Ok? && d.value.next == pos + |TagBytes(number, bits)| &&
      d.value.value % 8 == bits && d.value.value / 8 == number
  {
    ReadVarintOfVarintBytes(64, src, pos, Tag(number, bits));
  }

  /**
   * As written, a field holding only a string is tagged BYTE_ARR and then
   * fails with an AssertionError, which is an Error and not an Exception;
   * a field holding only bytes is refused before anything is written.
   */
  lemma AsWrittenRejectsStringsAndBytes(info: FieldInfo, f: Field, enc: Encoders)
    requires Encodable(f) && f.numericValue.None?
    ensures f.stringValue.Some? && f.binaryValue.None? ==>
      FieldRecordAsWritten(info, f, enc) == Written(TagBytes(info.number, BYTE_ARR), Thrown(AssertionError)) &&
      !IsException(AssertionError)
    ensures f.stringValue.None? && f.binaryValue.Some? ==>
      FieldRecordAsWritten(info, f, enc) == Written([], Thrown(IllegalArgumentException))
  {
    if f.stringValue.Some? && f.binaryValue.None? {
      assert TagBytes(info.number, BYTE_ARR) + [] == TagBytes(info.number, BYTE_ARR);
    }
  }

  /** Intended: a string field is stored as a STRING tag and `writeString`. */
  lemma StringRecord(info: FieldInfo, f: Field, enc: Encoders)
    requires Encodable(f) && f.numericValue.None? && f.binaryValue.None? && f.stringValue.Some?
    ensures var u := Utf8Encode(f.stringValue.value);
      FieldRecord(info, f, enc) == Written(TagBytes(info.number, STRING) + (VarintBytes(|u|) + u), Normal)
  {
  }

  /** A tag followed by a length-prefixed string reads back as both. */
  lemma TagStringRoundTrip(number: int32, bits: int, u: seq<uint8>)
    requires 0 <= bits < 8 && |u| < TWO_31
    ensures var t := TagBytes(number, bits); var w := t + (VarintBytes(|u|) + u);
      DecodeVarintFrom(64, w, 0, 0, 0) == Ok(Read(Tag(number, bits), |t|)) &&
      StringAt(w, |t|) == Ok(Read(u, |w|))
  {
    var t := TagBytes(number, bits);
    var p := VarintBytes(|u|) + u;
    var w := t + p;
    assert w[0..|t|] == t;
    ReadVarintOfVarintBytes(64, w, 0, Tag(number, bits));
    assert w[|t|..|t| + |p|] == p;
    ReadLengthPrefixed(w, |t|, u);
  }

  /** Intended: a binary field is stored as a BYTE_ARR tag, its length and its bytes. */
  lemma BinaryRecord(info: FieldInfo, f: Field, enc: Encoders)
    requires Encodable(f) && f.numericValue.None? && f.binaryValue.Some?
    requires var b := f.binaryValue.value; 0 <= b.offset && 0 <= b.length && b.offset + b.length <= |b.bytes|
    ensures var w := FieldRecord(info, f, enc); var b := f.binaryValue.value;
      w.outcome == Normal &&
      w.bytes == TagBytes(info.number, BYTE_ARR) + VarintBytes(b.length) + b.bytes[b.offset..b.offset + b.length]
  {
    var b := f.binaryValue.value;
    UnsignedSmall(32, b.length);
  }

  /** Intended: every refusal is an IllegalArgumentException, and nothing throws an Error. */
  lemma IntendedThrowsOnlyExceptions(info: FieldInfo, f: Field, enc: Encoders)
    requires Encodable(f)
    ensures FieldRecord(info, f, enc).outcome.Thrown? ==> IsException(FieldRecord(info, f, enc).outcome.error)
    ensures FieldRecord(info, f, enc).outcome == Thrown(IllegalArgumentException) <==>
      (f.numericValue.Some? && f.numericValue.value.OtherNumber?) ||
      (f.numericValue.None? && f.binaryValue.None? && f.stringValue.None?)
  {
  }

  // ---------------------------------------------------------------------
  // The lengths a flush computes.

  /**
   * `lengths` after the loop of `flush`: entry i is `endOffsets[i] -
   * endOffsets[i - 1]` in int arithmetic for i >= 1; entry 0 is never
   * assigned and keeps the array's 0.
   */
  function ChunkLengths(ends: seq<int32>): (r: seq<int>)
    ensures |r| == |ends|
  {
    seq(|ends|, i requires 0 <= i < |ends| => Gap(ends, i))
  }

  /** The int difference of an offset from the one before it; the first chunk length stays 0. */
  function Gap(ends: seq<int32>, i: nat): int
    requires i < |ends|
  {
    if i == 0 then 0 else Wrap32(ends[i] as int - ends[i - 1] as int)
  }

  /** Document sizes, in order, that end at the given offsets. */
  predicate Ascending(ends: seq<int>) {
    forall j, k :: 0 <= j <= k < |ends| ==> ends[j] <= ends[k]
  }

  lemma AppendAssoc(a: seq<uint8>, b: seq<uint8>, c: seq<uint8>)
    ensures (a + b) + c == a + (b + c)
  {
  }

  lemma AscendingSnoc(s: seq<int>, x: int)
    requires Ascending(s) && forall k :: 0 <= k < |s| ==> s[k] <= x
    ensures Ascending(s + [x])
  {
  }

  function Sum(s: seq<int>): int {
    if s == [] then 0 else Sum(s[..|s| - 1]) + s[|s| - 1]
  }

  /** Where the offsets are exact, entry i >= 1 is the size of document i; the first is 0. */
  lemma ChunkLengthsAreDocSizes(ends: seq<int32>, sizes: seq<int>)
    requires |ends| == |sizes| && Ascending(sizes)
    requires forall k :: 0 <= k < |sizes| ==> 0 <= sizes[k] && ends[k] == sizes[k]
    ensures |ends| > 0 ==> ChunkLengths(ends)[0] == 0
    ensures forall k :: 1 <= k < |ends| ==> ChunkLengths(ends)[k] == sizes[k] - sizes[k - 1] >= 0
  {
    forall k | 1 <= k < |ends| ensures ChunkLengths(ends)[k] == sizes[k] - sizes[k - 1] >= 0 {
      assert sizes[k - 1] <= sizes[k];
      WrapOffset(sizes[k] - sizes[k - 1]);
    }
  }

  /**
   * Lengths that are the gaps between growing offsets, with 0 first, add up
   * to the bytes after the first document: its own size is not counted.
   */
  lemma {:induction false} GapsSum(r: seq<int>, sizes: seq<int>)
    requires |r| == |sizes| > 0 && r[0] == 0
    requires forall k :: 1 <= k < |r| ==> r[k] == sizes[k] - sizes[k - 1]
    ensures Sum(r) == sizes[|sizes| - 1] - sizes[0]
  {
    var n := |r| - 1;
    if n == 0 {
      assert r[..0] == [];
    } else {
      GapsSum(r[..n], sizes[..n]);
    }
  }

  /** An offset below 2^31 survives the cast to int. */
  lemma WrapOffset(x: int)
    requires 0 <= x < TWO_31
    ensures Wrap32(x) == x
  {
    UnsignedSmall(32, x);
    WrapUnsigned(32, x);
  }

  /**
   * The loop of `flush`: `lengths = new int[endOffsets.size()]`, then for i
   * from `numBufferedDocs - 1` down to 1 the difference of neighbouring offsets.
   */
  method ComputeLengths(ends: seq<int32>, numBufferedDocs: int) returns (lengths: array<int>)
    requires numBufferedDocs == |ends|
    ensures fresh(lengths) && lengths[..] == ChunkLengths(ends)
  {
    lengths := new int[|ends|](_ => 0);
    var i := numBufferedDocs - 1;
    while i > 0
      invariant -1 <= i < lengths.Length && (lengths.Length > 0 ==> 0 <= i)
      invariant forall k :: 0 < k <= i ==> lengths[k] == 0
      invariant forall k :: i < k < lengths.Length ==> lengths[k] == Gap(ends, k)
      invariant lengths.Length > 0 ==> lengths[0] == 0
    {
      lengths[i] := Gap(ends, i);
      i := i - 1;
    }
    assert lengths[..] == ChunkLengths(ends);
  }

  class StoredFieldConsumer {
    const maxDocsPerChunk: int
    const encoders: Encoders
    const bufferedDocs: RamWriter.RamWriter
    var numBufferedDocs: int
    var numStoredFieldsInDoc: int
    var numChunks: int
    var docBase: int
    var numStoredFields: seq<int>
    var endOffsets: seq<int32>
    /** The sizes of the buffer at each `finishDocument`, before the cast to int. */
    ghost var docEnds: seq<int>

    /**
     * The buffer is a valid RamWriter apart from this object; there is one
     * entry per buffered document in each list; and the offsets are the
     * growing buffer sizes, cast to int.
     */
    ghost predicate Valid()
      reads this, bufferedDocs, bufferedDocs.Repr
    {
      bufferedDocs.Valid() && this !in bufferedDocs.Repr &&
      Bookkeeping(|bufferedDocs.written|)
    }

    /** The per-document lists, for a buffer of `size` bytes. */
    ghost predicate Bookkeeping(size: int)
      reads this
    {
      maxDocsPerChunk == 128 &&
      numBufferedDocs == |endOffsets| == |numStoredFields| == |docEnds| &&
      Ascending(docEnds) &&
      (forall k :: 0 <= k < |docEnds| ==> 0 <= docEnds[k] <= size) &&
      (forall k :: 0 <= k < |docEnds| ==> endOffsets[k] == Wrap32(docEnds[k]))
    }

    /** The lists stay consistent while the buffer only grows. */
    lemma BookkeepingGrows(size: int, larger: int)
      requires Bookkeeping(size) && size <= larger
      ensures Bookkeeping(larger)
    {
    }

    /**
     * The constructor: an empty RamWriter, no buffered document, no chunk,
     * empty lists and chunks of at most 128 documents.  Writing the header
     * through a Directory is not part of this model.
     */
    constructor (encoders: Encoders)
      ensures Valid() && fresh(bufferedDocs) && fresh(bufferedDocs.Repr)
      ensures bufferedDocs.written == []
      ensures numBufferedDocs == 0 && docBase == 0 && numChunks == 0 && numStoredFieldsInDoc == 0
      ensures numStoredFields == [] && endOffsets == [] && maxDocsPerChunk == 128
      ensures this.encoders == encoders
    {
      this.encoders := encoders;
      bufferedDocs := new RamWriter.RamWriter();
      numBufferedDocs := 0;
      docBase := 0;
      numStoredFields := [];
      endOffsets := [];
      docEnds := [];
      maxDocsPerChunk := 128;
      numChunks := 0;
      numStoredFieldsInDoc := 0;
    }

    /** Hand bytes to the buffer's `writeByte` one by one, as the Writer encoders do. */
    method Append(bytes: seq<uint8>)
      requires Valid()
      modifies bufferedDocs, bufferedDocs.Repr
      ensures Valid() && fresh(bufferedDocs.Repr - old(bufferedDocs.Repr))
      ensures bufferedDocs.written == old(bufferedDocs.written) + bytes
    {
      var i := 0;
      while i < |bytes|
        invariant 0 <= i <= |bytes|
        invariant Valid() && fresh(bufferedDocs.Repr - old(bufferedDocs.Repr))
        invariant bufferedDocs.written == old(bufferedDocs.written) + bytes[..i]
      {
        bufferedDocs.WriteByte(bytes[i]);
        assert bytes[..i + 1] == bytes[..i] + [bytes[i]];
        i := i + 1;
      }
      assert bytes[..i] == bytes;
    }

    /** The payload of `writeField`, after the tag. */
    method WritePayload(sel: Selection, n: Option<Number>) returns (o: Outcome)
      requires Valid()
      requires sel.str.Some? ==> |Utf8Encode(sel.str.value)| < TWO_31
      modifies bufferedDocs, bufferedDocs.Repr
      ensures Valid() && fresh(bufferedDocs.Repr - old(bufferedDocs.Repr))
      ensures bufferedDocs.written == old(bufferedDocs.written) + Payload(sel, n, encoders).bytes
      ensures o == Payload(sel, n, encoders).outcome
    {
      if sel.bytes.Some? {
        o := WriteBytesRef(sel.bytes.value);
      } else if sel.str.Some? {
        var s := WriteString(sel.str.value);
        Append(s);
        o := Normal;
      } else {
        o := WriteNumber(n);
      }
    }

    /** `writeVInt(bytes.length)`, then `writeBytes(bytes.bytes, bytes.offset, bytes.length)`. */
    method WriteBytesRef(b: BytesRefValue) returns (o: Outcome)
      requires Valid()
      modifies bufferedDocs, bufferedDocs.Repr
      ensures Valid() && fresh(bufferedDocs.Repr - old(bufferedDocs.Repr))
      ensures bufferedDocs.written == old(bufferedDocs.written) + BytesPayload(b).bytes
      ensures o == BytesPayload(b).outcome
    {
      var length := WriteVInt(b.length);
      Append(length);
      ghost var before := bufferedDocs.written;
      o := bufferedDocs.WriteBytes(b.bytes, b.offset, b.length);
      BookkeepingGrows(|before|, |bufferedDocs.written|);
      AppendAssoc(old(bufferedDocs.written), length, RamWriter.Copied(b.bytes, b.offset, b.length));
    }

    /** The numeric branch of the payload. */
    method WriteNumber(n: Option<Number>) returns (o: Outcome)
      requires Valid()
      modifies bufferedDocs, bufferedDocs.Repr
      ensures Valid() && fresh(bufferedDocs.Repr - old(bufferedDocs.Repr))
      ensures bufferedDocs.written == old(bufferedDocs.written) + NumberPayload(n, encoders).bytes
      ensures o == NumberPayload(n, encoders).outcome
    {
      if n.None? {
        return Thrown(AssertionError);      // "panic: shouldn't be here"
      }
      var bytes: seq<uint8>;
      match n.value {
        case ByteNumber(i) => bytes := WriteZInt(i);
        case ShortNumber(i) => bytes := WriteZInt(i);
        case IntegerNumber(i) => bytes := WriteZInt(i);
        case LongNumber(l) => bytes := encoders.tlong(l);
        case FloatNumber(bits) => bytes := encoders.zfloat(bits);
        case DoubleNumber(bits) => bytes := encoders.zdouble(bits);
        case OtherNumber => return Thrown(AssertionError);
      }
      Append(bytes);
      o := Normal;
    }

    /** The tag and the payload of a selection, or the refusal. */
    method WriteRecord(number: int32, sel: Result<Selection>, n: Option<Number>) returns (o: Outcome)
      requires Valid()
      requires sel.Ok? ==> 0 <= sel.value.bits < 8
      requires sel.Ok? && sel.value.str.Some? ==> |Utf8Encode(sel.value.str.value)| < TWO_31
      modifies bufferedDocs, bufferedDocs.Repr
      ensures Valid() && fresh(bufferedDocs.Repr - old(bufferedDocs.Repr))
      ensures bufferedDocs.written == old(bufferedDocs.written) + Record(number, sel, n, encoders).bytes
      ensures o == Record(number, sel, n, encoders).outcome
    {
      if sel.Err? {
        return Thrown(sel.error);
      }
      var tag := WriteVLong(Tag(number, sel.value.bits));
      Append(tag);
      o := WritePayload(sel.value, n);
      AppendAssoc(old(bufferedDocs.written), tag, Payload(sel.value, n, encoders).bytes);
    }

    /**
     * `writeField(info, field)` as written: count the field, then write its
     * record, whose type code comes from `SelectAsWritten`.
     */
    method WriteField(info: FieldInfo, field: Field) returns (o: Outcome)
      requires Valid() && Encodable(field)
      modifies this, bufferedDocs, bufferedDocs.Repr
      ensures Valid() && fresh(bufferedDocs.Repr - old(bufferedDocs.Repr))
      ensures numStoredFieldsInDoc == old(numStoredFieldsInDoc) + 1
      ensures bufferedDocs.written == old(bufferedDocs.written) + FieldRecordAsWritten(info, field, encoders).bytes
      ensures o == FieldRecordAsWritten(info, field, encoders).outcome
      ensures numBufferedDocs == old(numBufferedDocs) && numChunks == old(numChunks) && docBase == old(docBase)
      ensures numStoredFields == old(numStoredFields) && endOffsets == old(endOffsets) && docEnds == old(docEnds)
    {
      numStoredFieldsInDoc := numStoredFieldsInDoc + 1;
      SelectionsWellFormed(field);
      o := WriteRecord(info.number, SelectAsWritten(field), field.numericValue);
    }

    /** `writeField(info, field)` with the intended choice of type code, `Select`. */
    method WriteFieldIntended(info: FieldInfo, field: Field) returns (o: Outcome)
      requires Valid() && Encodable(field)
      modifies this, bufferedDocs, bufferedDocs.Repr
      ensures Valid() && fresh(bufferedDocs.Repr - old(bufferedDocs.Repr))
      ensures numStoredFieldsInDoc == old(numStoredFieldsInDoc) + 1
      ensures bufferedDocs.written == old(bufferedDocs.written) + FieldRecord(info, field, encoders).bytes
      ensures o == FieldRecord(info, field, encoders).outcome
      ensures numBufferedDocs == old(numBufferedDocs) && numChunks == old(numChunks) && docBase == old(docBase)
      ensures numStoredFields == old(numStoredFields) && endOffsets == old(endOffsets) && docEnds == old(docEnds)
    {
      numStoredFieldsInDoc := numStoredFieldsInDoc + 1;
      SelectionsWellFormed(field);
      o := WriteRecord(info.number, Select(field), field.numericValue);
    }

    /** `triggerFlush`: a full chunk of documents is buffered. */
    function TriggerFlush(): (r: bool)
      reads this
      ensures r <==> numBufferedDocs >= maxDocsPerChunk
    {
      numBufferedDocs >= maxDocsPerChunk
    }

    /**
     * `finishDocument`: record the document's field count and end offset,
     * count it, and flush when a chunk is full.  Neither the counters nor
     * the lists are reset by the flush, so once 128 documents are buffered
     * every later document flushes again.
     */
    method FinishDocument()
      requires Valid()
      modifies this
      ensures Valid()
      ensures numStoredFields == old(numStoredFields) + [old(numStoredFieldsInDoc)] && numStoredFieldsInDoc == 0
      ensures endOffsets == old(endOffsets) + [Wrap32(|bufferedDocs.written|)]
      ensures docEnds == old(docEnds) + [|bufferedDocs.written|]
      ensures numBufferedDocs == old(numBufferedDocs) + 1
      ensures numChunks == old(numChunks) + if numBufferedDocs >= 128 then 1 else 0
      ensures docBase == old(docBase)
    {
      AddDocument();
      if TriggerFlush() {
        var _ := Flush();
      }
    }

    /** The bookkeeping of `finishDocument` before the flush check, with its two asserts. */
    method AddDocument()
      requires Valid()
      modifies this
      ensures Valid()
      ensures numStoredFields == old(numStoredFields) + [old(numStoredFieldsInDoc)] && numStoredFieldsInDoc == 0
      ensures endOffsets == old(endOffsets) + [Wrap32(|bufferedDocs.written|)]
      ensures docEnds == old(docEnds) + [|bufferedDocs.written|]
      ensures numBufferedDocs == old(numBufferedDocs) + 1
      ensures numChunks == old(numChunks) && docBase == old(docBase)
    {
      numStoredFields := numStoredFields + [numStoredFieldsInDoc];
      numStoredFieldsInDoc := 0;
      var size := bufferedDocs.GetPos();
      endOffsets := endOffsets + [Wrap32(size)];
      AscendingSnoc(docEnds, size);
      docEnds := docEnds + [size];
      numBufferedDocs := numBufferedDocs + 1;
      assert numBufferedDocs == |endOffsets|;
      assert numBufferedDocs == |numStoredFields|;
    }

    /**
     * `flush`: count the chunk and fill `lengths` from the last document
     * down to document 1.  The lengths array is returned so that its
     * contents can be stated; the source drops it.
     */
    method Flush() returns (lengths: array<int>)
      requires Valid()
      modifies this
      ensures Valid() && fresh(lengths)
      ensures numChunks == old(numChunks) + 1
      ensures lengths[..] == ChunkLengths(endOffsets)
      ensures numBufferedDocs == old(numBufferedDocs) && numStoredFieldsInDoc == old(numStoredFieldsInDoc)
      ensures numStoredFields == old(numStoredFields) && endOffsets == old(endOffsets) && docEnds == old(docEnds)
      ensures docBase == old(docBase)
    {
      numChunks := numChunks + 1;
      lengths := ComputeLengths(endOffsets, numBufferedDocs);
    }

    /**
     * While the buffer stays below 2^31 bytes the offsets are exact, so the
     * `assert lengths[i] >= 0` of `flush` holds and entry i >= 1 is the size
     * of document i; all entries together miss the first document's bytes.
     */
    lemma LengthsAreDocSizes()
      requires Valid() && |bufferedDocs.written| < TWO_31
      ensures forall k :: 1 <= k < |endOffsets| ==> ChunkLengths(endOffsets)[k] == docEnds[k] - docEnds[k - 1] >= 0
      ensures |endOffsets| > 0 ==> Sum(ChunkLengths(endOffsets)) == docEnds[|docEnds| - 1] - docEnds[0]
    {
      forall k | 0 <= k < |docEnds| ensures endOffsets[k] == docEnds[k] {
        WrapOffset(docEnds[k]);
      }
      ChunkLengthsAreDocSizes(endOffsets, docEnds);
      if |endOffsets| > 0 {
        GapsSum(ChunkLengths(endOffsets), docEnds);
      }
    }
  }
}
