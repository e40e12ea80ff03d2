/**
 * index/IndexingChain: gives each field name a number the first time it is
 * seen, and hands the stored fields of a document to the stored-field
 * consumer, finishing the document in all cases.
 */
module IndexingChain {
  import opened Java
  import opened BytesRef
  import opened Fields
  import Stored = StoredFieldConsumer

  /** The longest stored string value, in UTF-16 units, that `processField` accepts. */
  const MAX_STORED_STRING := 20000

  /**
   * The per-field state the chain uses: the name and, once initialised,
   * its FieldInfo.  The generation, the `first` flag and the doc id of the
   * source's PerField are never read.
   */
  datatype PerField = PerField(fieldName: string, fieldInfo: Option<FieldInfo>)

  function Names(fields: seq<Field>): (r: seq<string>)
    ensures |r| == |fields| && forall j :: 0 <= j < |fields| ==> r[j] == fields[j].name
  {
    seq(|fields|, j requires 0 <= j < |fields| => fields[j].name)
  }

  predicate Distinct(s: seq<string>) {
    forall i, j :: 0 <= i < j < |s| ==> s[i] != s[j]
  }

  /**
   * The names in the order they were first seen: `known`, then each name of
   * `names` that is not already there, in order.
   */
  function FirstSeen(known: seq<string>, names: seq<string>): (r: seq<string>)
    ensures known <= r
    decreases |names|
  {
    if names == [] then known
    else
      var k := FirstSeen(known, names[..|names| - 1]);
      var last := names[|names| - 1];
      if last in k then k else k + [last]
  }

  /** One more name: appended when it is new. */
  lemma FirstSeenSnoc(known: seq<string>, names: seq<string>, i: nat)
    requires i < |names|
    ensures FirstSeen(known, names[..i + 1]) ==
      if names[i] in FirstSeen(known, names[..i]) then FirstSeen(known, names[..i])
      else FirstSeen(known, names[..i]) + [names[i]]
  {
    assert names[..i + 1][..i] == names[..i];
  }

  lemma {:induction false} FirstSeenDistinct(known: seq<string>, names: seq<string>)
    requires Distinct(known)
    ensures Distinct(FirstSeen(known, names))
    decreases |names|
  {
    if names != [] {
      FirstSeenDistinct(known, names[..|names| - 1]);
    }
  }

  /** A name is numbered after a document exactly when it was known or the document has it. */
  lemma {:induction false} FirstSeenMembers(known: seq<string>, names: seq<string>)
    ensures forall x :: x in FirstSeen(known, names) <==> x in known || x in names
    decreases |names|
  {
    if names != [] {
      var init := names[..|names| - 1];
      FirstSeenMembers(known, init);
      assert names == init + [names[|names| - 1]];
    }
  }

  /** A document whose names are all known numbers nothing new. */
  lemma {:induction false} FirstSeenOfKnown(known: seq<string>, names: seq<string>)
    requires forall j :: 0 <= j < |names| ==> names[j] in known
    ensures FirstSeen(known, names) == known
    decreases |names|
  {
    if names != [] {
      FirstSeenOfKnown(known, names[..|names| - 1]);
    }
  }

  /**
   * The numbers handed out to the names of `order`, first seen first:
   * 1, 2, 3, ... as the `int`s of `AtomicInteger.incrementAndGet`, so they
   * wrap after 2^31 - 1.
   */
  function Numbering(order: seq<string>): map<string, int32>
    decreases |order|
  {
    if order == [] then map[]
    else Numbering(order[..|order| - 1])[order[|order| - 1] := Wrap32(|order|)]
  }

  /** One more name: the map gains it, with the next number. */
  lemma NumberingSnoc(order: seq<string>, name: string)
    ensures Numbering(order + [name]) == Numbering(order)[name := Wrap32(|order| + 1)]
  {
    assert (order + [name])[..|order|] == order;
  }

  /** The numbered names are those of `order`. */
  lemma {:induction false} NumberingKeys(order: seq<string>)
    ensures forall name :: name in Numbering(order) <==> name in order
    decreases |order|
  {
    if order != [] {
      var init := order[..|order| - 1];
      NumberingKeys(init);
      assert order == init + [order[|order| - 1]];
    }
  }

  /** With no name twice, the j-th name seen has number j + 1 (wrapped). */
  lemma {:induction false} NumberingValues(order: seq<string>)
    requires Distinct(order)
    ensures forall j :: 0 <= j < |order| ==> order[j] in Numbering(order) && Numbering(order)[order[j]] == Wrap32(j + 1)
    decreases |order|
  {
    if order != [] {
      var init := order[..|order| - 1];
      NumberingValues(init);
      forall j | 0 <= j < |order|
        ensures order[j] in Numbering(order) && Numbering(order)[order[j]] == Wrap32(j + 1)
      {
        if j < |init| {
          assert order[j] == init[j] && order[j] != order[|order| - 1];
        }
      }
    }
  }

  /** `fieldNumber` numbers the names of `order`, and `next` is the counter's value. */
  ghost predicate NumberedBy(fieldNumber: map<string, int32>, order: seq<string>, next: int32) {
    Distinct(order) && fieldNumber == Numbering(order) && next == Wrap32(|order|)
  }

  /** Every PerField in `fieldHash` carries the FieldInfo of its name's number. */
  ghost predicate InitializedBy(fieldHash: map<string, PerField>, fieldNumber: map<string, int32>) {
    (forall name :: name in fieldHash <==> name in fieldNumber) &&
    (forall name :: name in fieldHash ==>
      name in fieldNumber && fieldHash[name] == PerField(name, Some(FieldInfo(name, fieldNumber[name]))))
  }

  /**
   * Below 2^31 names nothing wraps: the numbers are exactly 1 .. n in
   * first-seen order, distinct names have distinct numbers, and the
   * counter holds n.
   */
  lemma DistinctNumbers(fieldNumber: map<string, int32>, order: seq<string>, next: int32)
    requires NumberedBy(fieldNumber, order, next) && |order| < TWO_31
    ensures next == |order|
    ensures forall j :: 0 <= j < |order| ==> order[j] in fieldNumber && fieldNumber[order[j]] == j + 1
    ensures forall name :: name in fieldNumber ==> 1 <= fieldNumber[name] <= |order|
    ensures forall a, b :: a in fieldNumber && b in fieldNumber && a != b ==> fieldNumber[a] != fieldNumber[b]
  {
    NumberingKeys(order);
    NumberingValues(order);
    forall a, b | a in fieldNumber && b in fieldNumber && a != b
      ensures fieldNumber[a] != fieldNumber[b]
    {
      var i :| 0 <= i < |order| && order[i] == a;
      var j :| 0 <= j < |order| && order[j] == b;
    }
    forall name | name in fieldNumber ensures 1 <= fieldNumber[name] <= |order| {
      var i :| 0 <= i < |order| && order[i] == name;
    }
  }

  /** Numbering more names keeps the numbers already given. */
  lemma NumbersKept(before: map<string, int32>, order: seq<string>, next: int32,
                    after: map<string, int32>, order': seq<string>, next': int32)
    requires NumberedBy(before, order, next) && NumberedBy(after, order', next') && order <= order'
    ensures forall name :: name in before ==> name in after && after[name] == before[name]
  {
    NumberingKeys(order);
    NumberingValues(order);
    NumberingValues(order');
    forall name | name in before ensures name in after && after[name] == before[name] {
      var j :| 0 <= j < |order| && order[j] == name;
      assert order'[j] == name;
    }
  }

  /** `Wrap32` of a successor only depends on the value wrapped so far. */
  lemma WrapSucc(x: int)
    ensures Wrap32(Wrap32(x) + 1) == Wrap32(x + 1)
  {
    var q := (x + TWO_31) / TWO_32;
    assert x + TWO_31 == q * TWO_32 + (x + TWO_31) % TWO_32;
    assert Wrap32(x) + 1 + TWO_31 == (x + 1 + TWO_31) - q * TWO_32;
    ModShift(x + 1 + TWO_31, q);
  }

  lemma ModShift(y: int, q: int)
    ensures (y - q * TWO_32) % TWO_32 == y % TWO_32
  {
    var m := y - q * TWO_32;
    assert y == m + q * TWO_32;
    var r := m % TWO_32;
    assert m == (m / TWO_32) * TWO_32 + r;
    assert y == (m / TWO_32 + q) * TWO_32 + r;
  }

  // ---------------------------------------------------------------------
  // What processing the fields of a document gives to the consumer.

  /** The bytes appended to the buffer, the fields counted, and how it ends. */
  datatype Processed = Processed(bytes: seq<uint8>, count: nat, outcome: Outcome)

  /** A stored field whose string value is longer than 20000 UTF-16 units. */
  predicate Oversized(f: Field) {
    f.stored && f.stringValue.Some? && Utf16Length(f.stringValue.value) > MAX_STORED_STRING
  }

  /**
   * The record `writeField` appends for a field that reaches it: one that
   * is stored and not oversized.  The others never reach it and get an
   * empty placeholder.
   */
  function RecordFor(info: FieldInfo, f: Field, enc: Stored.Encoders): Stored.Written {
    if f.stored && !Oversized(f) then Stored.FieldRecord(info, f, enc) else Stored.Written([], Normal)
  }

  predicate Known(number: map<string, int32>, fields: seq<Field>) {
    forall j :: 0 <= j < |fields| ==> fields[j].name in number
  }

  /** The records of a document's fields under the numbering `number`. */
  function Records(number: map<string, int32>, fields: seq<Field>, enc: Stored.Encoders): (r: seq<Stored.Written>)
    requires Known(number, fields)
    ensures |r| == |fields|
  {
    seq(|fields|, j requires 0 <= j < |fields| => RecordFor(FieldInfo(fields[j].name, number[fields[j].name]), fields[j], enc))
  }

  /**
   * `processField` given the record `w` of the field: a field that is not
   * stored is skipped; an oversized one throws before anything is written;
   * any other is written, and what `writeField` throws is dropped unless
   * it is an Error.
   */
  function FieldOutcome(f: Field, w: Stored.Written): Processed {
    if !f.stored then Processed([], 0, Normal)
    else if Oversized(f) then Processed([], 0, Thrown(IllegalArgumentException))
    else Processed(w.bytes, 1, if w.outcome.Thrown? && !IsException(w.outcome.error) then w.outcome else Normal)
  }

  /** The fields are processed in order, each with its record, until one of them throws. */
  function ProcessedFields(fields: seq<Field>, records: seq<Stored.Written>): (p: Processed)
    requires |records| == |fields|
    decreases |fields|
  {
    if fields == [] then Processed([], 0, Normal)
    else
      var n := |fields| - 1;
      var acc := ProcessedFields(fields[..n], records[..n]);
      if acc.outcome.Thrown? then acc
      else
        var p := FieldOutcome(fields[n], records[n]);
        Processed(acc.bytes + p.bytes, acc.count + p.count, p.outcome)
  }

  /** What processing a document's fields under the numbering `number` gives. */
  function DocumentRun(number: map<string, int32>, fields: seq<Field>, enc: Stored.Encoders): Processed
    requires Known(number, fields)
  {
    ProcessedFields(fields, Records(number, fields, enc))
  }

  /** The number of stored fields. */
  function StoredCount(fields: seq<Field>): (n: nat)
    ensures n <= |fields|
    decreases |fields|
  {
    if fields == [] then 0
    else StoredCount(fields[..|fields| - 1]) + if fields[|fields| - 1].stored then 1 else 0
  }

  /** No record ends in an Error, which `catch (Exception)` would let through. */
  predicate NoErrors(records: seq<Stored.Written>) {
    forall j :: 0 <= j < |records| ==> records[j].outcome.Thrown? ==> IsException(records[j].outcome.error)
  }

  /** What the corrected `writeField` throws is always an Exception, so `processField` drops it. */
  lemma RecordsRaiseNoError(number: map<string, int32>, fields: seq<Field>, enc: Stored.Encoders)
    requires Known(number, fields)
    ensures NoErrors(Records(number, fields, enc))
  {
    var r := Records(number, fields, enc);
    forall j | 0 <= j < |r| ensures r[j].outcome.Thrown? ==> IsException(r[j].outcome.error) {
      var f := fields[j];
      if f.stored && !Oversized(f) {
        Stored.IntendedThrowsOnlyExceptions(FieldInfo(f.name, number[f.name]), f, enc);
      }
    }
  }

  /**
   * Processing a document ends in IllegalArgumentException exactly when
   * one of its stored fields is oversized, and otherwise counts every
   * stored field.
   */
  lemma {:induction false} ProcessedOutcome(fields: seq<Field>, records: seq<Stored.Written>)
    requires |records| == |fields| && NoErrors(records)
    ensures ProcessedFields(fields, records).outcome ==
      if exists j :: 0 <= j < |fields| && Oversized(fields[j]) then Thrown(IllegalArgumentException) else Normal
    ensures (forall j :: 0 <= j < |fields| ==> !Oversized(fields[j])) ==>
      ProcessedFields(fields, records).count == StoredCount(fields)
    decreases |fields|
  {
    if fields != [] {
      var n := |fields| - 1;
      var init, f := fields[..n], fields[n];
      assert NoErrors(records[..n]) by {
        forall j | 0 <= j < n ensures records[..n][j] == records[j] { }
      }
      ProcessedOutcome(init, records[..n]);
      if exists j :: 0 <= j < |init| && Oversized(init[j]) {
        var j :| 0 <= j < |init| && Oversized(init[j]);
        assert fields[j] == init[j];
      }
      if exists j :: 0 <= j < |fields| && Oversized(fields[j]) {
        var j :| 0 <= j < |fields| && Oversized(fields[j]);
        if j < n { assert init[j] == fields[j]; }
      }
    }
  }

  /**
   * `processDocument` throws IllegalArgumentException exactly when one of
   * the document's stored fields is oversized; otherwise it completes and
   * writes one record for every stored field.
   */
  lemma DocumentRunOutcome(number: map<string, int32>, fields: seq<Field>, enc: Stored.Encoders)
    requires Known(number, fields)
    ensures DocumentRun(number, fields, enc).outcome ==
      if exists j :: 0 <= j < |fields| && Oversized(fields[j]) then Thrown(IllegalArgumentException) else Normal
    ensures (forall j :: 0 <= j < |fields| ==> !Oversized(fields[j])) ==>
      DocumentRun(number, fields, enc).count == StoredCount(fields)
  {
    RecordsRaiseNoError(number, fields, enc);
    ProcessedOutcome(fields, Records(number, fields, enc));
  }

  /**
   * With `writeField` as written, a stored string field of acceptable
   * length gets a BYTE_ARR tag and then an AssertionError.  That is an
   * Error, which `catch (Exception)` in `processField` does not catch, so
   * it ends the processing of the document (after `finishDocument`).
   */
  lemma AsWrittenStringFieldEscapes(info: FieldInfo, f: Field, enc: Stored.Encoders)
    requires f.stored && !Oversized(f) && Stored.Encodable(f)
    requires f.stringValue.Some? && f.binaryValue.None? && f.numericValue.None?
    ensures var w := Stored.FieldRecordAsWritten(info, f, enc);
      FieldOutcome(f, w) == Processed(Stored.TagBytes(info.number, Stored.BYTE_ARR), 1, Thrown(AssertionError))
    ensures ProcessedFields([f], [Stored.FieldRecordAsWritten(info, f, enc)]).outcome == Thrown(AssertionError)
  {
    Stored.AsWrittenRejectsStringsAndBytes(info, f, enc);
    var w := Stored.FieldRecordAsWritten(info, f, enc);
    assert [f][..0] == [] && [w][..0] == [];
  }

  /** Once a field has thrown, the later fields change nothing. */
  lemma {:induction false} ProcessedStops(fields: seq<Field>, records: seq<Stored.Written>, i: nat)
    requires |records| == |fields| && i <= |fields|
    requires ProcessedFields(fields[..i], records[..i]).outcome.Thrown?
    ensures ProcessedFields(fields, records) == ProcessedFields(fields[..i], records[..i])
    decreases |fields| - i
  {
    if i < |fields| {
      assert fields[..i + 1][..i] == fields[..i] && records[..i + 1][..i] == records[..i];
      ProcessedStops(fields, records, i + 1);
    } else {
      assert fields[..i] == fields && records[..i] == records;
    }
  }

  /** Every number of `before` is kept in `after`. */
  ghost predicate Extends(after: map<string, int32>, before: map<string, int32>) {
    forall name :: name in before ==> name in after && after[name] == before[name]
  }

  /**
   * Position by position, the PerField of each of the first `|docFields|`
   * fields carries its name's FieldInfo under `number`.
   */
  ghost predicate InfosOf(docFields: seq<PerField>, fields: seq<Field>, number: map<string, int32>) {
    |docFields| <= |fields| &&
    forall j :: 0 <= j < |docFields| ==>
      fields[j].name in number && docFields[j] == PerField(fields[j].name, Some(FieldInfo(fields[j].name, number[fields[j].name])))
  }

  lemma InfosExtend(docFields: seq<PerField>, fields: seq<Field>, before: map<string, int32>, after: map<string, int32>,
                    pf: PerField)
    requires InfosOf(docFields, fields, before) && Extends(after, before) && |docFields| < |fields|
    requires var f := fields[|docFields|]; f.name in after && pf == PerField(f.name, Some(FieldInfo(f.name, after[f.name])))
    ensures InfosOf(docFields + [pf], fields, after)
  {
  }

  class IndexingChain {
    var fieldHash: map<string, PerField>
    var fieldNumber: map<string, int32>
    var nextFieldNum: int32
    /** The numbered names in the order they were first seen. */
    ghost var order: seq<string>
    /** The source declares this field and never assigns it; here it is given to the constructor. */
    const storedFieldConsumer: Stored.StoredFieldConsumer

    ghost predicate Numbered()
      reads this
    {
      NumberedBy(fieldNumber, order, nextFieldNum)
    }

    ghost predicate Valid()
      reads this, storedFieldConsumer, storedFieldConsumer.bufferedDocs, storedFieldConsumer.bufferedDocs.Repr
    {
      storedFieldConsumer.Valid() && this !in storedFieldConsumer.bufferedDocs.Repr &&
      Numbered() && InitializedBy(fieldHash, fieldNumber)
    }

    /** No field known yet, and the counter at 0. */
    constructor (storedFieldConsumer: Stored.StoredFieldConsumer)
      requires storedFieldConsumer.Valid()
      ensures Valid() && fieldHash == map[] && fieldNumber == map[] && nextFieldNum == 0 && order == []
      ensures this.storedFieldConsumer == storedFieldConsumer
    {
      fieldHash := map[];
      fieldNumber := map[];
      nextFieldNum := 0;
      order := [];
      this.storedFieldConsumer := storedFieldConsumer;
    }

    /** `getOrAddPerField`: the known PerField of a name, or a new one, recorded in `fieldHash`. */
    method GetOrAddPerField(fieldName: string) returns (pf: PerField)
      modifies this
      ensures pf == if fieldName in old(fieldHash) then old(fieldHash)[fieldName] else PerField(fieldName, None)
      ensures fieldHash == old(fieldHash)[fieldName := pf]
      ensures fieldNumber == old(fieldNumber) && nextFieldNum == old(nextFieldNum) && order == old(order)
    {
      if fieldName in fieldHash {
        pf := fieldHash[fieldName];
      } else {
        pf := PerField(fieldName, None);
      }
      fieldHash := fieldHash[fieldName := pf];
    }

    /**
     * `initializeFieldInfo`: a name without a number gets the incremented
     * counter (`computeIfAbsent` leaves a known one alone), and the
     * PerField, which is the object `fieldHash` holds, gets the FieldInfo
     * of that number.
     */
    method InitializeFieldInfo(pf: PerField) returns (initialized: PerField)
      requires Numbered()
      requires pf.fieldName in fieldHash && fieldHash[pf.fieldName] == pf
      modifies this
      ensures Numbered()
      ensures pf.fieldName !in old(fieldNumber) ==>
        nextFieldNum == Wrap32(old(nextFieldNum) + 1) &&
        fieldNumber == old(fieldNumber)[pf.fieldName := nextFieldNum] &&
        order == old(order) + [pf.fieldName]
      ensures pf.fieldName in old(fieldNumber) ==>
        nextFieldNum == old(nextFieldNum) && fieldNumber == old(fieldNumber) && order == old(order)
      ensures initialized == PerField(pf.fieldName, Some(FieldInfo(pf.fieldName, fieldNumber[pf.fieldName])))
      ensures fieldHash == old(fieldHash)[pf.fieldName := initialized]
    {
      var name := pf.fieldName;
      if name !in fieldNumber {
        WrapSucc(|order|);
        NumberingSnoc(order, name);
        NumberingKeys(order);
        nextFieldNum := Wrap32(nextFieldNum + 1);
        fieldNumber := fieldNumber[name := nextFieldNum];
        order := order + [name];
      }
      initialized := PerField(name, Some(FieldInfo(name, fieldNumber[name])));
      fieldHash := fieldHash[name := initialized];
    }

    /**
     * The first loop of `processDocument`: every field's PerField is
     * looked up or added, and initialised if it has no FieldInfo yet.
     */
    method InitializeFields(fields: seq<Field>) returns (docFields: seq<PerField>)
      requires Numbered() && InitializedBy(fieldHash, fieldNumber)
      modifies this
      ensures Numbered() && InitializedBy(fieldHash, fieldNumber)
      ensures order == FirstSeen(old(order), Names(fields))
      ensures Known(fieldNumber, fields) && |docFields| == |fields|
      ensures forall j :: 0 <= j < |fields| ==>
        docFields[j] == PerField(fields[j].name, Some(FieldInfo(fields[j].name, fieldNumber[fields[j].name])))
    {
      docFields := [];
      var i := 0;
      while i < |fields|
        invariant 0 <= i <= |fields| && |docFields| == i
        invariant Numbered() && InitializedBy(fieldHash, fieldNumber)
        invariant order == FirstSeen(old(order), Names(fields)[..i])
        invariant InfosOf(docFields, fields, fieldNumber)
      {
        FirstSeenSnoc(old(order), Names(fields), i);
        ghost var number := fieldNumber;
        var pf := InitializeField(fields[i].name);
        InfosExtend(docFields, fields, number, fieldNumber, pf);
        docFields := docFields + [pf];
        i := i + 1;
      }
      assert Names(fields)[..i] == Names(fields);
    }

    /** One step of the first loop: look the name up, and initialise its PerField if it is new. */
    method InitializeField(name: string) returns (pf: PerField)
      requires Numbered() && InitializedBy(fieldHash, fieldNumber)
      modifies this
      ensures Numbered() && InitializedBy(fieldHash, fieldNumber)
      ensures order == if name in old(order) then old(order) else old(order) + [name]
      ensures name in fieldNumber && pf == PerField(name, Some(FieldInfo(name, fieldNumber[name])))
      ensures Extends(fieldNumber, old(fieldNumber))
    {
      NumberingKeys(order);
      pf := GetOrAddPerField(name);
      if pf.fieldInfo.None? {
        pf := InitializeFieldInfo(pf);
      }
    }

    /** `processField`, with the corrected `writeField`. */
    method ProcessField(docID: int32, field: Field, pf: PerField) returns (o: Outcome)
      requires Valid() && pf.fieldInfo.Some?
      modifies storedFieldConsumer, storedFieldConsumer.bufferedDocs, storedFieldConsumer.bufferedDocs.Repr
      ensures Valid() && fresh(storedFieldConsumer.bufferedDocs.Repr - old(storedFieldConsumer.bufferedDocs.Repr))
      ensures var p := FieldOutcome(field, RecordFor(pf.fieldInfo.value, field, storedFieldConsumer.encoders));
        storedFieldConsumer.bufferedDocs.written == old(storedFieldConsumer.bufferedDocs.written) + p.bytes &&
        storedFieldConsumer.numStoredFieldsInDoc == old(storedFieldConsumer.numStoredFieldsInDoc) + p.count &&
        o == p.outcome
      ensures Unchanged(storedFieldConsumer, old(storedFieldConsumer.numBufferedDocs), old(storedFieldConsumer.numStoredFields),
        old(storedFieldConsumer.endOffsets), old(storedFieldConsumer.docEnds), old(storedFieldConsumer.numChunks), old(storedFieldConsumer.docBase))
    {
      o := Normal;
      if field.stored {
        var value := field.stringValue;
        if value.Some? && Utf16Length(value.value) > MAX_STORED_STRING {
          return Thrown(IllegalArgumentException);
        }
        var w := storedFieldConsumer.WriteFieldIntended(pf.fieldInfo.value, field);
        if w.Thrown? && !IsException(w.error) {
          o := w;
        }
      }
    }

    /** The consumer's per-document lists and counters, apart from the current document's field count. */
    ghost predicate Unchanged(c: Stored.StoredFieldConsumer, numBufferedDocs: int, numStoredFields: seq<int>,
                              endOffsets: seq<int32>, docEnds: seq<int>, numChunks: int, docBase: int)
      reads c
    {
      c.numBufferedDocs == numBufferedDocs && c.numStoredFields == numStoredFields &&
      c.endOffsets == endOffsets && c.docEnds == docEnds && c.numChunks == numChunks && c.docBase == docBase
    }

    /** The second loop of `processDocument`: the fields in order, until one throws. */
    method ProcessFields(docID: int32, fields: seq<Field>, docFields: seq<PerField>) returns (o: Outcome)
      requires Valid() && Known(fieldNumber, fields) && |docFields| == |fields|
      requires forall j :: 0 <= j < |fields| ==> docFields[j].fieldInfo == Some(FieldInfo(fields[j].name, fieldNumber[fields[j].name]))
      modifies storedFieldConsumer, storedFieldConsumer.bufferedDocs, storedFieldConsumer.bufferedDocs.Repr
      ensures Valid()
      ensures storedFieldConsumer.bufferedDocs.written ==
        old(storedFieldConsumer.bufferedDocs.written) + DocumentRun(fieldNumber, fields, storedFieldConsumer.encoders).bytes
      ensures storedFieldConsumer.numStoredFieldsInDoc ==
        old(storedFieldConsumer.numStoredFieldsInDoc) + DocumentRun(fieldNumber, fields, storedFieldConsumer.encoders).count
      ensures o == DocumentRun(fieldNumber, fields, storedFieldConsumer.encoders).outcome
      ensures Unchanged(storedFieldConsumer, old(storedFieldConsumer.numBufferedDocs), old(storedFieldConsumer.numStoredFields),
        old(storedFieldConsumer.endOffsets), old(storedFieldConsumer.docEnds), old(storedFieldConsumer.numChunks), old(storedFieldConsumer.docBase))
    {
      var enc := storedFieldConsumer.encoders;
      ghost var records := Records(fieldNumber, fields, enc);
      ghost var written0, counted0 := storedFieldConsumer.bufferedDocs.written, storedFieldConsumer.numStoredFieldsInDoc;
      var i := 0;
      while i < |fields|
        invariant 0 <= i <= |fields|
        invariant Valid() && fresh(storedFieldConsumer.bufferedDocs.Repr - old(storedFieldConsumer.bufferedDocs.Repr))
        invariant ProcessedFields(fields[..i], records[..i]).outcome == Normal
        invariant storedFieldConsumer.bufferedDocs.written == written0 + ProcessedFields(fields[..i], records[..i]).bytes
        invariant storedFieldConsumer.numStoredFieldsInDoc == counted0 + ProcessedFields(fields[..i], records[..i]).count
        invariant Unchanged(storedFieldConsumer, old(storedFieldConsumer.numBufferedDocs), old(storedFieldConsumer.numStoredFields),
          old(storedFieldConsumer.endOffsets), old(storedFieldConsumer.docEnds), old(storedFieldConsumer.numChunks), old(storedFieldConsumer.docBase))
      {
        assert records[i] == RecordFor(docFields[i].fieldInfo.value, fields[i], enc);
        o := ProcessNext(docID, fields, docFields, i, records, written0, counted0);
        if o.Thrown? {
          ProcessedStops(fields, records, i + 1);
          return;
        }
        i := i + 1;
      }
      assert fields[..i] == fields && records[..i] == records;
      o := Normal;
    }

    /** One step of the second loop: field `i`, after the fields before it went through normally. */
    method ProcessNext(docID: int32, fields: seq<Field>, docFields: seq<PerField>, i: nat,
                       ghost records: seq<Stored.Written>, ghost written0: seq<uint8>, ghost counted0: int)
      returns (o: Outcome)
      requires Valid() && |docFields| == |fields| == |records| && i < |fields|
      requires docFields[i].fieldInfo.Some?
      requires records[i] == RecordFor(docFields[i].fieldInfo.value, fields[i], storedFieldConsumer.encoders)
      requires ProcessedFields(fields[..i], records[..i]).outcome == Normal
      requires storedFieldConsumer.bufferedDocs.written == written0 + ProcessedFields(fields[..i], records[..i]).bytes
      requires storedFieldConsumer.numStoredFieldsInDoc == counted0 + ProcessedFields(fields[..i], records[..i]).count
      modifies storedFieldConsumer, storedFieldConsumer.bufferedDocs, storedFieldConsumer.bufferedDocs.Repr
      ensures Valid() && fresh(storedFieldConsumer.bufferedDocs.Repr - old(storedFieldConsumer.bufferedDocs.Repr))
      ensures storedFieldConsumer.bufferedDocs.written == written0 + ProcessedFields(fields[..i + 1], records[..i + 1]).bytes
      ensures storedFieldConsumer.numStoredFieldsInDoc == counted0 + ProcessedFields(fields[..i + 1], records[..i + 1]).count
      ensures o == ProcessedFields(fields[..i + 1], records[..i + 1]).outcome
      ensures Unchanged(storedFieldConsumer, old(storedFieldConsumer.numBufferedDocs), old(storedFieldConsumer.numStoredFields),
        old(storedFieldConsumer.endOffsets), old(storedFieldConsumer.docEnds), old(storedFieldConsumer.numChunks), old(storedFieldConsumer.docBase))
    {
      o := ProcessField(docID, fields[i], docFields[i]);
      assert fields[..i + 1][..i] == fields[..i] && records[..i + 1][..i] == records[..i];
      Stored.AppendAssoc(written0, ProcessedFields(fields[..i], records[..i]).bytes, FieldOutcome(fields[i], records[i]).bytes);
    }

    /**
     * `finishStoredFields`: finish the document in the consumer; whatever
     * it throws is rethrown.  The ghost parameters name the lists and the
     * count the document started from.
     */
    method FinishStoredFields(ghost lists: seq<int>, ghost base: int, ghost count: int)
      requires Valid()
      requires storedFieldConsumer.numStoredFields == lists && storedFieldConsumer.numStoredFieldsInDoc == base + count
      modifies storedFieldConsumer
      ensures Valid()
      ensures storedFieldConsumer.numStoredFields == lists + [base + count]
      ensures storedFieldConsumer.numStoredFieldsInDoc == 0
      ensures storedFieldConsumer.numBufferedDocs == old(storedFieldConsumer.numBufferedDocs) + 1
      ensures storedFieldConsumer.bufferedDocs.written == old(storedFieldConsumer.bufferedDocs.written)
      ensures storedFieldConsumer.endOffsets ==
        old(storedFieldConsumer.endOffsets) + [Wrap32(|storedFieldConsumer.bufferedDocs.written|)]
      ensures storedFieldConsumer.docEnds == old(storedFieldConsumer.docEnds) + [|storedFieldConsumer.bufferedDocs.written|]
      ensures storedFieldConsumer.numChunks ==
        old(storedFieldConsumer.numChunks) + if storedFieldConsumer.numBufferedDocs >= 128 then 1 else 0
      ensures storedFieldConsumer.docBase == old(storedFieldConsumer.docBase)
    {
      storedFieldConsumer.FinishDocument();
    }

    /**
     * `processDocument`: number and initialise every field, process them in
     * order until one throws, and in any case finish the document.
     */
    method ProcessDocument(document: seq<Field>, docID: int32) returns (o: Outcome)
      requires Valid()
      modifies this, storedFieldConsumer, storedFieldConsumer.bufferedDocs, storedFieldConsumer.bufferedDocs.Repr
      ensures Valid()
      ensures order == FirstSeen(old(order), Names(document))
      ensures forall name :: name in old(fieldNumber) ==> name in fieldNumber && fieldNumber[name] == old(fieldNumber)[name]
      ensures Known(fieldNumber, document)
      ensures storedFieldConsumer.bufferedDocs.written ==
        old(storedFieldConsumer.bufferedDocs.written) + DocumentRun(fieldNumber, document, storedFieldConsumer.encoders).bytes
      ensures storedFieldConsumer.numStoredFields == old(storedFieldConsumer.numStoredFields) +
        [old(storedFieldConsumer.numStoredFieldsInDoc) + DocumentRun(fieldNumber, document, storedFieldConsumer.encoders).count]
      ensures o == DocumentRun(fieldNumber, document, storedFieldConsumer.encoders).outcome
      ensures storedFieldConsumer.numBufferedDocs == old(storedFieldConsumer.numBufferedDocs) + 1
      ensures storedFieldConsumer.numStoredFieldsInDoc == 0
      ensures storedFieldConsumer.endOffsets ==
        old(storedFieldConsumer.endOffsets) + [Wrap32(|storedFieldConsumer.bufferedDocs.written|)]
      ensures storedFieldConsumer.docEnds == old(storedFieldConsumer.docEnds) + [|storedFieldConsumer.bufferedDocs.written|]
      ensures storedFieldConsumer.numChunks ==
        old(storedFieldConsumer.numChunks) + if storedFieldConsumer.numBufferedDocs >= 128 then 1 else 0
      ensures storedFieldConsumer.docBase == old(storedFieldConsumer.docBase)
    {
      ghost var order0, number0, next0 := order, fieldNumber, nextFieldNum;
      var docFields := InitializeFields(document);
      NumbersKept(number0, order0, next0, fieldNumber, order, nextFieldNum);
      o := StoreFields(docID, document, docFields);
    }

    /** The second loop of `processDocument` and `finishStoredFields` after it; the numbering stays. */
    method StoreFields(docID: int32, document: seq<Field>, docFields: seq<PerField>) returns (o: Outcome)
      requires Valid() && Known(fieldNumber, document) && |docFields| == |document|
      requires forall j :: 0 <= j < |document| ==>
        docFields[j].fieldInfo == Some(FieldInfo(document[j].name, fieldNumber[document[j].name]))
      modifies storedFieldConsumer, storedFieldConsumer.bufferedDocs, storedFieldConsumer.bufferedDocs.Repr
      ensures Valid()
      ensures storedFieldConsumer.bufferedDocs.written ==
        old(storedFieldConsumer.bufferedDocs.written) + DocumentRun(fieldNumber, document, storedFieldConsumer.encoders).bytes
      ensures storedFieldConsumer.numStoredFields == old(storedFieldConsumer.numStoredFields) +
        [old(storedFieldConsumer.numStoredFieldsInDoc) + DocumentRun(fieldNumber, document, storedFieldConsumer.encoders).count]
      ensures o == DocumentRun(fieldNumber, document, storedFieldConsumer.encoders).outcome
      ensures storedFieldConsumer.numBufferedDocs == old(storedFieldConsumer.numBufferedDocs) + 1
      ensures storedFieldConsumer.numStoredFieldsInDoc == 0
      ensures storedFieldConsumer.endOffsets ==
        old(storedFieldConsumer.endOffsets) + [Wrap32(|storedFieldConsumer.bufferedDocs.written|)]
      ensures storedFieldConsumer.docEnds == old(storedFieldConsumer.docEnds) + [|storedFieldConsumer.bufferedDocs.written|]
      ensures storedFieldConsumer.numChunks ==
        old(storedFieldConsumer.numChunks) + if storedFieldConsumer.numBufferedDocs >= 128 then 1 else 0
      ensures storedFieldConsumer.docBase == old(storedFieldConsumer.docBase)
    {
      o := ProcessFields(docID, document, docFields);
      ghost var count := DocumentRun(fieldNumber, document, storedFieldConsumer.encoders).count;
      FinishStoredFields(old(storedFieldConsumer.numStoredFields), old(storedFieldConsumer.numStoredFieldsInDoc), count);
    }
  }
}
