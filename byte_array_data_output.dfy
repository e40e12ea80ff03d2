/**
 * store/ByteArrayDataOutput: a cursor `pos` over a caller's byte array,
 * bounded by `limit`.  Its writes store in place; each is guarded by a Java
 * `assert` that the bytes fit below `limit` (in int arithmetic), modelled
 * as a precondition.  Nothing ties `limit` or `pos` to the array, so a
 * store that falls outside the array throws IndexOutOfBoundsException.
 */
module ByteArrayDataOutput {
  import opened Java
  import opened BitUtils
  import opened Writer
  import opened Reader

  /** `VH_LE_SHORT.set`: the low byte, then the high byte. */
  function ShortBytes(i: int16): (r: seq<uint8>)
    ensures |r| == 2 && LittleEndianValue(r) == i % TWO_16
  {
    var lo, hi := LowByte(i), LowByte(i / 0x100);
    var r := [lo, hi];
    assert LittleEndianValue(r) == lo as int + 0x100 * (hi as int) by {
      assert r[1..] == [hi];
      assert LittleEndianValue([hi]) == hi by { assert [hi][1..] == []; }
    }
    DivDiv(i, 0x100, 0x100);
    r
  }

  /** `readShort` over the bytes of a short gives the short back. */
  lemma ReadShortOfShortBytes(src: seq<uint8>, pos: nat, i: int16)
    requires pos + 2 <= |src| && src[pos..pos + 2] == ShortBytes(i)
    ensures ReadShort(src, pos) == Ok(Read(i, pos + 2))
  {
    assert src[pos] == ShortBytes(i)[0] && src[pos + 1] == ShortBytes(i)[1];
    DivDiv(i, 0x100, 0x100);
  }

  class ByteArrayDataOutput {
    var bytes: array<uint8>
    var pos: int32
    var limit: int32

    /** A Java array: its length is an int. */
    predicate Valid()
      reads this
    {
      bytes.Length < TWO_31
    }

    /** The `n` bytes from `pos` on lie inside the array. */
    predicate Fits(n: nat)
      reads this
    {
      0 <= pos && pos + n <= bytes.Length
    }

    /** `ByteArrayDataOutput(bytes)`: the whole array. */
    constructor (bytes: array<uint8>)
      requires bytes.Length < TWO_31
      ensures Valid() && this.bytes == bytes && pos == 0 && limit == bytes.Length
    {
      new;
      Reset(bytes);
    }

    /** `ByteArrayDataOutput(bytes, offset, len)`. */
    constructor WithRange(bytes: array<uint8>, offset: int32, len: int32)
      requires bytes.Length < TWO_31
      ensures Valid() && this.bytes == bytes && pos == offset && limit == Wrap32(offset + len)
    {
      new;
      ResetRange(bytes, offset, len);
    }

    /** `ByteArrayDataOutput()`: the shared empty array, so no write can be admitted. */
    constructor Empty()
      ensures Valid() && bytes.Length == 0 && pos == 0 && limit == 0
      ensures !(pos < limit)
    {
      var empty := new uint8[0];
      new;
      Reset(empty);
    }

    /** `reset(bytes)`: `reset(bytes, 0, bytes.length)`. */
    method Reset(bytes: array<uint8>)
      requires bytes.Length < TWO_31
      modifies this
      ensures Valid() && this.bytes == bytes && pos == 0 && limit == bytes.Length
    {
      ResetRange(bytes, 0, bytes.Length);
    }

    /**
     * `reset(bytes, offset, len)`: `limit = offset + len` in int arithmetic,
     * so it may wrap; neither `offset` nor the limit is checked against the
     * array.
     */
    method ResetRange(bytes: array<uint8>, offset: int32, len: int32)
      requires bytes.Length < TWO_31
      modifies this
      ensures Valid() && this.bytes == bytes && pos == offset && limit == Wrap32(offset + len)
    {
      this.bytes := bytes;
      pos := offset;
      limit := Wrap32(offset + len);
    }

    /** `getPosition`. */
    function GetPosition(): (r: int)
      reads this
      ensures r == pos
    {
      pos
    }

    /**
     * `writeByte`: `bytes[pos++] = b`.  Java evaluates the index `pos++`
     * before it checks it, so `pos` moves by one even when the store falls
     * outside the array and throws.
     */
    method WriteByte(b: uint8) returns (o: Outcome)
      requires Valid() && pos < limit
      modifies this, bytes
      ensures Valid() && bytes == old(bytes) && limit == old(limit) && pos == old(pos) + 1
      ensures o.Normal? <==> 0 <= old(pos) < bytes.Length
      ensures o.Thrown? ==> o.error == IndexOutOfBoundsException && bytes[..] == old(bytes[..])
      ensures o.Normal? ==> bytes[..] == old(bytes[..])[old(pos) := b]
    {
      var p := pos;
      pos := pos + 1;
      if !(0 <= p < bytes.Length) {
        return Thrown(IndexOutOfBoundsException);    // ArrayIndexOutOfBoundsException
      }
      bytes[p] := b;
      return Normal;
    }

    /**
     * `writeBytes(b, offset, length)`: `System.arraycopy` of `b[offset ..
     * offset + length)` to `pos`; arraycopy throws, copying nothing, when
     * the length is negative or either range leaves its array, and then
     * `pos` is not advanced.
     */
    method WriteBytes(b: seq<uint8>, offset: int32, length: int32) returns (o: Outcome)
      requires Valid() && Wrap32(pos + length) <= limit
      modifies this, bytes
      ensures Valid() && bytes == old(bytes) && limit == old(limit)
      ensures o.Normal? <==> 0 <= offset && 0 <= length && offset + length <= |b| && old(Fits(length as nat))
      ensures o.Thrown? ==> o.error == IndexOutOfBoundsException && pos == old(pos) && bytes[..] == old(bytes[..])
      ensures o.Normal? ==> pos == old(pos) + length
      ensures o.Normal? ==> bytes[..] == old(bytes[..pos]) + b[offset..offset + length] + old(bytes[pos + length..])
    {
      if offset < 0 || length < 0 || offset + length > |b| || !Fits(length as nat) {
        return Thrown(IndexOutOfBoundsException);
      }
      Store(b[offset..offset + length]);
      return Normal;
    }

    /** The bytes `v` overwrite the array from `pos` on, and `pos` moves past them. */
    method Store(v: seq<uint8>)
      requires Valid() && Fits(|v|)
      modifies this, bytes
      ensures Valid() && bytes == old(bytes) && limit == old(limit) && pos == old(pos) + |v|
      ensures bytes[..] == old(bytes[..pos]) + v + old(bytes[pos + |v|..])
    {
      forall k | 0 <= k < |v| {
        bytes[pos + k] := v[k];
      }
      assert bytes[..] == old(bytes[..pos]) + v + old(bytes[pos + |v|..]);
      pos := pos + |v|;
    }

    /**
     * `writeShort`: two bytes little-endian at `pos`, which `readShort`
     * turns back into `i`; the VarHandle throws, writing nothing, when they
     * do not fit in the array.
     */
    method WriteShort(i: int16) returns (o: Outcome)
      requires Valid() && Wrap32(pos + 2) <= limit
      modifies this, bytes
      ensures Valid() && bytes == old(bytes) && limit == old(limit)
      ensures o.Normal? <==> old(Fits(2))
      ensures o.Thrown? ==> o.error == IndexOutOfBoundsException && pos == old(pos) && bytes[..] == old(bytes[..])
      ensures o.Normal? ==> pos == old(pos) + 2
      ensures o.Normal? ==> bytes[..] == old(bytes[..pos]) + ShortBytes(i) + old(bytes[pos + 2..])
      ensures o.Normal? ==> ReadShort(bytes[..], old(pos)) == Ok(Read(i, pos))
    {
      if !Fits(2) {
        return Thrown(IndexOutOfBoundsException);
      }
      Store(ShortBytes(i));
      assert bytes[..][old(pos)..pos] == ShortBytes(i);
      ReadShortOfShortBytes(bytes[..], old(pos), i);
      return Normal;
    }

    /**
     * `writeInt`: four bytes little-endian at `pos`, which `readInt` turns
     * back into `i`; nothing is written when they do not fit in the array.
     */
    method WriteInt(i: int32) returns (o: Outcome)
      requires Valid() && Wrap32(pos + 4) <= limit
      modifies this, bytes
      ensures Valid() && bytes == old(bytes) && limit == old(limit)
      ensures o.Normal? <==> old(Fits(4))
      ensures o.Thrown? ==> o.error == IndexOutOfBoundsException && pos == old(pos) && bytes[..] == old(bytes[..])
      ensures o.Normal? ==> pos == old(pos) + 4
      ensures o.Normal? ==> bytes[..] == old(bytes[..pos]) + IntBytes(i) + old(bytes[pos + 4..])
      ensures o.Normal? ==> ReadInt(bytes[..], old(pos)) == Ok(Read(i, pos))
    {
      if !Fits(4) {
        return Thrown(IndexOutOfBoundsException);
      }
      Store(IntBytes(i));
      assert bytes[..][old(pos)..pos] == IntBytes(i);
      ReadIntOfIntBytes(bytes[..], old(pos), i);
      return Normal;
    }

    /**
     * `writeLong`: eight bytes little-endian at `pos`, which `readLong`
     * turns back into `i`; nothing is written when they do not fit in the
     * array.
     */
    method WriteLong(i: int64) returns (o: Outcome)
      requires Valid() && Wrap32(pos + 8) <= limit
      modifies this, bytes
      ensures Valid() && bytes == old(bytes) && limit == old(limit)
      ensures o.Normal? <==> old(Fits(8))
      ensures o.Thrown? ==> o.error == IndexOutOfBoundsException && pos == old(pos) && bytes[..] == old(bytes[..])
      ensures o.Normal? ==> pos == old(pos) + 8
      ensures o.Normal? ==> bytes[..] == old(bytes[..pos]) + LongBytes(i) + old(bytes[pos + 8..])
      ensures o.Normal? ==> ReadLong(bytes[..], old(pos)) == Ok(Read(i, pos))
    {
      if !Fits(8) {
        return Thrown(IndexOutOfBoundsException);
      }
      Store(LongBytes(i));
      assert bytes[..][old(pos)..pos] == LongBytes(i);
      ReadLongOfLongBytes(bytes[..], old(pos), i);
      return Normal;
    }
  }
}
