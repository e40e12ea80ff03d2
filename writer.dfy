/**
 * disk/Writer: the encodings that every concrete writer inherits, defined
 * on top of one abstract `writeByte` sink.  Each encoder yields the exact
 * sequence of bytes it hands to that sink, in order.
 */
module Writer {
  import opened Java
  import opened BitUtils
  import opened BytesRef

  // ---------------------------------------------------------------------
  // Base-128 variable-length integers.

  /**
   * The base-128 encoding of an unsigned value: seven bits per byte, least
   * significant group first, bit 0x80 set on every byte but the last.
   */
  function VarintBytes(u: nat): (r: seq<uint8>)
    ensures 1 <= |r|
    ensures r[0] % 0x80 == u % 0x80
    decreases u
  {
    if u < 0x80 then [u] else [u % 0x80 + 0x80] + VarintBytes(u / 0x80)
  }

  /** Bit 0x80 is set on every byte but the last, and clear on the last. */
  lemma {:induction false} VarintShape(u: nat)
    ensures var r := VarintBytes(u);
      (forall k :: 0 <= k < |r| - 1 ==> r[k] >= 0x80) && r[|r| - 1] < 0x80
    decreases u
  {
    if u >= 0x80 {
      VarintShape(u / 0x80);
      var r := VarintBytes(u);
      assert r == [u % 0x80 + 0x80] + VarintBytes(u / 0x80);
      forall k | 1 <= k < |r| - 1
        ensures r[k] >= 0x80
      {
        assert r[k] == VarintBytes(u / 0x80)[k - 1];
      }
    }
  }

  /** The value that base-128 bytes spell out, reading their low seven bits. */
  function VarintValue(s: seq<uint8>): nat {
    if s == [] then 0 else s[0] % 0x80 + 0x80 * VarintValue(s[1..])
  }

  /** Every byte carries the next seven low bits of the value. */
  lemma {:induction false} VarintGroups(u: nat, k: nat)
    requires k < |VarintBytes(u)|
    ensures VarintBytes(u)[k] % 0x80 == (u / Pow2(7 * k)) % 0x80
  {
    if k > 0 {
      VarintGroups(u / 0x80, k - 1);
      Pow2Seven();
      Pow2Add(7, 7 * (k - 1));
      DivDiv(u, 0x80, Pow2(7 * (k - 1)));
    }
  }

  lemma {:induction false} VarintValueOfBytes(u: nat)
    ensures VarintValue(VarintBytes(u)) == u
    decreases u
  {
    if u >= 0x80 {
      var r := VarintBytes(u);
      assert r[1..] == VarintBytes(u / 0x80);
      VarintValueOfBytes(u / 0x80);
    }
  }

  /** A value has at most `n` groups exactly when it is below 2^(7n). */
  lemma {:induction false} VarintLength(u: nat, n: nat)
    requires n >= 1
    ensures |VarintBytes(u)| <= n <==> u < Pow2(7 * n)
    decreases u
  {
    Pow2Seven();
    Pow2Add(7, 7 * (n - 1));
    assert Pow2(7 * n) == 0x80 * Pow2(7 * (n - 1));
    if u >= 0x80 {
      if n == 1 {
      } else {
        VarintLength(u / 0x80, n - 1);
      }
    }
  }

  /** A 32-bit pattern takes 1 to 5 bytes and a 64-bit pattern 1 to 10. */
  lemma VarintMaxLength(w: Width, u: nat)
    requires u < Modulus(w)
    ensures |VarintBytes(u)| <= if w == 32 then 5 else 10
  {
    Pow2Widths();
    if w == 32 {
      Pow2Monotone(32, 35);
      VarintLength(u, 5);
    } else {
      Pow2Monotone(64, 70);
      VarintLength(u, 10);
    }
  }

  /**
   * `writeVInt` / `writeVLong`: while any bit above the low seven is set,
   * emit the low seven bits with the continuation bit and shift right
   * without sign; then emit what remains.  The loop variable is the `w`-bit
   * pattern of `i`, read as unsigned, so `>>>` is division by 2^7.
   */
  method WriteVarint(w: Width, i: int) returns (out: seq<uint8>)
    requires InRange(w, i)
    ensures out == VarintBytes(Unsigned(w, i))
  {
    var bits: nat := Unsigned(w, i);
    out := [];
    while bits >= 0x80                                    // (i & ~0x7f) != 0
      invariant out + VarintBytes(bits) == VarintBytes(Unsigned(w, i))
    {
      var b := bits % 0x80 + 0x80;                        // (byte) ((i & 0x7f) | 0x80)
      assert VarintBytes(bits) == [b] + VarintBytes(bits / 0x80);
      assert (out + [b]) + VarintBytes(bits / 0x80) == out + ([b] + VarintBytes(bits / 0x80));
      out := out + [b];
      bits := bits / 0x80;                                // i >>>= 7
    }
    out := out + [LowByte(bits)];                         // (byte) i
  }

  method WriteVInt(i: int32) returns (out: seq<uint8>)
    ensures out == VarintBytes(Unsigned(32, i))
    ensures 1 <= |out| <= 5
  {
    out := WriteVarint(32, i);
    VarintMaxLength(32, Unsigned(32, i));
  }

  method WriteVLong(i: int64) returns (out: seq<uint8>)
    ensures out == VarintBytes(Unsigned(64, i))
    ensures 1 <= |out| <= 10
  {
    out := WriteVarint(64, i);
    VarintMaxLength(64, Unsigned(64, i));
  }

  /** `writeZInt`: the varint of the zig-zag code. */
  method WriteZInt(i: int32) returns (out: seq<uint8>)
    ensures out == VarintBytes(Unsigned(32, ZigZagEncode(32, i)))
    ensures out == VarintBytes(if i >= 0 then 2 * i else -2 * i - 1)
  {
    out := WriteVInt(ZigZagEncode32(i));
    ZigZagValue(32, i);
  }

  method WriteZLong(i: int64) returns (out: seq<uint8>)
    ensures out == VarintBytes(Unsigned(64, ZigZagEncode(64, i)))
    ensures out == VarintBytes(if i >= 0 then 2 * i else -2 * i - 1)
  {
    out := WriteVLong(ZigZagEncode64(i));
    ZigZagValue(64, i);
  }

  // ---------------------------------------------------------------------
  // Fixed-width little-endian integers.

  /** `writeInt`: the low byte of i, i >> 8, i >> 16 and i >> 24. */
  function IntBytes(i: int32): (r: seq<uint8>)
    ensures |r| == 4
    ensures LittleEndianValue(r) == Unsigned(32, i)
  {
    var b0, b1, b2, b3 := LowByte(i), LowByte(i / 0x100), LowByte(i / 0x1_0000), LowByte(i / 0x100_0000);
    var r := [b0, b1, b2, b3];
    assert LittleEndianValue(r) == b0 + 0x100 * (b1 + 0x100 * (b2 + 0x100 * b3)) by {
      assert r[1..] == [b1, b2, b3] && r[1..][1..] == [b2, b3] && r[1..][1..][1..] == [b3];
      assert LittleEndianValue([b3]) == b3 by { assert [b3][1..] == []; }
      assert LittleEndianValue([b2, b3]) == b2 + 0x100 * b3 by { assert [b2, b3][1..] == [b3]; }
      assert LittleEndianValue([b1, b2, b3]) == b1 + 0x100 * (b2 + 0x100 * b3);
    }
    IntBytesValue(i);
    r
  }

  lemma IntBytesValue(i: int)
    ensures LowByte(i) + 0x100 * (LowByte(i / 0x100) + 0x100 * (LowByte(i / 0x1_0000)
            + 0x100 * LowByte(i / 0x100_0000))) == i % TWO_32
  {
    var q1, q2, q3 := i / 0x100, i / 0x1_0000, i / 0x100_0000;
    DivDiv(i, 0x100, 0x100);
    DivDiv(i, 0x1_0000, 0x100);
    assert q3 / 0x100 == i / TWO_32 by { DivDiv(i, 0x100_0000, 0x100); }
    assert i == LowByte(i) + 0x100 * q1;
    assert q1 == LowByte(q1) + 0x100 * q2;
    assert q2 == LowByte(q2) + 0x100 * q3;
    assert q3 == LowByte(q3) + 0x100 * (q3 / 0x100);
  }

  /** `writeLong`: `writeInt` of the low word, then of the high word `i >> 32`. */
  function LongBytes(l: int64): (r: seq<uint8>)
    ensures |r| == 8
    ensures r[..4] == IntBytes(Wrap32(l)) && r[4..] == IntBytes(Wrap32(l / TWO_32))
    ensures LittleEndianValue(r) == Unsigned(64, l)
  {
    var lo := IntBytes(Wrap32(l));
    var hi := IntBytes(Wrap32(l / TWO_32));
    LittleEndianAppend(lo, hi);
    LongSplit(l);
    lo + hi
  }

  lemma {:induction false} LittleEndianAppend(a: seq<uint8>, b: seq<uint8>)
    ensures LittleEndianValue(a + b) == LittleEndianValue(a) + Pow2(8 * |a|) * LittleEndianValue(b)
  {
    if a != [] {
      assert (a + b)[1..] == a[1..] + b;
      LittleEndianAppend(a[1..], b);
      Pow2Add(8, 8 * (|a| - 1));
      assert Pow2(8) == 0x100 by { Pow2Seven(); }
      assert (a + b)[0] == a[0];
      Regroup(a[0], LittleEndianValue(a[1..]), Pow2(8 * (|a| - 1)), LittleEndianValue(b));
    } else {
      assert a + b == b;
    }
  }

  lemma Regroup(x: int, y: int, p: int, v: int)
    ensures x + 0x100 * (y + p * v) == (x + 0x100 * y) + (0x100 * p) * v
  {
  }

  lemma LongSplit(l: int64)
    ensures Unsigned(32, Wrap32(l)) + Pow2(32) * Unsigned(32, Wrap32(l / TWO_32)) == Unsigned(64, l)
  {
    Pow2Widths();
    var lo, q := l % TWO_32, l / TWO_32;
    UnsignedOfWrap(32, l);
    assert Wrap32(q) == q;
    var hi := q % TWO_32;
    assert Unsigned(32, q) == hi;
    DivDiv(l, TWO_32, TWO_32);
    assert q == hi + TWO_32 * (l / TWO_64);
    assert l == lo + TWO_32 * hi + TWO_64 * (l / TWO_64);
    DivUnique(l, TWO_64, l / TWO_64, lo + TWO_32 * hi);
  }

  // ---------------------------------------------------------------------
  // Byte arrays and strings.

  /** The abstract `writeBytes(b, offset, length)`: the sink receives that slice. */
  function WriteBytesSlice(b: seq<uint8>, offset: nat, length: nat): (r: seq<uint8>)
    requires offset + length <= |b|
    ensures |r| == length && forall k :: 0 <= k < length ==> r[k] == b[offset + k]
  {
    b[offset..offset + length]
  }

  /** `writeBytes(b, len)` forwards to `writeBytes(b, 0, len)`: the first `len` bytes. */
  function WriteBytes(b: seq<uint8>, length: nat): (r: seq<uint8>)
    requires length <= |b|
    ensures r == b[..length]
  {
    WriteBytesSlice(b, 0, length)
  }

  /** `writeString`: the vint of the UTF-8 length, then the UTF-8 bytes. */
  method WriteString(s: string) returns (out: seq<uint8>)
    requires |Utf8Encode(s)| < TWO_31
    ensures out == VarintBytes(|Utf8Encode(s)|) + Utf8Encode(s)
  {
    var bytes := Utf8Encode(s);
    var prefix := WriteVInt(|bytes|);
    UnsignedSmall(32, |bytes|);
    var body := WriteBytesSlice(bytes, 0, |bytes|);
    assert body == bytes;
    out := prefix + body;
  }
}
