/**
 * disk/Reader: the decodings that every concrete reader inherits, defined
 * on top of one abstract `readByte` source.  The source is a byte sequence
 * and a cursor into it; every decoder returns its value and the cursor
 * after the bytes it consumed, or the exception it throws.  Running out of
 * bytes is `EndOfInput`.
 */
module Reader {
  import opened Java
  import opened BitUtils
  import opened BytesRef
  import opened Writer

  /** A decoded value and the position just after it. */
  datatype Read<T> = Read(value: T, next: nat)

  /** The abstract `readByte`: the byte at the cursor, as its unsigned bit pattern. */
  function ReadByte(src: seq<uint8>, pos: nat): (r: Result<Read<uint8>>)
    ensures r.Ok? <==> pos < |src|
    ensures r.Ok? ==> r.value.value == src[pos] && r.value.next == pos + 1
  {
    if pos < |src| then Ok(Read(src[pos], pos + 1)) else Err(EndOfInput)
  }

  /** The abstract `readBytes(buffer, 0, len)`: the next `len` bytes. */
  function ReadBytes(src: seq<uint8>, pos: nat, len: nat): (r: Result<Read<seq<uint8>>>)
    ensures r.Ok? <==> pos + len <= |src|
    ensures r.Ok? ==> r.value.value == src[pos..pos + len] && r.value.next == pos + len
  {
    if pos + len <= |src| then Ok(Read(src[pos..pos + len], pos + len)) else Err(EndOfInput)
  }

  // ---------------------------------------------------------------------
  // Fixed-width little-endian integers.

  /** `readInt`: four bytes, least significant first, OR-ed into an int. */
  function ReadInt(src: seq<uint8>, pos: nat): (r: Result<Read<int32>>)
    ensures r.Ok? <==> pos + 4 <= |src|
    ensures r.Ok? ==>
      r.value.next == pos + 4 && Unsigned(32, r.value.value) == LittleEndianValue(src[pos..pos + 4])
  {
    var b1 :- ReadByte(src, pos);
    var b2 :- ReadByte(src, b1.next);
    var b3 :- ReadByte(src, b2.next);
    var b4 :- ReadByte(src, b3.next);
    var bits := b1.value + 0x100 * b2.value + 0x1_0000 * b3.value + 0x100_0000 * b4.value;
    assert LittleEndianValue(src[pos..pos + 4]) == bits by {
      LittleEndianFour(src[pos..pos + 4]);
    }
    UnsignedWrap(32, bits);
    Ok(Read(Wrap32(bits), b4.next))
  }

  lemma LittleEndianFour(s: seq<uint8>)
    requires |s| == 4
    ensures LittleEndianValue(s) == s[0] as int + 0x100 * (s[1] as int) + 0x1_0000 * (s[2] as int) + 0x100_0000 * (s[3] as int)
  {
    var a := s[1..];
    var b := a[1..];
    var c := b[1..];
    assert LittleEndianValue(c) == s[3] by { assert c[1..] == []; }
    assert LittleEndianValue(b) == s[2] as int + 0x100 * LittleEndianValue(c);
    assert LittleEndianValue(a) == s[1] as int + 0x100 * LittleEndianValue(b);
  }

  /** `readShort`: two bytes, little-endian, sign-extended by the `(short)` cast. */
  function ReadShort(src: seq<uint8>, pos: nat): (r: Result<Read<int16>>)
    ensures r.Ok? <==> pos + 2 <= |src|
    ensures r.Ok? ==>
      var v := src[pos] as int + 0x100 * (src[pos + 1] as int);
      r.value.next == pos + 2 && r.value.value == if v < TWO_15 then v else v - TWO_16
  {
    var b1 :- ReadByte(src, pos);
    var b2 :- ReadByte(src, b1.next);
    Ok(Read(Wrap16(0x100 * b2.value + b1.value), b2.next))
  }

  /** `readLong`: the low int, then the high int, joined as `high << 32 | low & 0xffffffffL`. */
  function ReadLong(src: seq<uint8>, pos: nat): (r: Result<Read<int64>>)
    ensures r.Ok? <==> pos + 8 <= |src|
    ensures r.Ok? ==>
      r.value.next == pos + 8 && Unsigned(64, r.value.value) == LittleEndianValue(src[pos..pos + 8])
  {
    var low :- ReadInt(src, pos);
    var high :- ReadInt(src, low.next);
    var l := high.value * TWO_32 + Unsigned(32, low.value);
    assert src[pos..pos + 8][..4] == src[pos..pos + 4] && src[pos..pos + 8][4..] == src[pos + 4..pos + 8];
    LongJoin(src[pos..pos + 8], low.value, high.value);
    Ok(Read(l, high.next))
  }

  lemma LongJoin(s: seq<uint8>, low: int32, high: int32)
    requires |s| == 8
    requires Unsigned(32, low) == LittleEndianValue(s[..4])
    requires Unsigned(32, high) == LittleEndianValue(s[4..])
    ensures Unsigned(64, high * TWO_32 + Unsigned(32, low)) == LittleEndianValue(s)
  {
    assert s == s[..4] + s[4..];
    LittleEndianAppend(s[..4], s[4..]);
    Pow2Widths();
    assert Pow2(8 * 4) == TWO_32;
    JoinWords(low, high);
  }

  /** `high << 32 | low & 0xffffffffL`, read as unsigned, is the two unsigned words side by side. */
  lemma JoinWords(low: int32, high: int32)
    ensures Unsigned(64, high * TWO_32 + Unsigned(32, low)) == Unsigned(32, low) + TWO_32 * Unsigned(32, high)
  {
    var lo := Unsigned(32, low);
    var x := high * TWO_32 + lo;
    if high >= 0 {
      assert Unsigned(32, high) == high;
      UnsignedSmall(64, x);
    } else {
      assert Unsigned(32, high) == high + TWO_32;
      UnsignedSmall(64, x + TWO_64);
      assert Unsigned(64, x) == Unsigned(64, x + TWO_64);
    }
  }

  lemma ReadIntOfIntBytes(src: seq<uint8>, pos: nat, i: int32)
    requires pos + 4 <= |src| && src[pos..pos + 4] == IntBytes(i)
    ensures ReadInt(src, pos) == Ok(Read(i, pos + 4))
  {
    var r := ReadInt(src, pos);
    WrapUnsigned(32, r.value.value);
    WrapUnsigned(32, i);
  }

  lemma ReadLongOfLongBytes(src: seq<uint8>, pos: nat, l: int64)
    requires pos + 8 <= |src| && src[pos..pos + 8] == LongBytes(l)
    ensures ReadLong(src, pos) == Ok(Read(l, pos + 8))
  {
    var r := ReadLong(src, pos);
    WrapUnsigned(64, r.value.value);
    WrapUnsigned(64, l);
  }

  // ---------------------------------------------------------------------
  // Unbounded variable-length integers.

  /** The `w`-bit pattern of `g << shift` (Java takes the distance modulo the width). */
  function ShiftedGroup(w: Width, g: nat, shift: int): (r: nat)
    ensures r < Modulus(w)
  {
    Unsigned(w, g * Pow2(ShiftDistance(w, shift)))
  }

  /**
   * The do-while loop of `readVInt` / `readVLong` from a given state: read a
   * byte, OR its low seven bits in at `shift`, add 7 to the int `shift`,
   * and go on while bit 0x80 of the byte is set.  The accumulator `acc` is
   * the `w`-bit pattern of the Java variable `i`, read as unsigned.
   */
  function DecodeVarintFrom(w: Width, src: seq<uint8>, p: nat, acc: nat, shift: int32): (r: Result<Read<int>>)
    ensures r.Ok? ==> InRange(w, r.value.value) && p < r.value.next <= |src|
    decreases |src| - p
  {
    if p >= |src| then Err(EndOfInput)
    else
      var b := src[p];
      var i := BitOr(acc, ShiftedGroup(w, b % 0x80, shift));
      if b >= 0x80 then DecodeVarintFrom(w, src, p + 1, i, Wrap32(shift + 7))
      else Ok(Read(Wrap(w, i), p + 1))
  }

  /** The loop of `readVInt` (w = 32) and `readVLong` (w = 64). */
  method ReadVarint(w: Width, src: seq<uint8>, pos: nat) returns (r: Result<Read<int>>)
    ensures r == DecodeVarintFrom(w, src, pos, 0, 0)
  {
    var p := pos;
    var i: nat := 0;
    var shift: int32 := 0;
    while true
      invariant pos <= p
      invariant DecodeVarintFrom(w, src, p, i, shift) == DecodeVarintFrom(w, src, pos, 0, 0)
      decreases |src| - p
    {
      if p >= |src| {
        return Err(EndOfInput);
      }
      var b := src[p];                                    // b = readByte()
      p := p + 1;
      i := BitOr(i, ShiftedGroup(w, b % 0x80, shift));    // i |= (b & 0x7f) << shift
      shift := Wrap32(shift + 7);                         // shift += 7
      if b < 0x80 {                                       // while ((b & 0x80) != 0)
        return Ok(Read(Wrap(w, i), p));
      }
    }
  }

  method ReadVInt(src: seq<uint8>, pos: nat) returns (r: Result<Read<int>>)
    ensures r == DecodeVarintFrom(32, src, pos, 0, 0)
    ensures r.Ok? ==> InRange(32, r.value.value)
  {
    r := ReadVarint(32, src, pos);
  }

  method ReadVLong(src: seq<uint8>, pos: nat) returns (r: Result<Read<int>>)
    ensures r == DecodeVarintFrom(64, src, pos, 0, 0)
    ensures r.Ok? ==> InRange(64, r.value.value)
  {
    r := ReadVarint(64, src, pos);
  }

  /** The arithmetic of one continuation group: the accumulator stays below the next
    * group's position, and the groups still to come fit in the width. */
  lemma GroupStep(w: Width, acc: nat, s: nat, v: nat)
    requires s < w && acc < Pow2(s) && Pow2(s) * v < Modulus(w) && v >= 0x80
    ensures s + 7 < w
    ensures acc + Pow2(s) * (v % 0x80) < Pow2(s + 7)
    ensures Pow2(s + 7) * (v / 0x80) < Modulus(w)
    ensures acc + Pow2(s) * (v % 0x80) + Pow2(s + 7) * (v / 0x80) == acc + Pow2(s) * v
  {
    Pow2Add(s, 7);
    Pow2Seven();
    GroupArith(acc, Pow2(s), Modulus(w), v);
    ModulusPow2(w);
    if s + 7 >= w {
      Pow2Monotone(w, s + 7);
    }
  }

  lemma GroupArith(acc: nat, p: nat, m: nat, v: nat)
    requires acc < p && p * v < m && v >= 0x80
    ensures acc + p * (v % 0x80) < p * 0x80
    ensures p * 0x80 <= p * v
    ensures (p * 0x80) * (v / 0x80) < m
    ensures acc + p * (v % 0x80) + (p * 0x80) * (v / 0x80) == acc + p * v
  {
    var g, q := v % 0x80, v / 0x80;
    MulMono(p, g, 0x7F);
    MulMono(p, 0x80, v);
    assert (p * 0x80) * q == p * (0x80 * q);
    MulMono(p, 0x80 * q, v);
    assert p * g + p * (0x80 * q) == p * (g + 0x80 * q);
  }

  /** Shifting a group that stays below the width loses no bits. */
  lemma ShiftedGroupExact(w: Width, g: nat, s: nat)
    requires s < w && Pow2(s) * g < Modulus(w)
    ensures ShiftedGroup(w, g, s) == Pow2(s) * g
  {
    var d := ShiftDistance(w, s);
    assert d == s;
    var x := g * Pow2(d);
    assert x == Pow2(s) * g;
    UnsignedSmall(w, x);
  }

  /** OR-ing the next group into the accumulator is addition. */
  lemma GroupOr(w: Width, acc: nat, s: nat, g: nat)
    requires s < w && acc < Pow2(s) && Pow2(s) * g < Modulus(w)
    ensures BitOr(acc, ShiftedGroup(w, g, s)) == acc + Pow2(s) * g
  {
    ShiftedGroupExact(w, g, s);
    BitOrDisjoint(acc, g, s);
  }

  lemma SliceTail(src: seq<uint8>, p: nat, t: seq<uint8>)
    requires 1 <= |t| && p + |t| <= |src| && src[p..p + |t|] == t
    ensures src[p] == t[0] && src[p + 1..p + |t|] == t[1..]
  {
    assert src[p + 1..p + |t|] == src[p..p + |t|][1..];
  }

  /**
   * Decoding from any state whose accumulator holds the groups below `s`
   * over the bytes `VarintBytes(v)` adds `v << s` and stops just after them.
   */
  lemma {:induction false} DecodeVarintBytes(w: Width, src: seq<uint8>, p: nat, acc: nat, s: nat, v: nat)
    requires s < w && acc < Pow2(s) && Pow2(s) * v < Modulus(w)
    requires p + |VarintBytes(v)| <= |src| && src[p..p + |VarintBytes(v)|] == VarintBytes(v)
    ensures DecodeVarintFrom(w, src, p, acc, s) == Ok(Read(Wrap(w, acc + Pow2(s) * v), p + |VarintBytes(v)|))
    decreases v
  {
    var bytes := VarintBytes(v);
    SliceTail(src, p, bytes);
    var g := v % 0x80;
    MulMono(Pow2(s), g, v);
    GroupOr(w, acc, s, g);
    if v >= 0x80 {
      DecodeVarintStep(w, src, p, acc, s, v);
    } else {
      assert bytes == [v];
    }
  }

  /** The case of a continuation byte, with the groups after it left to the induction. */
  lemma {:induction false} DecodeVarintStep(w: Width, src: seq<uint8>, p: nat, acc: nat, s: nat, v: nat)
    requires s < w && v >= 0x80 && acc < Pow2(s) && Pow2(s) * v < Modulus(w)
    requires p + |VarintBytes(v)| <= |src| && src[p..p + |VarintBytes(v)|] == VarintBytes(v)
    requires BitOr(acc, ShiftedGroup(w, src[p] % 0x80, s)) == acc + Pow2(s) * (v % 0x80)
    ensures DecodeVarintFrom(w, src, p, acc, s) == Ok(Read(Wrap(w, acc + Pow2(s) * v), p + |VarintBytes(v)|))
    decreases v, 0
  {
    var i := acc + Pow2(s) * (v % 0x80);
    ContinuationWindow(src, p, v);
    GroupStep(w, acc, s, v);
    DecodeContinues(w, src, p, acc, s);
    DecodeVarintBytes(w, src, p + 1, i, s + 7, v / 0x80);
  }

  /** A byte with bit 0x80 set: the loop goes on from the next byte, seven bits further up. */
  lemma DecodeContinues(w: Width, src: seq<uint8>, p: nat, acc: nat, s: nat)
    requires s + 7 < w && p < |src| && src[p] >= 0x80
    ensures DecodeVarintFrom(w, src, p, acc, s)
         == DecodeVarintFrom(w, src, p + 1, BitOr(acc, ShiftedGroup(w, src[p] % 0x80, s)), s + 7)
  {
    assert Wrap32(s + 7) == s + 7;
  }

  /** The bytes of a value of more than one group: a continuation byte, then the bytes
    * of the rest of the value. */
  lemma ContinuationWindow(src: seq<uint8>, p: nat, v: nat)
    requires v >= 0x80
    requires p + |VarintBytes(v)| <= |src| && src[p..p + |VarintBytes(v)|] == VarintBytes(v)
    ensures p < |src| && src[p] >= 0x80 && src[p] % 0x80 == v % 0x80
    ensures |VarintBytes(v)| == 1 + |VarintBytes(v / 0x80)|
    ensures p + 1 + |VarintBytes(v / 0x80)| <= |src|
    ensures src[p + 1..p + 1 + |VarintBytes(v / 0x80)|] == VarintBytes(v / 0x80)
  {
    var bytes := VarintBytes(v);
    SliceTail(src, p, bytes);
    assert bytes[1..] == VarintBytes(v / 0x80);
  }

  /** `readVInt` / `readVLong` over the output of `writeVInt` / `writeVLong` return the value
    * written and consume exactly its bytes. */
  lemma ReadVarintOfVarintBytes(w: Width, src: seq<uint8>, pos: nat, i: int)
    requires InRange(w, i)
    requires var bytes := VarintBytes(Unsigned(w, i));
      pos + |bytes| <= |src| && src[pos..pos + |bytes|] == bytes
    ensures DecodeVarintFrom(w, src, pos, 0, 0) == Ok(Read(i, pos + |VarintBytes(Unsigned(w, i))|))
  {
    ModulusPow2(w);
    DecodeVarintBytes(w, src, pos, 0, 0, Unsigned(w, i));
    WrapUnsigned(w, i);
  }

  /** `readZInt` / `readZLong`: the zig-zag decode of the varint. */
  method ReadZVarint(w: Width, src: seq<uint8>, pos: nat) returns (r: Result<Read<int>>)
    ensures r.Ok? <==> DecodeVarintFrom(w, src, pos, 0, 0).Ok?
    ensures r.Ok? ==> var v := DecodeVarintFrom(w, src, pos, 0, 0).value;
                      r.value == Read(ZigZagDecode(w, v.value), v.next)
  {
    var v :- ReadVarint(w, src, pos);
    r := Ok(Read(ZigZagDecode(w, v.value), v.next));
  }

  /** `readZInt` and `readZLong` over the output of `writeZInt` / `writeZLong` return the value
    * written. */
  lemma ReadZVarintOfZVarintBytes(w: Width, src: seq<uint8>, pos: nat, i: int)
    requires InRange(w, i)
    requires var bytes := VarintBytes(Unsigned(w, ZigZagEncode(w, i)));
      pos + |bytes| <= |src| && src[pos..pos + |bytes|] == bytes
    ensures var d := DecodeVarintFrom(w, src, pos, 0, 0);
      d.Ok? && ZigZagDecode(w, d.value.value) == i
      && d.value.next == pos + |VarintBytes(Unsigned(w, ZigZagEncode(w, i)))|
  {
    ReadVarintOfVarintBytes(w, src, pos, ZigZagEncode(w, i));
    ZigZagRoundTrip(w, i);
  }

  // ---------------------------------------------------------------------
  // Strings.

  /**
   * `readString`: a vint length, `new byte[length]` (which throws for a
   * negative length), then exactly that many bytes.  The UTF-8 bytes are
   * returned; decoding them is not modelled.
   */
  method ReadString(src: seq<uint8>, pos: nat) returns (r: Result<Read<seq<uint8>>>)
    ensures r == StringAt(src, pos)
  {
    var length :- ReadVarint(32, src, pos);
    if length.value < 0 {
      return Err(NegativeArraySizeException);
    }
    r := ReadBytes(src, length.next, length.value);
  }

  /** What `readString` returns at a position. */
  function StringAt(src: seq<uint8>, pos: nat): (r: Result<Read<seq<uint8>>>)
    ensures r.Ok? ==> var n := DecodeVarintFrom(32, src, pos, 0, 0);
      n.Ok? && n.value.value == |r.value.value| && r.value.next == n.value.next + |r.value.value|
      && r.value.next <= |src| && r.value.value == src[n.value.next..r.value.next]
  {
    var length :- DecodeVarintFrom(32, src, pos, 0, 0);
    if length.value < 0 then Err(NegativeArraySizeException)
    else ReadBytes(src, length.next, length.value)
  }

  lemma SliceSplit(src: seq<uint8>, p: nat, a: seq<uint8>, b: seq<uint8>)
    requires p + |a| + |b| <= |src| && src[p..p + |a| + |b|] == a + b
    ensures src[p..p + |a|] == a && src[p + |a|..p + |a| + |b|] == b
  {
    assert src[p..p + |a|] == src[p..p + |a| + |b|][..|a|];
    assert src[p + |a|..p + |a| + |b|] == src[p..p + |a| + |b|][|a|..];
  }

  /** The vint length in front of `u` decodes to `|u|`, and `u` follows it. */
  lemma LengthPrefixDecodes(src: seq<uint8>, pos: nat, u: seq<uint8>)
    requires |u| < TWO_31
    requires var bytes := VarintBytes(|u|) + u;
      pos + |bytes| <= |src| && src[pos..pos + |bytes|] == bytes
    ensures DecodeVarintFrom(32, src, pos, 0, 0) == Ok(Read(|u|, pos + |VarintBytes(|u|)|))
    ensures src[pos + |VarintBytes(|u|)|..pos + |VarintBytes(|u|)| + |u|] == u
  {
    SliceSplit(src, pos, VarintBytes(|u|), u);
    LengthDecodes(src, pos, |u|);
  }

  /** A non-negative int written as a vint decodes to itself. */
  lemma LengthDecodes(src: seq<uint8>, pos: nat, len: nat)
    requires len < TWO_31
    requires var n := VarintBytes(len); pos + |n| <= |src| && src[pos..pos + |n|] == n
    ensures DecodeVarintFrom(32, src, pos, 0, 0) == Ok(Read(len, pos + |VarintBytes(len)|))
  {
    UnsignedSmall(32, len);
    ReadVarintOfVarintBytes(32, src, pos, len);
  }

  /** `readString` over a vint length followed by that many bytes yields those bytes. */
  lemma ReadLengthPrefixed(src: seq<uint8>, pos: nat, u: seq<uint8>)
    requires |u| < TWO_31
    requires var bytes := VarintBytes(|u|) + u;
      pos + |bytes| <= |src| && src[pos..pos + |bytes|] == bytes
    ensures StringAt(src, pos) == Ok(Read(u, pos + |VarintBytes(|u|)| + |u|))
  {
    LengthPrefixDecodes(src, pos, u);
    StringAtDecoded(src, pos, |u|, pos + |VarintBytes(|u|)|);
  }

  /** With a non-negative length decoded and that many bytes left, `readString` returns them. */
  lemma StringAtDecoded(src: seq<uint8>, pos: nat, len: nat, next: nat)
    requires DecodeVarintFrom(32, src, pos, 0, 0) == Ok(Read(len, next)) && next + len <= |src|
    ensures StringAt(src, pos) == Ok(Read(src[next..next + len], next + len))
  {
  }

  /** `readString` over the output of `writeString(s)` yields the UTF-8 bytes of `s`. */
  lemma ReadStringOfWriteString(src: seq<uint8>, pos: nat, s: string)
    requires |Utf8Encode(s)| < TWO_31
    requires var bytes := VarintBytes(|Utf8Encode(s)|) + Utf8Encode(s);
      pos + |bytes| <= |src| && src[pos..pos + |bytes|] == bytes
    ensures StringAt(src, pos) == Ok(Read(Utf8Encode(s), pos + |VarintBytes(|Utf8Encode(s)|) + Utf8Encode(s)|))
  {
    ReadLengthPrefixed(src, pos, Utf8Encode(s));
  }

  // ---------------------------------------------------------------------
  // Variable-length floats and doubles, as bit patterns.

  /** What `readZFloat` yields: raw float bits or a small integral value. */
  datatype ZFloat = FloatBits(bits: int32) | SmallFloat(value: int)

  /**
   * `readZFloat`: header 0xFF is followed by four raw bytes; a header with
   * bit 0x80 set is the small integer `(b & 0x7f) - 1`; any other header is
   * the top byte of the bits, followed by a short and a byte.
   */
  function ReadZFloat(src: seq<uint8>, pos: nat): (r: Result<Read<ZFloat>>)
    ensures pos < |src| && src[pos] == 0xFF ==>
      (r.Ok? <==> pos + 5 <= |src|) &&
      (r.Ok? ==> r.value.next == pos + 5 && r.value.value.FloatBits?
                 && Unsigned(32, r.value.value.bits) == LittleEndianValue(src[pos + 1..pos + 5]))
    ensures pos < |src| && 0x80 <= src[pos] < 0xFF ==>
      r == Ok(Read(SmallFloat(src[pos] as int - 0x81), pos + 1)) && -1 <= r.value.value.value <= 125
    ensures pos < |src| && src[pos] < 0x80 ==>
      (r.Ok? <==> pos + 4 <= |src|) &&
      (r.Ok? ==> r.value.next == pos + 4 && r.value.value.FloatBits?
                 && r.value.value.bits == BigEndianValue([src[pos], src[pos + 2], src[pos + 1], src[pos + 3]]))
    ensures pos >= |src| ==> r == Err(EndOfInput)
  {
    var b :- ReadByte(src, pos);
    if b.value == 0xFF then
      var bits :- ReadInt(src, b.next);
      Ok(Read(FloatBits(bits.value), bits.next))
    else if b.value >= 0x80 then
      Ok(Read(SmallFloat(b.value % 0x80 - 1), b.next))
    else
      var s :- ReadShort(src, b.next);
      var last :- ReadByte(src, s.next);
      var bits := b.value * TWO_24 + Unsigned16(s.value) * 0x100 + last.value;
      assert bits == BigEndianValue([src[pos], src[pos + 2], src[pos + 1], src[pos + 3]]) by {
        BigEndianFour([src[pos], src[pos + 2], src[pos + 1], src[pos + 3]]);
      }
      Ok(Read(FloatBits(bits), last.next))
  }

  /** `s & 0xFFFF` of a sign-extended short. */
  function Unsigned16(s: int16): (u: nat)
    ensures u < TWO_16 && (s >= 0 ==> u == s) && (s < 0 ==> u == s + TWO_16)
  {
    s % TWO_16
  }

  lemma BigEndianFour(s: seq<uint8>)
    requires |s| == 4
    ensures BigEndianValue(s) == s[0] as int * TWO_24 + (s[1] as int) * 0x1_0000 + (s[2] as int) * 0x100 + s[3] as int
  {
    var a := s[..3];
    var b := a[..2];
    var c := b[..1];
    assert BigEndianValue(c) == s[0] by { assert c[..0] == []; }
    assert BigEndianValue(b) == BigEndianValue(c) * 0x100 + s[1];
    assert BigEndianValue(a) == BigEndianValue(b) * 0x100 + s[2];
  }

  /** What `readZDouble` yields: raw double bits, raw float bits, or a small integral value. */
  datatype ZDouble = DoubleBits(bits: int64) | FloatAsDouble(floatBits: int32) | SmallDouble(value: int)

  /**
   * `readZDouble`: header 0xFF is followed by eight raw bytes, 0xFE by four
   * raw float bytes; a header with bit 0x80 set is the small integer
   * `(b & 0x7f) - 1`; any other header is the top byte of the bits,
   * followed by an int, a short and a byte.
   */
  function ReadZDouble(src: seq<uint8>, pos: nat): (r: Result<Read<ZDouble>>)
    ensures pos < |src| && src[pos] == 0xFF ==>
      (r.Ok? <==> pos + 9 <= |src|) &&
      (r.Ok? ==> r.value.next == pos + 9 && r.value.value.DoubleBits?
                 && Unsigned(64, r.value.value.bits) == LittleEndianValue(src[pos + 1..pos + 9]))
    ensures pos < |src| && src[pos] == 0xFE ==>
      (r.Ok? <==> pos + 5 <= |src|) &&
      (r.Ok? ==> r.value.next == pos + 5 && r.value.value.FloatAsDouble?
                 && Unsigned(32, r.value.value.floatBits) == LittleEndianValue(src[pos + 1..pos + 5]))
    ensures pos < |src| && 0x80 <= src[pos] < 0xFE ==>
      r == Ok(Read(SmallDouble(src[pos] as int - 0x81), pos + 1)) && -1 <= r.value.value.value <= 124
    ensures pos < |src| && src[pos] < 0x80 ==>
      (r.Ok? <==> pos + 8 <= |src|) &&
      (r.Ok? ==> r.value.next == pos + 8 && r.value.value.DoubleBits? && 0 <= r.value.value.bits
                 && r.value.value.bits == src[pos] as int * TWO_56
                    + LittleEndianValue(src[pos + 1..pos + 5]) * TWO_24
                    + (src[pos + 5] as int + 0x100 * (src[pos + 6] as int)) * 0x100 + src[pos + 7])
    ensures pos >= |src| ==> r == Err(EndOfInput)
  {
    var b :- ReadByte(src, pos);
    if b.value == 0xFF then
      var bits :- ReadLong(src, b.next);
      Ok(Read(DoubleBits(bits.value), bits.next))
    else if b.value == 0xFE then
      var bits :- ReadInt(src, b.next);
      Ok(Read(FloatAsDouble(bits.value), bits.next))
    else if b.value >= 0x80 then
      Ok(Read(SmallDouble(b.value % 0x80 - 1), b.next))
    else
      var i :- ReadInt(src, b.next);
      var s :- ReadShort(src, i.next);
      var last :- ReadByte(src, s.next);
      var bits := b.value * TWO_56 + Unsigned(32, i.value) * TWO_24 + Unsigned16(s.value) * 0x100 + last.value;
      assert 0 <= bits < TWO_63 by {
        DoubleBitsRange(b.value, Unsigned(32, i.value), Unsigned16(s.value), last.value);
      }
      Ok(Read(DoubleBits(bits), last.next))
  }

  lemma DoubleBitsRange(top: nat, word: nat, half: nat, low: nat)
    requires top < 0x80 && word < TWO_32 && half < TWO_16 && low < 0x100
    ensures top * TWO_56 + word * TWO_24 + half * 0x100 + low < TWO_63
  {
    assert word * TWO_24 <= (TWO_32 - 1) * TWO_24;
    assert top * TWO_56 <= 0x7F * TWO_56;
  }

  // ---------------------------------------------------------------------
  // Timestamps ("T-long").

  /**
   * The unit multipliers and the header masks that select them.  They are
   * constants of the writer that are not part of this model; a Java
   * `switch` needs its four case labels distinct.
   */
  datatype TimeConstants = TimeConstants(
    second: int64, hour: int64, day: int64,
    secondEncoding: uint8, hourEncoding: uint8, dayEncoding: uint8)
  {
    predicate Valid() {
      secondEncoding != 0 && hourEncoding != 0 && dayEncoding != 0 &&
      secondEncoding != hourEncoding && secondEncoding != dayEncoding && hourEncoding != dayEncoding
    }
  }

  /** The multiplier that `header & DAY_ENCODING` selects, or none (AssertionError). */
  function TimeUnit(c: TimeConstants, header: uint8): (r: Option<int64>)
    requires c.Valid()
    ensures BitAnd(header, c.dayEncoding) == c.secondEncoding as nat ==> r == Some(c.second)
    ensures BitAnd(header, c.dayEncoding) == c.hourEncoding as nat ==> r == Some(c.hour)
    ensures BitAnd(header, c.dayEncoding) == c.dayEncoding as nat ==> r == Some(c.day)
    ensures BitAnd(header, c.dayEncoding) == 0 ==> r == Some(1)
    ensures r.None? <==> BitAnd(header, c.dayEncoding) !in {0, c.secondEncoding as nat, c.hourEncoding as nat, c.dayEncoding as nat}
  {
    var sel := BitAnd(header, c.dayEncoding);
    if sel == c.secondEncoding then Some(c.second)
    else if sel == c.hourEncoding then Some(c.hour)
    else if sel == c.dayEncoding then Some(c.day)
    else if sel == 0 then Some(1)
    else None
  }

  /** The zig-zag bits of a T-long: the low five header bits, then a vlong above them
    * when header bit 0x20 is set (`bits |= readVLong() << 5`). */
  function TLongBits(header: uint8, more: int64): (bits: int64)
    ensures bits % 0x20 == header % 0x20
  {
    Wrap64(more * 0x20) + header % 0x20
  }

  /**
   * `readTLong`: the header byte, the optional vlong continuation, the
   * zig-zag decode, then the multiplication (wrapping at 64 bits) by the
   * unit the header selects.  An unknown unit is an AssertionError.
   */
  method ReadTLong(c: TimeConstants, src: seq<uint8>, pos: nat) returns (r: Result<Read<int64>>)
    requires c.Valid()
    ensures r == TLongAt(c, src, pos)
  {
    var h :- ReadByte(src, pos);
    var header := h.value;
    var bits: int64 := header % 0x20;                     // header & 0x1F
    var next := h.next;
    if (header / 0x20) % 2 == 1 {                         // (header & 0x20) != 0
      var more :- ReadVarint(64, src, next);
      bits := TLongBits(header, more.value);              // bits |= readVLong() << 5
      next := more.next;
    }
    var l := ZigZagDecode64(bits);
    var unit := TimeUnit(c, header);
    if unit.None? {
      return Err(AssertionError);
    }
    r := Ok(Read(Wrap64(l * unit.value), next));         // l *= UNIT
  }

  /** What `readTLong` returns at a position. */
  function TLongAt(c: TimeConstants, src: seq<uint8>, pos: nat): (r: Result<Read<int64>>)
    requires c.Valid()
    ensures pos < |src| && (src[pos] / 0x20) % 2 == 0 && TimeUnit(c, src[pos]).Some? ==>
      r == Ok(Read(Wrap64(ZigZagDecode(64, src[pos] % 0x20) * TimeUnit(c, src[pos]).value), pos + 1))
    ensures pos < |src| && TimeUnit(c, src[pos]).None? ==> r.Err?
    ensures pos < |src| && (src[pos] / 0x20) % 2 == 1 && TimeUnit(c, src[pos]).Some? ==>
      var more := DecodeVarintFrom(64, src, pos + 1, 0, 0);
      (r.Ok? <==> more.Ok?) &&
      (r.Ok? ==> r.value == Read(Wrap64(ZigZagDecode(64, TLongBits(src[pos], more.value.value))
                                        * TimeUnit(c, src[pos]).value), more.value.next))
    ensures pos >= |src| ==> r == Err(EndOfInput)
  {
    var h :- ReadByte(src, pos);
    var header := h.value;
    var withMore :- if (header / 0x20) % 2 == 1 then
                      var more :- DecodeVarintFrom(64, src, h.next, 0, 0);
                      Ok(Read(TLongBits(header, more.value), more.next))
                    else Ok(Read(header % 0x20, h.next));
    var l := ZigZagDecode64(withMore.value);
    var unit := TimeUnit(c, header);
    if unit.None? then Err(AssertionError) else Ok(Read(Wrap64(l * unit.value), withMore.next))
  }
}
