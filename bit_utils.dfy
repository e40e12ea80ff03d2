/**
 * util/BitUtils: zig-zag coding, next power of two, Morton interleaving and
 * the little/big-endian byte views of the VarHandle helpers.
 *
 * Zig-zag coding is stated on integers (the xor with the sign mask `i >> 31`,
 * which is 0 or -1, is the identity or the bitwise complement -x-1).  The
 * other bit tricks are stated on bit vectors, where Java's arithmetic `>>`
 * is `Sar` and its logical `>>>` is Dafny's `>>`.
 */
module BitUtils {
  import opened Java

  // ---------------------------------------------------------------------
  // VarHandle byte views: an int/long stored as little- or big-endian bytes.

  /** The `n` bytes of `x` in little-endian order (a little-endian `set`). */
  function LittleEndianBytes(x: int, n: nat): (r: seq<uint8>)
    ensures |r| == n
    decreases n
  {
    if n == 0 then [] else [LowByte(x)] + LittleEndianBytes(x / 0x100, n - 1)
  }

  /** The unsigned value of little-endian bytes (a little-endian `get`, read as unsigned). */
  function LittleEndianValue(s: seq<uint8>): nat {
    if s == [] then 0 else s[0] + 0x100 * LittleEndianValue(s[1..])
  }


  /** Little-endian bytes read back as the low `8n` bits of the value. */
  lemma {:induction false} LittleEndianBytesValue(x: int, n: nat)
    ensures LittleEndianValue(LittleEndianBytes(x, n)) == x % Pow2(8 * n)
    decreases n
  {
    if n > 0 {
      var q, m := x / 0x100, Pow2(8 * (n - 1));
      LittleEndianBytesValue(q, n - 1);
      assert LittleEndianBytes(x, n)[1..] == LittleEndianBytes(q, n - 1);
      Pow2Add(8, 8 * (n - 1));
      assert Pow2(8) == 0x100 by { Pow2Seven(); assert Pow2(8) == 2 * Pow2(7); }
      PlaceByte(x, q, m);
    }
  }

  /** The low byte below the low bits of the quotient are the low bits of the value. */
  lemma PlaceByte(x: int, q: int, m: nat)
    requires m >= 1 && q == x / 0x100
    ensures x % 0x100 + 0x100 * (q % m) == x % (0x100 * m)
  {
    var lo := x % 0x100 + 0x100 * (q % m);
    assert q == m * (q / m) + q % m;
    assert x == (0x100 * m) * (q / m) + lo by {
      assert x == 0x100 * q + x % 0x100;
      assert 0x100 * q == 0x100 * (m * (q / m)) + 0x100 * (q % m);
    }
    MulMono(0x100, q % m, m - 1);
    DivUnique(x, 0x100 * m, q / m, lo);
  }

  /** The unsigned value of big-endian bytes (a big-endian `get`, read as unsigned). */
  function BigEndianValue(s: seq<uint8>): nat {
    if s == [] then 0 else BigEndianValue(s[..|s| - 1]) * 0x100 + s[|s| - 1]
  }

  /** Big-endian order is little-endian order reversed. */
  function Reverse(s: seq<uint8>): (r: seq<uint8>)
    ensures |r| == |s|
  {
    if s == [] then [] else Reverse(s[1..]) + [s[0]]
  }

  lemma {:induction false} BigEndianOfReverse(s: seq<uint8>)
    ensures BigEndianValue(Reverse(s)) == LittleEndianValue(s)
  {
    if s != [] {
      var r := Reverse(s);
      assert r[..|r| - 1] == Reverse(s[1..]);
      BigEndianOfReverse(s[1..]);
    }
  }

  // ---------------------------------------------------------------------
  // Zig-zag coding (zigZagEncode / zigZagDecode, int and long versions).

  /** `(i >> (w-1)) ^ (i << 1)`: the sign mask is 0 or -1, and xor with -1 is complement. */
  function ZigZagEncode(w: Width, i: int): (r: int)
    requires InRange(w, i)
    ensures InRange(w, r)
  {
    var signMask := if i < 0 then -1 else 0;       // i >> (w - 1)
    var shifted := Wrap(w, 2 * i);                  // i << 1
    if signMask == 0 then shifted else -shifted - 1
  }

  /** `(i >>> 1) ^ -(i & 1)`: -(i & 1) is 0 or -1 again. */
  function ZigZagDecode(w: Width, i: int): (r: int)
    requires InRange(w, i)
    ensures InRange(w, r)
  {
    var half := Unsigned(w, i) / 2;                 // i >>> 1
    var lowBit := i % 2;                            // i & 1
    if lowBit == 0 then half else -half - 1
  }

  /** Wrapping a value that is at most one modulus out of range. */
  lemma WrapNear(w: Width, x: int)
    requires -(Modulus(w) as int) <= x < Modulus(w)
    ensures Wrap(w, x) == if x >= Modulus(w) / 2 then x - Modulus(w)
                          else if x < -(Modulus(w) / 2) then x + Modulus(w) else x
  {
    if w == 32 {} else {}
  }

  lemma UnsignedNear(w: Width, x: int)
    requires InRange(w, x)
    ensures Unsigned(w, x) == if x < 0 then x + Modulus(w) else x
  {
    if w == 32 {} else {}
  }

  /** The code of `i`, read as unsigned: non-negative values go to even codes,
    * negative values to odd codes, interleaved by magnitude. */
  lemma ZigZagValue(w: Width, i: int)
    requires InRange(w, i)
    ensures Unsigned(w, ZigZagEncode(w, i)) == if i >= 0 then 2 * i else -2 * i - 1
  {
    WrapNear(w, 2 * i);
    UnsignedNear(w, ZigZagEncode(w, i));
  }

  /** The low bit of a value and of its unsigned reading agree (the modulus is even). */
  lemma UnsignedParity(w: Width, x: int)
    requires InRange(w, x)
    ensures Unsigned(w, x) % 2 == x % 2
  {
    UnsignedNear(w, x);
    if w == 32 {} else {}
  }

  lemma ZigZagRoundTrip(w: Width, i: int)
    requires InRange(w, i)
    ensures ZigZagDecode(w, ZigZagEncode(w, i)) == i
  {
    var e := ZigZagEncode(w, i);
    ZigZagValue(w, i);
    UnsignedParity(w, e);
    var u := Unsigned(w, e);
    if i >= 0 {
      assert u == 2 * i && u % 2 == 0 && u / 2 == i;
    } else {
      assert u == -2 * i - 1 && u % 2 == 1 && u / 2 == -i - 1;
    }
  }

  lemma ZigZagDecodeEncode(w: Width, u: int)
    requires InRange(w, u)
    ensures ZigZagEncode(w, ZigZagDecode(w, u)) == u
  {
    var d := ZigZagDecode(w, u);
    var uu: int := Unsigned(w, u);
    UnsignedParity(w, u);
    ZigZagValue(w, d);
    if u % 2 == 0 {
      assert d == uu / 2 && d >= 0 && 2 * d == uu;
    } else {
      assert d == -(uu / 2) - 1 && d < 0 && -2 * d - 1 == uu;
    }
    var e := ZigZagEncode(w, d);
    assert Unsigned(w, e) == uu;
    UnsignedNear(w, e);
    UnsignedNear(w, u);
  }

  /** A value whose magnitude fits in n bits has a code that fits in n+1 bits. */
  lemma ZigZagSmall(w: Width, i: int, n: nat)
    requires InRange(w, i) && -(Pow2(n) as int) <= i < Pow2(n)
    ensures Unsigned(w, ZigZagEncode(w, i)) < Pow2(n + 1)
  {
    ZigZagValue(w, i);
  }

  function ZigZagEncode32(i: int32): int32 { ZigZagEncode(32, i) }
  function ZigZagDecode32(i: int32): int32 { ZigZagDecode(32, i) }
  function ZigZagEncode64(i: int64): int64 { ZigZagEncode(64, i) }
  function ZigZagDecode64(i: int64): int64 { ZigZagDecode(64, i) }
}
