/**
 * Java primitive types and the few bit-level operations on them that the
 * model needs, stated on mathematical integers.
 *
 * A Java `byte` is represented by its bit pattern as an unsigned value
 * 0..255 (`uint8`); a Java `int` or `long` by its signed value.  Every
 * place where Java truncates (a narrowing cast, a wrapping multiplication,
 * a left shift) calls one of the `Wrap` functions explicitly.
 */
module Java {

  const TWO_7: int := 0x80
  const TWO_8: int := 0x100
  const TWO_15: int := 0x8000
  const TWO_16: int := 0x1_0000
  const TWO_24: int := 0x100_0000
  const TWO_31: int := 0x8000_0000
  const TWO_32: int := 0x1_0000_0000
  const TWO_56: int := 0x100_0000_0000_0000
  const TWO_63: int := 0x8000_0000_0000_0000
  const TWO_64: int := 0x1_0000_0000_0000_0000

  /** The bit pattern of a Java byte. */
  type uint8 = x: int | 0 <= x < 0x100
  type int16 = x: int | -0x8000 <= x < 0x8000
  type int32 = x: int | -0x8000_0000 <= x < 0x8000_0000
  type int64 = x: int | -0x8000_0000_0000_0000 <= x < 0x8000_0000_0000_0000

  /** The widths for which the source has an `int` and a `long` version of an operation. */
  type Width = w: nat | w == 32 || w == 64 witness 32

  function Modulus(w: Width): (m: nat)
    ensures m == if w == 32 then TWO_32 else TWO_64
  {
    if w == 32 then TWO_32 else TWO_64
  }

  predicate InRange(w: Width, x: int) {
    if w == 32 then -TWO_31 <= x < TWO_31 else -TWO_63 <= x < TWO_63
  }

  /** Two's-complement truncation to `w` bits: the `(int)` / `(long)` cast, and
    * the result of every wrapping arithmetic operation. */
  function Wrap(w: Width, x: int): (r: int)
    ensures InRange(w, r)
    ensures InRange(w, x) ==> r == x
  {
    if w == 32 then (x + TWO_31) % TWO_32 - TWO_31
    else (x + TWO_63) % TWO_64 - TWO_63
  }

  /** The value of a `w`-bit pattern read as unsigned (`x & 0xFFFFFFFFL`,
    * `Integer.toUnsignedLong`, `Long.compareUnsigned`). */
  function Unsigned(w: Width, x: int): (u: nat)
    ensures u < Modulus(w)
  {
    if w == 32 then x % TWO_32 else x % TWO_64
  }

  function Wrap32(x: int): int32 { Wrap(32, x) }
  function Wrap64(x: int): int64 { Wrap(64, x) }

  function Wrap16(x: int): (r: int16)
    ensures (r - x) % TWO_16 == 0
  {
    (x + TWO_15) % TWO_16 - TWO_15
  }

  /** The low eight bits of a value: the `(byte)` cast, as a bit pattern. */
  function LowByte(x: int): uint8 { x % 0x100 }

  function Pow2(k: nat): (p: nat)
    ensures p >= 1
  {
    if k == 0 then 1 else 2 * Pow2(k - 1)
  }

  lemma {:induction false} Pow2Add(a: nat, b: nat)
    ensures Pow2(a + b) == Pow2(a) * Pow2(b)
  {
    if b > 0 {
      Pow2Add(a, b - 1);
      assert Pow2(a + b) == 2 * Pow2(a + b - 1);
    }
  }

  lemma {:induction false} Pow2Monotone(a: nat, b: nat)
    requires a <= b
    ensures Pow2(a) <= Pow2(b)
  {
    if a < b {
      Pow2Monotone(a, b - 1);
    }
  }

  lemma Pow2Seven()
    ensures Pow2(7) == 0x80
  {
    assert Pow2(1) == 2 && Pow2(2) == 4 && Pow2(3) == 8 && Pow2(4) == 16;
    assert Pow2(5) == 32 && Pow2(6) == 64;
  }

  /** The powers of two at the 7-bit group boundaries of a variable-length integer. */
  lemma Pow2Groups()
    ensures Pow2(0) == 1 && Pow2(7) == 0x80 && Pow2(14) == 0x4000
    ensures Pow2(21) == 0x20_0000 && Pow2(28) == 0x1000_0000
  {
    Pow2Seven();
    Pow2Add(7, 7);
    Pow2Add(14, 7);
    Pow2Add(21, 7);
  }

  lemma Pow2Widths()
    ensures Pow2(32) == TWO_32 && Pow2(64) == TWO_64
  {
    Pow2Groups();
    assert Pow2(32) == TWO_32 by {
      assert Pow2(29) == 2 * Pow2(28) && Pow2(30) == 2 * Pow2(29);
      assert Pow2(31) == 2 * Pow2(30) && Pow2(32) == 2 * Pow2(31);
    }
    Pow2Add(32, 32);
  }

  /**
   * Bitwise OR of two non-negative values, bit by bit from the least
   * significant.  Used where the source ORs fields that may overlap.
   */
  function BitOr(a: nat, b: nat): (r: nat)
    decreases a + b
  {
    if a == 0 then b
    else if b == 0 then a
    else 2 * BitOr(a / 2, b / 2) + (if a % 2 == 1 || b % 2 == 1 then 1 else 0)
  }

  /** OR-ing a value below 2^k into a multiple of 2^k is addition. */
  lemma {:induction false} BitOrDisjoint(a: nat, c: nat, k: nat)
    requires a < Pow2(k)
    ensures BitOr(a, Pow2(k) * c) == a + Pow2(k) * c
  {
    var b := Pow2(k) * c;
    if a != 0 && b != 0 {
      var p := Pow2(k - 1);
      var t := p * c;
      assert b == 2 * t;
      BitOrDisjoint(a / 2, c, k - 1);
    }
  }

  /** OR never leaves the common width of its operands. */
  lemma {:induction false} BitOrBound(a: nat, b: nat, k: nat)
    requires a < Pow2(k) && b < Pow2(k)
    ensures BitOr(a, b) < Pow2(k)
  {
    if a != 0 && b != 0 {
      assert k > 0 && Pow2(k) == 2 * Pow2(k - 1);
      BitOrBound(a / 2, b / 2, k - 1);
    }
  }

  /** Bitwise AND of two non-negative values, bit by bit from the least significant. */
  function BitAnd(a: nat, b: nat): (r: nat)
    ensures r <= a && r <= b
    decreases a + b
  {
    if a == 0 || b == 0 then 0
    else 2 * BitAnd(a / 2, b / 2) + (if a % 2 == 1 && b % 2 == 1 then 1 else 0)
  }

  /** The shift distance Java uses for a `w`-bit value: the low 5 or 6 bits of `k`. */
  function ShiftDistance(w: Width, k: int): (d: nat)
    ensures d < w && (0 <= k < w ==> d == k)
  {
    if w == 32 then k % 32 else k % 64
  }

  lemma ModulusPow2(w: Width)
    ensures Modulus(w) == Pow2(w)
  {
    Pow2Widths();
  }

  /** Reading a pattern as unsigned and truncating it back gives the value again. */
  lemma WrapUnsigned(w: Width, x: int)
    requires InRange(w, x)
    ensures Wrap(w, Unsigned(w, x)) == x
  {
    if w == 32 {} else {}
  }

  lemma UnsignedSmall(w: Width, x: int)
    requires 0 <= x < Modulus(w)
    ensures Unsigned(w, x) == x
  {
    if w == 32 {} else {}
  }

  /** A value that fits in `w` bits is its own unsigned reading once truncated. */
  lemma UnsignedWrap(w: Width, x: int)
    requires 0 <= x < Modulus(w)
    ensures Unsigned(w, Wrap(w, x)) == x
  {
    if w == 32 {} else {}
  }

  /** Truncating first does not change the unsigned reading. */
  lemma UnsignedOfWrap(w: Width, x: int)
    ensures Unsigned(w, Wrap(w, x)) == Unsigned(w, x)
  {
    var m := Modulus(w);
    var h := m / 2;
    assert h == if w == 32 then TWO_31 else TWO_63;
    var k := (x + h) / m;
    assert Wrap(w, x) == x - m * k;
    ModMultiple(x, m, k);
  }

  /** Subtracting a multiple of `m` keeps the remainder. */
  lemma ModMultiple(x: int, m: int, k: int)
    requires m > 0
    ensures (x - m * k) % m == x % m
  {
    assert x - m * k == m * (x / m - k) + x % m;
    DivUnique(x - m * k, m, x / m - k, x % m);
  }

  /** Division has one quotient and remainder. */
  lemma DivUnique(u: int, d: int, q: int, r: int)
    requires d > 0 && u == d * q + r && 0 <= r < d
    ensures u / d == q && u % d == r
  {
    var q', r' := u / d, u % d;
    assert d * q' + r' == d * q + r;
    if q' < q {
      MulAtLeast(d, q - q');
    } else if q < q' {
      MulAtLeast(d, q' - q);
    }
  }

  lemma MulAtLeast(d: int, n: int)
    requires d > 0 && n >= 1
    ensures d * n >= d
  {
  }

  lemma DivDiv(u: int, a: int, b: int)
    requires a > 0 && b > 0
    ensures u / a / b == u / (a * b)
  {
    var q1, r1 := u / a, u % a;
    var q2, r2 := q1 / b, q1 % b;
    assert u == a * q1 + r1;
    assert q1 == b * q2 + r2;
    assert a * q1 == (a * b) * q2 + a * r2;
    assert a * r2 + r1 < a * b by {
      MulAtLeast(a, b - r2);
      assert a * (b - r2) == a * b - a * r2;
    }
    assert 0 <= a * r2;
    DivUnique(u, a * b, q2, a * r2 + r1);
  }

  lemma MulMono(a: nat, b: nat, c: nat)
    requires b <= c
    ensures a * b <= a * c
  {
  }

  /** The exceptions (and the one `Error`) that the modelled code throws. */
  datatype Exception =
    | EndOfInput              // the abstract byte source has no more bytes
    | IOException             // malformed variable-length integer
    | IllegalArgumentException
    | IllegalStateException
    | NumberFormatException
    | IndexOutOfBoundsException
    | NegativeArraySizeException
    | AssertionError          // java.lang.AssertionError, an Error and not an Exception

  /** Whether `catch (Exception e)` catches it. */
  predicate IsException(e: Exception) {
    e != AssertionError
  }

  datatype Result<T> = Ok(value: T) | Err(error: Exception) {
    predicate IsFailure() { this.Err? }
    function PropagateFailure<U>(): Result<U>
      requires IsFailure()
    {
      Err(this.error)
    }
    function Extract(): T
      requires !IsFailure()
    {
      this.value
    }
  }

  /** The outcome of a `void` method: it returned normally or threw. */
  datatype Outcome = Normal | Thrown(error: Exception)

  datatype Option<T> = None | Some(value: T)
}
