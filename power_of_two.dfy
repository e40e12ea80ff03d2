/**
 * util/BitUtils nextHighestPowerOfTwo, int and long versions, on the bits of
 * the argument.  Java's arithmetic `>>` is `Sar`; Dafny's `>>` is `>>>`.
 */
module PowerOfTwo {
  const SIGN32: bv32 := 0x8000_0000
  const SIGN64: bv64 := 0x8000_0000_0000_0000

  /** Java's arithmetic right shift `>>` on an int. */
  function Sar32(x: bv32, k: bv32): bv32
    requires k < 32
  {
    if x & SIGN32 == 0 then x >> k else !((!x) >> k)
  }

  function Sar64(x: bv64, k: bv64): bv64
    requires k < 64
  {
    if x & SIGN64 == 0 then x >> k else !((!x) >> k)
  }

  function Smear32(v: bv32): bv32 {
    var v1 := v | Sar32(v, 1);
    var v2 := v1 | Sar32(v1, 2);
    var v3 := v2 | Sar32(v2, 4);
    var v4 := v3 | Sar32(v3, 8);
    v4 | Sar32(v4, 16)
  }

  function Smear64(v: bv64): bv64 {
    var v1 := v | Sar64(v, 1);
    var v2 := v1 | Sar64(v1, 2);
    var v3 := v2 | Sar64(v2, 4);
    var v4 := v3 | Sar64(v3, 8);
    var v5 := v4 | Sar64(v4, 16);
    v5 | Sar64(v5, 32)
  }

  /** `v--; v |= v >> 1; ... v |= v >> 16; v++` on the bits of a Java int. */
  function NextHighestPowerOfTwo32(v: bv32): bv32 {
    Smear32(v - 1) + 1
  }

  function NextHighestPowerOfTwo64(v: bv64): bv64 {
    Smear64(v - 1) + 1
  }

  /** For a positive int the result is the least power of two (as an unsigned
    * bit pattern) that is at least `v`; above 2^30 that is 2^31, Integer.MIN_VALUE. */
  lemma NextHighestPowerOfTwo32Positive(v: bv32)
    requires v != 0 && v & SIGN32 == 0
    ensures var r := NextHighestPowerOfTwo32(v);
      r != 0 && r & (r - 1) == 0 && v <= r && (r >> 1) < v
  {}

  /** Zero and negative ints give 0, except Integer.MIN_VALUE, which gives itself. */
  lemma NextHighestPowerOfTwo32NonPositive(v: bv32)
    requires v == 0 || v & SIGN32 != 0
    ensures NextHighestPowerOfTwo32(v) == if v == SIGN32 then SIGN32 else 0
  {}

  /** For a long with the sign bit clear, the smear is a run of low ones that covers it. */
  lemma SmearMask64(u: bv64)
    requires u & SIGN64 == 0
    ensures Smear64(u) & (Smear64(u) + 1) == 0
  {}

  lemma SmearCovers64(u: bv64)
    requires u & SIGN64 == 0
    ensures u & !Smear64(u) == 0 && Smear64(u) & SIGN64 == 0
  {}

  /** One more than a run of low ones, below the sign bit, is a nonzero power of two. */
  lemma MaskSuccessor64(s: bv64)
    requires s & (s + 1) == 0 && s & SIGN64 == 0
    ensures s + 1 != 0 && (s + 1) & ((s + 1) - 1) == 0
  {}

  /** For a positive long the result is a nonzero power of two. */
  lemma NextHighestPowerOfTwo64IsPower(v: bv64)
    requires v != 0 && v & SIGN64 == 0
    ensures NextHighestPowerOfTwo64(v) != 0
    ensures NextHighestPowerOfTwo64(v) & (NextHighestPowerOfTwo64(v) - 1) == 0
  {
    var u := v - 1;
    assert u & SIGN64 == 0;
    SmearMask64(u);
    SmearCovers64(u);
    MaskSuccessor64(Smear64(u));
  }

  /** Every bit of `v - 1` lies below the result (with CoveringPowerAtLeast: the result is at least `v`). */
  lemma NextHighestPowerOfTwo64Covers(v: bv64)
    requires v != 0 && v & SIGN64 == 0
    ensures (v - 1) & !(NextHighestPowerOfTwo64(v) - 1) == 0
  {
    var u := v - 1;
    assert u & SIGN64 == 0;
    SmearCovers64(u);
  }

  /** A power of two whose low ones cover the bits of `v - 1` is at least `v`. */
  lemma CoveringPowerAtLeast(v: bv64, r: bv64)
    requires v != 0 && r != 0 && r & (r - 1) == 0 && (v - 1) & !(r - 1) == 0
    ensures v <= r
  {}

  /** The bit just above the smear's run of ones, shifted down by one, is a bit of `u`. */
  lemma SmearTop64(u: bv64)
    requires u & SIGN64 == 0
    ensures ((Smear64(u) + 1) >> 1) & !u == 0
  {}

  /** A pattern whose bits all lie in `u` is at most `u`. */
  lemma ContainedAtMost(a: bv64, u: bv64)
    requires a & !u == 0
    ensures a <= u
  {}

  /** For a positive long, half the result is a bit of `v - 1`. */
  lemma NextHighestPowerOfTwo64HalfBit(v: bv64)
    requires v != 0 && v & SIGN64 == 0
    ensures (NextHighestPowerOfTwo64(v) >> 1) & !(v - 1) == 0
  {
    var u := v - 1;
    assert u & SIGN64 == 0;
    SmearTop64(u);
  }

  /**
   * For a positive long half the result is at most `v - 1`, so below `v`:
   * no smaller power of two is at least `v`, and the result is the least one.
   */
  lemma NextHighestPowerOfTwo64Least(v: bv64)
    requires v != 0 && v & SIGN64 == 0
    ensures NextHighestPowerOfTwo64(v) >> 1 <= v - 1
  {
    NextHighestPowerOfTwo64HalfBit(v);
    ContainedAtMost(NextHighestPowerOfTwo64(v) >> 1, v - 1);
  }

  /**
   * For a positive long the result is the least power of two that is at
   * least `v`: a power of two whose low ones cover `v - 1` (so at least `v`,
   * by CoveringPowerAtLeast), and whose half is at most `v - 1`.
   */
  lemma NextHighestPowerOfTwo64Positive(v: bv64)
    requires v != 0 && v & SIGN64 == 0
    ensures NextHighestPowerOfTwo64(v) != 0
    ensures NextHighestPowerOfTwo64(v) & (NextHighestPowerOfTwo64(v) - 1) == 0
    ensures (v - 1) & !(NextHighestPowerOfTwo64(v) - 1) == 0
    ensures NextHighestPowerOfTwo64(v) >> 1 <= v - 1
  {
    NextHighestPowerOfTwo64IsPower(v);
    NextHighestPowerOfTwo64Covers(v);
    NextHighestPowerOfTwo64Least(v);
  }

  lemma NextHighestPowerOfTwo64NonPositive(v: bv64)
    requires v == 0 || v & SIGN64 != 0
    ensures NextHighestPowerOfTwo64(v) == if v == SIGN64 then SIGN64 else 0
  {}
}
