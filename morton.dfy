/**
 * util/BitUtils interleave, deinterleave and flipFlop: Morton (Z-order)
 * coding of two ints into one long, on bit vectors.  Java's `>>>` on a long
 * is Dafny's `>>` on a bv64.
 */
module Morton {

  const MAGIC0: bv64 := 0x5555_5555_5555_5555
  const MAGIC1: bv64 := 0x3333_3333_3333_3333
  const MAGIC2: bv64 := 0x0F0F_0F0F_0F0F_0F0F
  const MAGIC3: bv64 := 0x00FF_00FF_00FF_00FF
  const MAGIC4: bv64 := 0x0000_FFFF_0000_FFFF
  const MAGIC5: bv64 := 0x0000_0000_FFFF_FFFF
  const MAGIC6: bv64 := 0xAAAA_AAAA_AAAA_AAAA

  /** Spreads the 32 bits of `x` over the even bit positions of a long. */
  function Spread(x: bv32): bv64 {
    var v0 := MAGIC5 & (x as bv64);
    var v1 := (v0 | (v0 << 16)) & MAGIC4;
    var v2 := (v1 | (v1 << 8)) & MAGIC3;
    var v3 := (v2 | (v2 << 4)) & MAGIC2;
    var v4 := (v3 | (v3 << 2)) & MAGIC1;
    (v4 | (v4 << 1)) & MAGIC0
  }

  /** `(v2 << 1) | v1`: even bits from `even`, odd bits from `odd`. */
  function Interleave(even: bv32, odd: bv32): bv64 {
    (Spread(odd) << 1) | Spread(even)
  }

  /** Gathers the even bits of `b` into the low 32 bits. */
  function Deinterleave(b: bv64): bv64 {
    var b1 := b & MAGIC0;
    var b2 := (b1 ^ (b1 >> 1)) & MAGIC1;
    var b3 := (b2 ^ (b2 >> 2)) & MAGIC2;
    var b4 := (b3 ^ (b3 >> 4)) & MAGIC3;
    var b5 := (b4 ^ (b4 >> 8)) & MAGIC4;
    (b5 ^ (b5 >> 16)) & MAGIC5
  }

  /** Swaps every even bit with the odd bit above it. */
  function FlipFlop(b: bv64): bv64 {
    ((b & MAGIC6) >> 1) | ((b & MAGIC0) << 1)
  }

  /** Bit 2k of the interleaving is bit k of `even`; bit 2k+1 is bit k of `odd`. */
  lemma InterleaveBits(even: bv32, odd: bv32, k: bv64)
    requires k < 32
    ensures (Interleave(even, odd) >> (2 * k)) & 1 == ((even as bv64) >> k) & 1
    ensures (Interleave(even, odd) >> (2 * k + 1)) & 1 == ((odd as bv64) >> k) & 1
  {}

  lemma DeinterleaveEven(even: bv32, odd: bv32)
    ensures Deinterleave(Interleave(even, odd)) == even as bv64
  {}

  lemma DeinterleaveOdd(even: bv32, odd: bv32)
    ensures Deinterleave(FlipFlop(Interleave(even, odd))) == odd as bv64
  {}

  lemma FlipFlopInvolution(b: bv64)
    ensures FlipFlop(FlipFlop(b)) == b
  {}

  lemma FlipFlopSwaps(even: bv32, odd: bv32)
    ensures FlipFlop(Interleave(even, odd)) == Interleave(odd, even)
  {}
}
