/**
 * misc_stuff/src/bit.rs: clearing, setting and flipping one bit of a 32-bit word. The bit
 * index is a `u32` like the word; the shift `1 << i` is only defined for `i < 32`, which
 * every function requires of its caller.
 */
module Bit {
  /** Bit `j` of `n` is one. */
  predicate IsSet(n: bv32, j: bv32)
    requires j < 32
  {
    (n >> j) & 1 == 1
  }

  /** `zero_bit`: `n` with bit `i` cleared. */
  function ZeroBit(n: bv32, i: bv32): (r: bv32)
    requires i < 32
    ensures !IsSet(r, i)
  {
    n & !(1 << i)
  }

  /** `one_bit`: `n` with bit `i` set. */
  function OneBit(n: bv32, i: bv32): (r: bv32)
    requires i < 32
    ensures IsSet(r, i)
  {
    n | (1 << i)
  }

  /** `swap_bit`: `n` with bit `i` flipped. */
  function SwapBit(n: bv32, i: bv32): (r: bv32)
    requires i < 32
    ensures IsSet(r, i) <==> !IsSet(n, i)
  {
    n ^ (1 << i)
  }

  /** Words that agree outside bit `i` agree on every bit `j` other than `i`. */
  lemma AgreeOutside(a: bv32, b: bv32, i: bv32, j: bv32)
    requires i < 32 && j < 32 && j != i
    requires a & !(1 << i) == b & !(1 << i)
    ensures IsSet(a, j) <==> IsSet(b, j)
  {
  }

  /** Clearing bit `i` leaves every other bit as it was: outside bit `i` the words agree. */
  lemma ZeroBitKeepsOthers(n: bv32, i: bv32)
    requires i < 32
    ensures ZeroBit(n, i) & !(1 << i) == n & !(1 << i)
  {
  }

  /** Setting bit `i` leaves every other bit as it was: outside bit `i` the words agree. */
  lemma OneBitKeepsOthers(n: bv32, i: bv32)
    requires i < 32
    ensures OneBit(n, i) & !(1 << i) == n & !(1 << i)
  {
  }

  /** Flipping bit `i` leaves every other bit as it was: outside bit `i` the words agree. */
  lemma SwapBitKeepsOthers(n: bv32, i: bv32)
    requires i < 32
    ensures SwapBit(n, i) & !(1 << i) == n & !(1 << i)
  {
  }

  /** Flipping the same bit twice gives the word back. */
  lemma SwapBitTwice(n: bv32, i: bv32)
    requires i < 32
    ensures SwapBit(SwapBit(n, i), i) == n
  {
  }

  /** Clearing a cleared bit, or setting a set one, changes nothing. */
  lemma ZeroOneIdempotent(n: bv32, i: bv32)
    requires i < 32
    ensures ZeroBit(ZeroBit(n, i), i) == ZeroBit(n, i)
    ensures OneBit(OneBit(n, i), i) == OneBit(n, i)
  {
  }

  /** Clearing a bit forgets whether it had been set. */
  lemma ZeroAfterOne(n: bv32, i: bv32)
    requires i < 32
    ensures ZeroBit(OneBit(n, i), i) == ZeroBit(n, i)
  {
  }

  /** Concrete values: clearing bit 7 removes it; bit 8 is already clear, so nothing changes. */
  lemma ZeroBitExamples()
    ensures ZeroBit(0x0230_0080, 7) == 0x0230_0000
    ensures ZeroBit(0x0230_0080, 8) == 0x0230_0080
  {
  }
}
