/**
  The 64-bit free-list head word of both tables: the top slot index in the low
  32 bits and a generation counter in the high 32 bits.

  Words are natural numbers below 2^64. Masking with 0xFFFFFFFF is `% 2^32`,
  shifting right by 32 is `/ 2^32`. Shifting a 64-bit size_t counter left by
  32 keeps only its low 32 bits: `(ctr % 2^32) * 2^32`.
 */
module Packing {
  const TWO_32: nat := 0x1_0000_0000
  const TWO_64: nat := 0x1_0000_0000_0000_0000

  /** An unsigned 64-bit word. */
  type Word64 = w: nat | w < TWO_64

  /** `(uint64_t(ctr) << 32) | idx`. The index fits the low half, so the OR
      with the zero low half of the shifted counter is an addition. A counter
      that has reached 2^32 wraps to 0. */
  function Pack(idx: nat, ctr: nat): (w: Word64)
    requires idx < TWO_32
    ensures Unpack(w) == (idx, ctr % TWO_32)
  {
    (ctr % TWO_32) * TWO_32 + idx
  }

  /** `(v & 0xFFFFFFFF, v >> 32)`: the (index, counter) pair held by a word. */
  function Unpack(w: Word64): (r: (nat, nat))
    ensures r.0 < TWO_32 && r.1 < TWO_32
  {
    (w % TWO_32, w / TWO_32)
  }

  /** Every head word is the packing of what it unpacks to. */
  lemma UnpackPack(w: Word64)
    ensures Pack(Unpack(w).0, Unpack(w).1) == w
  {
  }

  /** The counter has 32 bits: raising it by 2^32 with the index kept gives
      back the same word, so a compare-and-set that read the head 2^32 updates
      earlier at the same index succeeds. */
  lemma CounterWraps(idx: nat, ctr: nat)
    requires idx < TWO_32
    ensures Pack(idx, ctr + TWO_32) == Pack(idx, ctr)
  {
  }

  /** Bumping the generation while keeping the index changes the word: a
      compare-and-set against the old word cannot succeed on the new one. */
  lemma BumpChangesWord(idx: nat, ctr: nat)
    requires idx < TWO_32 && ctr < TWO_32
    ensures Pack(idx, ctr + 1) != Pack(idx, ctr)
  {
  }
}
