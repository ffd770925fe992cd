/** The masks and shifts with which src/md5/md5.c counts bits and blocks, and the
    arithmetic on word values that stands for them in Md5Stream. */
module Md5Bits {
  import opened Md5Spec

  /** A word is its high 29 and its low 3 bits. */
  lemma Concat3(high: bv29, low: bv3)
    ensures ((high as bv32 << 3) | low as bv32) as int == 8 * (high as int) + (low as int)
  {
  }

  lemma ShiftLeft3(w: bv32)
    requires w < 0x2000_0000
    ensures (w << 3) as int == 8 * (w as int)
  {
  }

  lemma TopBits(w: bv32)
    ensures (w >> 29) as int == w as int / 0x2000_0000
  {
  }

  lemma SplitTop(w: bv32)
    ensures w as int == 0x2000_0000 * ((w >> 29) as int) + (w & 0x1fff_ffff) as int
  {
  }

  lemma Remainder(w: int, q: int, r: int)
    requires w == 0x2000_0000 * q + r && q == w / 0x2000_0000
    ensures r == w % 0x2000_0000
  {
  }

  lemma LowBits(w: bv32)
    ensures (w & 0x1fff_ffff) as int == w as int % 0x2000_0000
  {
    TopBits(w);
    SplitTop(w);
    Remainder(w as int, (w >> 29) as int, (w & 0x1fff_ffff) as int);
  }

  // ----- the length in bits -----

  /** The low word that md5_finish writes, given md_total[0]. */
  function LowLength(total0: bv32): bv32 {
    (total0 & 0x1fff_ffff) << 3
  }

  /** The high word, given md_total[1] and md_total[0]. */
  function HighLength(total1: bv32, total0: bv32): bv32 {
    (total1 << 3) | ((total0 & 0xe000_0000) >> 29)
  }

  lemma MaskFits(w: bv32)
    ensures w & 0x1fff_ffff < 0x2000_0000
  {
  }

  lemma LowLengthIs(total0: bv32)
    ensures LowLength(total0) as int == total0 as int % 0x2000_0000 * 8
  {
    MaskFits(total0);
    LowBits(total0);
    ShiftLeft3(total0 & 0x1fff_ffff);
  }

  lemma HighLengthParts(total1: bv32, total0: bv32)
    ensures HighLength(total1, total0) ==
            (((total1 & 0x1fff_ffff) as bv29) as bv32 << 3) | ((total0 >> 29) as bv3) as bv32
  {
  }

  lemma Truncate29(w: bv32)
    ensures ((w & 0x1fff_ffff) as bv29) as int == (w & 0x1fff_ffff) as int
  {
  }

  lemma Truncate3(w: bv32)
    ensures ((w >> 29) as bv3) as int == (w >> 29) as int
  {
  }

  lemma Times8(w: int)
    ensures w % 0x2000_0000 * 8 == w * 8 % 0x1_0000_0000
  {
  }

  lemma HighLengthIs(total1: bv32, total0: bv32)
    ensures HighLength(total1, total0) as int == total1 as int * 8 % 0x1_0000_0000 + total0 as int / 0x2000_0000
  {
    hide HighLength;
    HighLengthParts(total1, total0);
    Concat3((total1 & 0x1fff_ffff) as bv29, (total0 >> 29) as bv3);
    Truncate29(total1);
    Truncate3(total0);
    LowBits(total1);
    TopBits(total0);
    Times8(total1 as int);
  }

  lemma LengthValues(total1: bv32, total0: bv32)
    ensures FromBits(LowLength(total0)) == FromBits(total0) % 0x2000_0000 * 8
    ensures FromBits(HighLength(total1, total0)) == FromBits(total1) * 8 % TWO32 + FromBits(total0) / 0x2000_0000
  {
    hide LowLength, HighLength;
    LowLengthIs(total0);
    HighLengthIs(total1, total0);
  }

  // ----- whole blocks -----

  /** Masked with the complement of BLOCK_SIZE_MASK */
  function WholeBits(n: bv32): bv32 {
    n & !63
  }

  /** Masked with BLOCK_SIZE_MASK */
  function RestBits(n: bv32): bv32 {
    n & 63
  }

  function BlockCount(n: bv32): bv26 {
    (n >> 6) as bv26
  }

  function BlockRest(n: bv32): bv6 {
    (n & 63) as bv6
  }

  predicate IsConcat6(n: bv32, high: bv26, low: bv6) {
    n == (high as bv32 << 6) | low as bv32
  }

  lemma Concat6(n: bv32, high: bv26, low: bv6)
    requires IsConcat6(n, high, low)
    ensures n as int == 64 * (high as int) + (low as int)
  {
  }

  lemma BlockParts(n: bv32)
    ensures IsConcat6(n, BlockCount(n), BlockRest(n))
    ensures IsConcat6(WholeBits(n), BlockCount(n), 0)
  {
  }

  lemma BlockRestIs(n: bv32)
    ensures BlockRest(n) as int == RestBits(n) as int
  {
  }

  lemma SmallBits(c: bv6)
    ensures 0 <= c as int < 64
  {
  }

  lemma Quotient(n: int, q: int, r: int)
    requires n == 64 * q + r && 0 <= r < 64
    ensures 64 * q == n / 64 * 64 && r == n % 64
  {
  }

  /** Masking with BLOCK_SIZE_MASK and its complement cuts a length into whole blocks
      and the rest. */
  lemma BlockMask(n: bv32)
    ensures WholeBits(n) as int == n as int / 64 * 64
    ensures RestBits(n) as int == n as int % 64
  {
    hide WholeBits, RestBits, BlockCount, BlockRest, IsConcat6;
    BlockParts(n);
    Concat6(n, BlockCount(n), BlockRest(n));
    Concat6(WholeBits(n), BlockCount(n), 0);
    BlockRestIs(n);
    SmallBits(BlockRest(n));
    Quotient(n as int, BlockCount(n) as int, RestBits(n) as int);
  }
}
