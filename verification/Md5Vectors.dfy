/** Values that RFC 1321 gives in digits: the byte order of words, the start value of
    section 3.3 and the digest of "abc" in appendix A.5, evaluated step by step. */
module Md5Vectors {
  import opened Md5Spec
  import opened Md5Stream

  // ----- byte order -----

  lemma LowBytesCons(b: Byte, v: nat, n: nat)
    ensures LowBytes(b as int + 256 * v, n + 1) == [b] + LowBytes(v, n)
  {
    Is256(b as int + 256 * v, v, b as int);
  }

  lemma NoLowBytes(v: nat)
    ensures LowBytes(v, 0) == []
  {
  }

  /** Words are read and written in the same order: the bytes of a word are those it was
      made of. */
  lemma BytesOfWord(b0: Byte, b1: Byte, b2: Byte, b3: Byte)
    ensures LowBytes(LittleEndian(b0, b1, b2, b3), 4) == [b0, b1, b2, b3]
  {
    hide LowBytes;
    var v3 := b3 as int;
    var v2 := b2 as int + 256 * v3;
    var v1 := b1 as int + 256 * v2;
    LowBytesCons(b0, v1, 3);
    LowBytesCons(b1, v2, 2);
    LowBytesCons(b2, v3, 1);
    LowBytesCons(b3, 0, 0);
    NoLowBytes(0);
  }

  lemma WordOfBytes(w: Word, b0: Byte, b1: Byte, b2: Byte, b3: Byte)
    requires w == LittleEndian(b0, b1, b2, b3)
    ensures LowBytes(w, 4) == [b0, b1, b2, b3]
  {
    hide LowBytes, LittleEndian;
    BytesOfWord(b0, b1, b2, b3);
  }

  /** The start value, byte by byte as section 3.3 lists it. */
  lemma StartValue()
    ensures Output(INITIAL) == [0x01, 0x23, 0x45, 0x67, 0x89, 0xab, 0xcd, 0xef,
                                0xfe, 0xdc, 0xba, 0x98, 0x76, 0x54, 0x32, 0x10]
  {
    hide LowBytes;
    WordOfBytes(INITIAL.a, 0x01, 0x23, 0x45, 0x67);
    WordOfBytes(INITIAL.b, 0x89, 0xab, 0xcd, 0xef);
    WordOfBytes(INITIAL.c, 0xfe, 0xdc, 0xba, 0x98);
    WordOfBytes(INITIAL.d, 0x76, 0x54, 0x32, 0x10);
  }

  /** The words of a block, written one behind the other, are the block. */
  lemma WordsOfBlock(block: seq<Byte>, j: nat)
    requires |block| == 64 && j < 16
    ensures LowBytes(Words(block)[j], 4) == block[4 * j..4 * j + 4]
  {
    hide LowBytes, LittleEndian;
    BytesOfWord(block[4 * j], block[4 * j + 1], block[4 * j + 2], block[4 * j + 3]);
  }

  // ----- section 3.4: the order of the words, and the addition at its end -----

  /** The words that rounds 2 to 4 name, line by line. */
  lemma WordOrder()
    ensures WordIndex(16) == 1 && WordIndex(17) == 6 && WordIndex(18) == 11 && WordIndex(19) == 0
    ensures WordIndex(20) == 5 && WordIndex(21) == 10 && WordIndex(22) == 15 && WordIndex(23) == 4
    ensures WordIndex(24) == 9 && WordIndex(25) == 14 && WordIndex(26) == 3 && WordIndex(27) == 8
    ensures WordIndex(28) == 13 && WordIndex(29) == 2 && WordIndex(30) == 7 && WordIndex(31) == 12
    ensures WordIndex(32) == 5 && WordIndex(33) == 8 && WordIndex(34) == 11 && WordIndex(35) == 14
    ensures WordIndex(36) == 1 && WordIndex(37) == 4 && WordIndex(38) == 7 && WordIndex(39) == 10
    ensures WordIndex(40) == 13 && WordIndex(41) == 0 && WordIndex(42) == 3 && WordIndex(43) == 6
    ensures WordIndex(44) == 9 && WordIndex(45) == 12 && WordIndex(46) == 15 && WordIndex(47) == 2
    ensures WordIndex(48) == 0 && WordIndex(49) == 7 && WordIndex(50) == 14 && WordIndex(51) == 5
    ensures WordIndex(52) == 12 && WordIndex(53) == 3 && WordIndex(54) == 10 && WordIndex(55) == 1
    ensures WordIndex(56) == 8 && WordIndex(57) == 15 && WordIndex(58) == 6 && WordIndex(59) == 13
    ensures WordIndex(60) == 4 && WordIndex(61) == 11 && WordIndex(62) == 2 && WordIndex(63) == 9
  {
  }

  /** What a block adds to each register is the outcome of its 64 steps. */
  lemma AddedByBlock(r: Regs, block: seq<Byte>)
    requires |block| == 64
    ensures var now, s := Compress(r, block), Steps(r, Words(block), 64);
      && (now.a - r.a - s.a) % 0x1_0000_0000 == 0 && (now.b - r.b - s.b) % 0x1_0000_0000 == 0
      && (now.c - r.c - s.c) % 0x1_0000_0000 == 0 && (now.d - r.d - s.d) % 0x1_0000_0000 == 0
  {
    hide Steps, Words;
  }

  // ----- one step on given bits -----

  function MixBits(i: nat, x: bv32, y: bv32, z: bv32): bv32 {
    if i < 16 then SelectBits(x, y, z)
    else if i < 32 then SelectByLastBits(x, y, z)
    else if i < 48 then ParityBits(x, y, z)
    else OrNotBits(x, y, z)
  }

  lemma BitsBack(b: bv32)
    ensures ToBits(FromBits(b)) == b
  {
  }

  lemma MixOfBits(i: nat, x: bv32, y: bv32, z: bv32)
    requires i < 64
    ensures Mix(i, FromBits(x), FromBits(y), FromBits(z)) == FromBits(MixBits(i, x, y, z))
  {
    hide FromBits, ToBits, SelectBits, SelectByLastBits, ParityBits, OrNotBits;
    BitsBack(x);
    BitsBack(y);
    BitsBack(z);
  }

  function RegsOf(a: bv32, b: bv32, c: bv32, d: bv32): Regs {
    Regs(FromBits(a), FromBits(b), FromBits(c), FromBits(d))
  }

  /** Step i of section 3.4, with its intermediate values. */
  lemma Next(words: seq<Word>, i: nat, a: bv32, b: bv32, c: bv32, d: bv32,
             mixed: bv32, sum: bv32, turned: bv32, next: bv32)
    requires i < 64 && |words| == 16
    requires mixed == MixBits(i, b, c, d)
    requires FromBits(sum) == (FromBits(a) + FromBits(mixed) + words[WordIndex(i)] + T(i)) % TWO32
    requires turned == RotateBits(sum, Shift(i))
    requires FromBits(next) == (FromBits(b) + FromBits(turned)) % TWO32
    requires Steps(INITIAL, words, i) == RegsOf(a, b, c, d)
    ensures Steps(INITIAL, words, i + 1) == RegsOf(d, next, b, c)
  {
    hide FromBits, ToBits, MixBits, Mix, RotateBits, T, Shift, WordIndex;
    MixOfBits(i, b, c, d);
    BitsBack(sum);
  }

  // ----- the digest of "abc" -----

  const ABC: seq<Byte> := [0x61, 0x62, 0x63]

  /** The words of its only block */
  const ABC_WORDS: seq<Word> := [
    0x80636261, 0x00000000, 0x00000000, 0x00000000, 0x00000000, 0x00000000, 0x00000000, 0x00000000,
    0x00000000, 0x00000000, 0x00000000, 0x00000000, 0x00000000, 0x00000000, 0x00000018, 0x00000000]

  lemma AbcSteps2(w: seq<Word>)
    requires w == ABC_WORDS && Steps(INITIAL, w, 0) == RegsOf(0x67452301, 0xefcdab89, 0x98badcfe, 0x10325476)
    ensures Steps(INITIAL, w, 2) == RegsOf(0x98badcfe, 0x344a8432, 0xd6d117b4, 0xefcdab89)
  {
    hide Steps, RegsOf;
    Next(w, 0, 0x67452301, 0xefcdab89, 0x98badcfe, 0x10325476,
         0x98badcfe, 0x57ce06d8, 0xe7036c2b, 0xd6d117b4);
    Next(w, 1, 0x10325476, 0xd6d117b4, 0xefcdab89, 0x98badcfe,
         0xceebcbca, 0xc7e5d796, 0x5d796c7e, 0x344a8432);
  }

  lemma AbcSteps4(w: seq<Word>)
    requires w == ABC_WORDS && Steps(INITIAL, w, 2) == RegsOf(0x98badcfe, 0x344a8432, 0xd6d117b4, 0xefcdab89)
    ensures Steps(INITIAL, w, 4) == RegsOf(0xd6d117b4, 0x7ad956f2, 0x2f6fbd72, 0x344a8432)
  {
    hide Steps, RegsOf;
    Next(w, 2, 0x98badcfe, 0x344a8432, 0xd6d117b4, 0xefcdab89,
         0xdfc52fb9, 0x9ca07d92, 0xfb253940, 0x2f6fbd72);
    Next(w, 3, 0xefcdab89, 0x2f6fbd72, 0x344a8432, 0xd6d117b4,
         0xf4da86b6, 0xa666012d, 0x4b699980, 0x7ad956f2);
  }

  lemma AbcSteps6(w: seq<Word>)
    requires w == ABC_WORDS && Steps(INITIAL, w, 4) == RegsOf(0xd6d117b4, 0x7ad956f2, 0x2f6fbd72, 0x344a8432)
    ensures Steps(INITIAL, w, 6) == RegsOf(0x2f6fbd72, 0x8bac3051, 0xc73741ef, 0x7ad956f2)
  {
    hide Steps, RegsOf;
    Next(w, 4, 0xd6d117b4, 0x7ad956f2, 0x2f6fbd72, 0x344a8432,
         0x2e4b9472, 0xfa98bbd5, 0x4c5deafd, 0xc73741ef);
    Next(w, 5, 0x344a8432, 0xc73741ef, 0x7ad956f2, 0x2f6fbd72,
         0x6a59fcf2, 0xe62c474e, 0xc474ee62, 0x8bac3051);
  }

  lemma AbcSteps8(w: seq<Word>)
    requires w == ABC_WORDS && Steps(INITIAL, w, 6) == RegsOf(0x2f6fbd72, 0x8bac3051, 0xc73741ef, 0x7ad956f2)
    ensures Steps(INITIAL, w, 8) == RegsOf(0xc73741ef, 0x928d99f6, 0x207dc67b, 0x8bac3051)
  {
    hide Steps, RegsOf;
    Next(w, 6, 0x2f6fbd72, 0x8bac3051, 0xc73741ef, 0x7ad956f2,
         0xf37546e3, 0xcb154a68, 0x94d1962a, 0x207dc67b);
    Next(w, 7, 0x7ad956f2, 0x207dc67b, 0x8bac3051, 0xc73741ef,
         0xc72e01d5, 0x3f4dedc8, 0x720fd37b, 0x928d99f6);
  }

  lemma AbcSteps10(w: seq<Word>)
    requires w == ABC_WORDS && Steps(INITIAL, w, 8) == RegsOf(0xc73741ef, 0x928d99f6, 0x207dc67b, 0x8bac3051)
    ensures Steps(INITIAL, w, 10) == RegsOf(0x207dc67b, 0x74e2f284, 0x854b3712, 0x928d99f6)
  {
    hide Steps, RegsOf;
    Next(w, 8, 0xc73741ef, 0x928d99f6, 0x207dc67b, 0x8bac3051,
         0x092da073, 0x39e57b3a, 0xf2bd9d1c, 0x854b3712);
    Next(w, 9, 0x8bac3051, 0x854b3712, 0x928d99f6, 0x207dc67b,
         0xa03dd17b, 0xb72ef97b, 0xef97bb72, 0x74e2f284);
  }

  lemma AbcSteps12(w: seq<Word>)
    requires w == ABC_WORDS && Steps(INITIAL, w, 10) == RegsOf(0x207dc67b, 0x74e2f284, 0x854b3712, 0x928d99f6)
    ensures Steps(INITIAL, w, 12) == RegsOf(0x854b3712, 0x5ed49596, 0x3020401c, 0x74e2f284)
  {
    hide Steps, RegsOf;
    Next(w, 10, 0x207dc67b, 0x74e2f284, 0x854b3712, 0x928d99f6,
         0x864f3b72, 0xa6cc5d9e, 0xbb3d4d98, 0x3020401c);
    Next(w, 11, 0x928d99f6, 0x3020401c, 0x74e2f284, 0x854b3712,
         0xb56b7706, 0xd155e8ba, 0x2eb4557a, 0x5ed49596);
  }

  lemma AbcSteps14(w: seq<Word>)
    requires w == ABC_WORDS && Steps(INITIAL, w, 12) == RegsOf(0x854b3712, 0x5ed49596, 0x3020401c, 0x74e2f284)
    ensures Steps(INITIAL, w, 14) == RegsOf(0x3020401c, 0xa1051895, 0xdda9b9a6, 0x5ed49596)
  {
    hide Steps, RegsOf;
    Next(w, 12, 0x854b3712, 0x5ed49596, 0x3020401c, 0x74e2f284,
         0x30226214, 0x20fdaa48, 0x7ed52410, 0xdda9b9a6);
    Next(w, 13, 0x74e2f284, 0xdda9b9a6, 0x5ed49596, 0x3020401c,
         0x7c80d19e, 0xeefc35b5, 0xc35b5eef, 0xa1051895);
  }

  lemma AbcSteps16(w: seq<Word>)
    requires w == ABC_WORDS && Steps(INITIAL, w, 14) == RegsOf(0x3020401c, 0xa1051895, 0xdda9b9a6, 0x5ed49596)
    ensures Steps(INITIAL, w, 16) == RegsOf(0xdda9b9a6, 0x72aff2e0, 0xe396856b, 0xa1051895)
  {
    hide Steps, RegsOf;
    Next(w, 14, 0x3020401c, 0xa1051895, 0xdda9b9a6, 0x5ed49596,
         0xdfd19d86, 0xb66b2148, 0x42916cd6, 0xe396856b);
    Next(w, 15, 0x5ed49596, 0xe396856b, 0xa1051895, 0xdda9b9a6,
         0xbd2d3885, 0x65b5d63c, 0x8f196d75, 0x72aff2e0);
  }

  lemma AbcSteps18(w: seq<Word>)
    requires w == ABC_WORDS && Steps(INITIAL, w, 16) == RegsOf(0xdda9b9a6, 0x72aff2e0, 0xe396856b, 0xa1051895)
    ensures Steps(INITIAL, w, 18) == RegsOf(0xe396856b, 0x4a1d804e, 0x3e9e9126, 0x72aff2e0)
  {
    hide Steps, RegsOf;
    Next(w, 16, 0xdda9b9a6, 0x72aff2e0, 0xe396856b, 0xa1051895,
         0x629795ea, 0x365f74f2, 0xcbee9e46, 0x3e9e9126);
    Next(w, 17, 0xa1051895, 0x3e9e9126, 0x72aff2e0, 0xe396856b,
         0x32bff3a2, 0x9405bf77, 0x0b7eef28, 0x4a1d804e);
  }

  lemma AbcSteps20(w: seq<Word>)
    requires w == ABC_WORDS && Steps(INITIAL, w, 18) == RegsOf(0xe396856b, 0x4a1d804e, 0x3e9e9126, 0x72aff2e0)
    ensures Steps(INITIAL, w, 20) == RegsOf(0x3e9e9126, 0xb5b204e4, 0xe25e1652, 0x4a1d804e)
  {
    hide Steps, RegsOf;
    Next(w, 18, 0xe396856b, 0x4a1d804e, 0x3e9e9126, 0x72aff2e0,
         0x4e1d8146, 0x58126102, 0x98409604, 0xe25e1652);
    Next(w, 19, 0x72aff2e0, 0xe25e1652, 0x4a1d804e, 0x3e9e9126,
         0x621f104a, 0x3ee92d35, 0xd353ee92, 0xb5b204e4);
  }

  lemma AbcSteps22(w: seq<Word>)
    requires w == ABC_WORDS && Steps(INITIAL, w, 20) == RegsOf(0x3e9e9126, 0xb5b204e4, 0xe25e1652, 0x4a1d804e)
    ensures Steps(INITIAL, w, 22) == RegsOf(0xe25e1652, 0x6d002f1e, 0x59a8ffda, 0xb5b204e4)
  {
    hide Steps, RegsOf;
    Next(w, 20, 0x3e9e9126, 0xb5b204e4, 0xe25e1652, 0x4a1d804e,
         0xa0521654, 0xb51fb7d7, 0xa3f6faf6, 0x59a8ffda);
    Next(w, 21, 0x4a1d804e, 0x59a8ffda, 0xb5b204e4, 0xe25e1652,
         0x55a816f6, 0xa209ab97, 0x13572f44, 0x6d002f1e);
  }

  lemma AbcSteps24(w: seq<Word>)
    requires w == ABC_WORDS && Steps(INITIAL, w, 22) == RegsOf(0xe25e1652, 0x6d002f1e, 0x59a8ffda, 0xb5b204e4)
    ensures Steps(INITIAL, w, 24) == RegsOf(0x59a8ffda, 0x47092c07, 0xabfc7920, 0x6d002f1e)
  {
    hide Steps, RegsOf;
    Next(w, 22, 0xe25e1652, 0x6d002f1e, 0x59a8ffda, 0xb5b204e4,
         0x6d08ff1e, 0x2808fbf1, 0x3efc4a02, 0xabfc7920);
    Next(w, 23, 0xb5b204e4, 0xabfc7920, 0x6d002f1e, 0x59a8ffda,
         0x2da87904, 0xcb2e79b0, 0x9b0cb2e7, 0x47092c07);
  }

  lemma AbcSteps26(w: seq<Word>)
    requires w == ABC_WORDS && Steps(INITIAL, w, 24) == RegsOf(0x59a8ffda, 0x47092c07, 0xabfc7920, 0x6d002f1e)
    ensures Steps(INITIAL, w, 26) == RegsOf(0xabfc7920, 0x09388eff, 0xb7f268cf, 0x47092c07)
  {
    hide Steps, RegsOf;
    Next(w, 24, 0x59a8ffda, 0x47092c07, 0xabfc7920, 0x6d002f1e,
         0xc7fc7c26, 0x438749e6, 0x70e93cc8, 0xb7f268cf);
    Next(w, 25, 0x6d002f1e, 0xb7f268cf, 0x47092c07, 0xabfc7920,
         0xe7f16c07, 0x1828a313, 0x51462630, 0x09388eff);
  }

  lemma AbcSteps28(w: seq<Word>)
    requires w == ABC_WORDS && Steps(INITIAL, w, 26) == RegsOf(0xabfc7920, 0x09388eff, 0xb7f268cf, 0x47092c07)
    ensures Steps(INITIAL, w, 28) == RegsOf(0xb7f268cf, 0x786acb8f, 0xfe1623b1, 0x09388eff)
  {
    hide Steps, RegsOf;
    Next(w, 26, 0xabfc7920, 0x09388eff, 0xb7f268cf, 0x47092c07,
         0xb1fa4ccf, 0x52cbd376, 0xf4dd94b2, 0xfe1623b1);
    Next(w, 27, 0x47092c07, 0xfe1623b1, 0x09388eff, 0xb7f268cf,
         0xbe1aa6b1, 0x4a7de7a5, 0x7a54a7de, 0x786acb8f);
  }

  lemma AbcSteps30(w: seq<Word>)
    requires w == ABC_WORDS && Steps(INITIAL, w, 28) == RegsOf(0xb7f268cf, 0x786acb8f, 0xfe1623b1, 0x09388eff)
    ensures Steps(INITIAL, w, 30) == RegsOf(0xfe1623b1, 0x9f47e4f8, 0x790a77fb, 0x786acb8f)
  {
    hide Steps, RegsOf;
    Next(w, 28, 0xb7f268cf, 0x786acb8f, 0xfe1623b1, 0x09388eff,
         0xfe2eab8f, 0x6004fd63, 0x009fac6c, 0x790a77fb);
    Next(w, 29, 0x09388eff, 0x790a77fb, 0x786acb8f, 0xfe1623b1,
         0x786aebbf, 0x7e931eb6, 0x263d6cfd, 0x9f47e4f8);
  }

  lemma AbcSteps32(w: seq<Word>)
    requires w == ABC_WORDS && Steps(INITIAL, w, 30) == RegsOf(0xfe1623b1, 0x9f47e4f8, 0x790a77fb, 0x786acb8f)
    ensures Steps(INITIAL, w, 32) == RegsOf(0x790a77fb, 0x726342d3, 0xa62884aa, 0x9f47e4f8)
  {
    hide Steps, RegsOf;
    Next(w, 30, 0xfe1623b1, 0x9f47e4f8, 0x790a77fb, 0x786acb8f,
         0x1942f4f8, 0x7ec81b82, 0x06e09fb2, 0xa62884aa);
    Next(w, 31, 0x786acb8f, 0xa62884aa, 0x9f47e4f8, 0x790a77fb,
         0xa64d84aa, 0xabe29cc3, 0xcc3abe29, 0x726342d3);
  }

  lemma AbcSteps34(w: seq<Word>)
    requires w == ABC_WORDS && Steps(INITIAL, w, 32) == RegsOf(0x790a77fb, 0x726342d3, 0xa62884aa, 0x9f47e4f8)
    ensures Steps(INITIAL, w, 34) == RegsOf(0xa62884aa, 0x60127b2e, 0xb3707ebf, 0x726342d3)
  {
    hide Steps, RegsOf;
    Next(w, 32, 0x790a77fb, 0x726342d3, 0xa62884aa, 0x9f47e4f8,
         0x4b0c2281, 0xc410d3be, 0x410d3bec, 0xb3707ebf);
    Next(w, 33, 0x9f47e4f8, 0xb3707ebf, 0x726342d3, 0xa62884aa,
         0x673bb8c6, 0x8df5943f, 0xaca1fc6f, 0x60127b2e);
  }

  lemma AbcSteps36(w: seq<Word>)
    requires w == ABC_WORDS && Steps(INITIAL, w, 34) == RegsOf(0xa62884aa, 0x60127b2e, 0xb3707ebf, 0x726342d3)
    ensures Steps(INITIAL, w, 36) == RegsOf(0xb3707ebf, 0x3b0875c7, 0x8d212ff5, 0x60127b2e)
  {
    hide Steps, RegsOf;
    Next(w, 34, 0xa62884aa, 0x60127b2e, 0xb3707ebf, 0x726342d3,
         0xa1014742, 0xb4c72d0e, 0x2d0eb4c7, 0x8d212ff5);
    Next(w, 35, 0x726342d3, 0x8d212ff5, 0x60127b2e, 0xb3707ebf,
         0x5e432a64, 0xce8ba55b, 0xade745d2, 0x3b0875c7);
  }

  lemma AbcSteps38(w: seq<Word>)
    requires w == ABC_WORDS && Steps(INITIAL, w, 36) == RegsOf(0xb3707ebf, 0x3b0875c7, 0x8d212ff5, 0x60127b2e)
    ensures Steps(INITIAL, w, 38) == RegsOf(0x8d212ff5, 0x6e7429d5, 0x21b117b9, 0x3b0875c7)
  {
    hide Steps, RegsOf;
    Next(w, 36, 0xb3707ebf, 0x3b0875c7, 0x8d212ff5, 0x60127b2e,
         0xd63b211c, 0x2e6a8a1f, 0xe6a8a1f2, 0x21b117b9);
    Next(w, 37, 0x60127b2e, 0x21b117b9, 0x3b0875c7, 0x8d212ff5,
         0x97984d8b, 0x43899862, 0x4cc3121c, 0x6e7429d5);
  }

  lemma AbcSteps40(w: seq<Word>)
    requires w == ABC_WORDS && Steps(INITIAL, w, 38) == RegsOf(0x8d212ff5, 0x6e7429d5, 0x21b117b9, 0x3b0875c7)
    ensures Steps(INITIAL, w, 40) == RegsOf(0x21b117b9, 0x5a2f5ea5, 0x3575227e, 0x6e7429d5)
  {
    hide Steps, RegsOf;
    Next(w, 38, 0x8d212ff5, 0x6e7429d5, 0x21b117b9, 0x3b0875c7,
         0x74cd4bab, 0xf8a9c700, 0xc700f8a9, 0x3575227e);
    Next(w, 39, 0x3b0875c7, 0x3575227e, 0x6e7429d5, 0x21b117b9,
         0x7ab01c12, 0x74784e49, 0x24ba3c27, 0x5a2f5ea5);
  }

  lemma AbcSteps42(w: seq<Word>)
    requires w == ABC_WORDS && Steps(INITIAL, w, 40) == RegsOf(0x21b117b9, 0x5a2f5ea5, 0x3575227e, 0x6e7429d5)
    ensures Steps(INITIAL, w, 42) == RegsOf(0x3575227e, 0xfadcaa38, 0x11de1779, 0x5a2f5ea5)
  {
    hide Steps, RegsOf;
    Next(w, 40, 0x21b117b9, 0x5a2f5ea5, 0x3575227e, 0x6e7429d5,
         0x012e550e, 0x4b7aeb8d, 0xb7aeb8d4, 0x11de1779);
    Next(w, 41, 0x6e7429d5, 0x11de1779, 0x5a2f5ea5, 0x3575227e,
         0x7e846ba2, 0x57fd1fd2, 0xe8fe92bf, 0xfadcaa38);
  }

  lemma AbcSteps44(w: seq<Word>)
    requires w == ABC_WORDS && Steps(INITIAL, w, 42) == RegsOf(0x3575227e, 0xfadcaa38, 0x11de1779, 0x5a2f5ea5)
    ensures Steps(INITIAL, w, 44) == RegsOf(0x11de1779, 0x4c6124f4, 0x31c465ca, 0xfadcaa38)
  {
    hide Steps, RegsOf;
    Next(w, 42, 0x3575227e, 0xfadcaa38, 0x11de1779, 0x5a2f5ea5,
         0xb12de3e4, 0xbb9236e7, 0x36e7bb92, 0x31c465ca);
    Next(w, 43, 0x5a2f5ea5, 0x31c465ca, 0xfadcaa38, 0x11de1779,
         0xdac6d88b, 0x397e5435, 0x1a9cbf2a, 0x4c6124f4);
  }

  lemma AbcSteps46(w: seq<Word>)
    requires w == ABC_WORDS && Steps(INITIAL, w, 44) == RegsOf(0x11de1779, 0x4c6124f4, 0x31c465ca, 0xfadcaa38)
    ensures Steps(INITIAL, w, 46) == RegsOf(0x31c465ca, 0x99d9679d, 0x7f2e507b, 0x4c6124f4)
  {
    hide Steps, RegsOf;
    Next(w, 44, 0x11de1779, 0x4c6124f4, 0x31c465ca, 0xfadcaa38,
         0x8779eb06, 0x732cd2b8, 0x32cd2b87, 0x7f2e507b);
    Next(w, 45, 0xfadcaa38, 0x7f2e507b, 0x4c6124f4, 0x31c465ca,
         0x028b1145, 0xe4435562, 0x1aab1722, 0x99d9679d);
  }

  lemma AbcSteps48(w: seq<Word>)
    requires w == ABC_WORDS && Steps(INITIAL, w, 46) == RegsOf(0x31c465ca, 0x99d9679d, 0x7f2e507b, 0x4c6124f4)
    ensures Steps(INITIAL, w, 48) == RegsOf(0x7f2e507b, 0x7beb9700, 0x8fae6399, 0x99d9679d)
  {
    hide Steps, RegsOf;
    Next(w, 46, 0x31c465ca, 0x99d9679d, 0x7f2e507b, 0x4c6124f4,
         0xaa961312, 0xfbfcf5d4, 0xf5d4fbfc, 0x8fae6399);
    Next(w, 47, 0x4c6124f4, 0x8fae6399, 0x99d9679d, 0x7f2e507b,
         0x6959547f, 0x7a66cfd8, 0xec3d3367, 0x7beb9700);
  }

  lemma AbcSteps50(w: seq<Word>)
    requires w == ABC_WORDS && Steps(INITIAL, w, 48) == RegsOf(0x7f2e507b, 0x7beb9700, 0x8fae6399, 0x99d9679d)
    ensures Steps(INITIAL, w, 50) == RegsOf(0x8fae6399, 0xf4e8e96e, 0x7b201df8, 0x7beb9700)
  {
    hide Steps, RegsOf;
    Next(w, 48, 0x7f2e507b, 0x7beb9700, 0x8fae6399, 0x99d9679d,
         0xf041fcfb, 0xe3fcd21b, 0xff3486f8, 0x7b201df8);
    Next(w, 49, 0x99d9679d, 0x7b201df8, 0x7beb9700, 0x8fae6399,
         0x009a0afe, 0xdd9e7232, 0x79c8cb76, 0xf4e8e96e);
  }

  lemma AbcSteps52(w: seq<Word>)
    requires w == ABC_WORDS && Steps(INITIAL, w, 50) == RegsOf(0x8fae6399, 0xf4e8e96e, 0x7b201df8, 0x7beb9700)
    ensures Steps(INITIAL, w, 52) == RegsOf(0x7b201df8, 0x8bf025c4, 0xb298cefd, 0xf4e8e96e)
  {
    hide Steps, RegsOf;
    Next(w, 50, 0x8fae6399, 0xf4e8e96e, 0x7b201df8, 0x7beb9700,
         0x8fdcf407, 0xcb1f7b5f, 0xbdafe58f, 0xb298cefd);
    Next(w, 51, 0x7beb9700, 0xb298cefd, 0xf4e8e96e, 0x7b201df8,
         0x42370791, 0xbab63eca, 0xd95756c7, 0x8bf025c4);
  }

  lemma AbcSteps54(w: seq<Word>)
    requires w == ABC_WORDS && Steps(INITIAL, w, 52) == RegsOf(0x7b201df8, 0x8bf025c4, 0xb298cefd, 0xf4e8e96e)
    ensures Steps(INITIAL, w, 54) == RegsOf(0xb298cefd, 0x5b0d97aa, 0x06cc5e8a, 0x8bf025c4)
  {
    hide Steps, RegsOf;
    Next(w, 52, 0x7b201df8, 0x8bf025c4, 0xb298cefd, 0xf4e8e96e,
         0x396ff928, 0x19eb70e3, 0x7adc38c6, 0x06cc5e8a);
    Next(w, 53, 0xf4e8e96e, 0x06cc5e8a, 0x8bf025c4, 0xb298cefd,
         0xc41f5a4e, 0x4815104e, 0x54413920, 0x5b0d97aa);
  }

  lemma AbcSteps56(w: seq<Word>)
    requires w == ABC_WORDS && Steps(INITIAL, w, 54) == RegsOf(0xb298cefd, 0x5b0d97aa, 0x06cc5e8a, 0x8bf025c4)
    ensures Steps(INITIAL, w, 56) == RegsOf(0x06cc5e8a, 0x3bfa2c27, 0x7d632dd0, 0x5b0d97aa)
  {
    hide Steps, RegsOf;
    Next(w, 54, 0xb298cefd, 0x5b0d97aa, 0x06cc5e8a, 0x8bf025c4,
         0x79c38131, 0x2c4c44ab, 0x22559626, 0x7d632dd0);
    Next(w, 55, 0x8bf025c4, 0x7d632dd0, 0x5b0d97aa, 0x06cc5e8a,
         0xa67e3a5f, 0xb7f2bdf4, 0xbe96fe57, 0x3bfa2c27);
  }

  lemma AbcSteps58(w: seq<Word>)
    requires w == ABC_WORDS && Steps(INITIAL, w, 56) == RegsOf(0x06cc5e8a, 0x3bfa2c27, 0x7d632dd0, 0x5b0d97aa)
    ensures Steps(INITIAL, w, 58) == RegsOf(0x7d632dd0, 0x094454ab, 0x7f81cc35, 0x3bfa2c27)
  {
    hide Steps, RegsOf;
    Next(w, 56, 0x06cc5e8a, 0x3bfa2c27, 0x7d632dd0, 0x5b0d97aa,
         0xc29941a7, 0x390e1e80, 0x4387a00e, 0x7f81cc35);
    Next(w, 57, 0x5b0d97aa, 0x7f81cc35, 0x3bfa2c27, 0x7d632dd0,
         0xc467f218, 0x1da270a2, 0x89c28876, 0x094454ab);
  }

  lemma AbcSteps60(w: seq<Word>)
    requires w == ABC_WORDS && Steps(INITIAL, w, 58) == RegsOf(0x7d632dd0, 0x094454ab, 0x7f81cc35, 0x3bfa2c27)
    ensures Steps(INITIAL, w, 60) == RegsOf(0x7f81cc35, 0x7327d604, 0x4f9dbe3f, 0x094454ab)
  {
    hide Steps, RegsOf;
    Next(w, 58, 0x7d632dd0, 0x094454ab, 0x7f81cc35, 0x3bfa2c27,
         0xb2c41bce, 0xd3288cb2, 0x46596994, 0x4f9dbe3f);
    Next(w, 59, 0x3bfa2c27, 0x4f9dbe3f, 0x094454ab, 0x7f81cc35,
         0xc6bbeb54, 0x50be291c, 0x238a17c5, 0x7327d604);
  }

  lemma AbcSteps62(w: seq<Word>)
    requires w == ABC_WORDS && Steps(INITIAL, w, 60) == RegsOf(0x7f81cc35, 0x7327d604, 0x4f9dbe3f, 0x094454ab)
    ensures Steps(INITIAL, w, 62) == RegsOf(0x4f9dbe3f, 0x624d8cb2, 0x310ade8f, 0x7327d604)
  {
    hide Steps, RegsOf;
    Next(w, 60, 0x7f81cc35, 0x7327d604, 0x4f9dbe3f, 0x094454ab,
         0xb822416b, 0x2ef78c22, 0xbde3088b, 0x310ade8f);
    Next(w, 61, 0x094454ab, 0x310ade8f, 0x7327d604, 0x4f9dbe3f,
         0xc24d09cb, 0x88cc50ab, 0x3142ae23, 0x624d8cb2);
  }

  lemma AbcSteps64(w: seq<Word>)
    requires w == ABC_WORDS && Steps(INITIAL, w, 62) == RegsOf(0x4f9dbe3f, 0x624d8cb2, 0x310ade8f, 0x7327d604)
    ensures Steps(INITIAL, w, 64) == RegsOf(0x310ade8f, 0xc08226b3, 0xe484b9d8, 0x624d8cb2)
  {
    hide Steps, RegsOf;
    Next(w, 62, 0x4f9dbe3f, 0x624d8cb2, 0x310ade8f, 0x7327d604,
         0xdfd77374, 0x5a4d046e, 0x82372d26, 0xe484b9d8);
    Next(w, 63, 0x7327d604, 0xe484b9d8, 0x624d8cb2, 0x310ade8f,
         0x8cb8354a, 0xeb66dedf, 0xdbfd6cdb, 0xc08226b3);
  }

  lemma AbcAllSteps()
    ensures Steps(INITIAL, ABC_WORDS, 64) == RegsOf(0x310ade8f, 0xc08226b3, 0xe484b9d8, 0x624d8cb2)
  {
    hide Steps;
    var w := ABC_WORDS;
    AbcStart(w);
    AbcSteps2(w);
    AbcSteps4(w);
    AbcSteps6(w);
    AbcSteps8(w);
    AbcSteps10(w);
    AbcSteps12(w);
    AbcSteps14(w);
    AbcSteps16(w);
    AbcSteps18(w);
    AbcSteps20(w);
    AbcSteps22(w);
    AbcSteps24(w);
    AbcSteps26(w);
    AbcSteps28(w);
    AbcSteps30(w);
    AbcSteps32(w);
    AbcSteps34(w);
    AbcSteps36(w);
    AbcSteps38(w);
    AbcSteps40(w);
    AbcSteps42(w);
    AbcSteps44(w);
    AbcSteps46(w);
    AbcSteps48(w);
    AbcSteps50(w);
    AbcSteps52(w);
    AbcSteps54(w);
    AbcSteps56(w);
    AbcSteps58(w);
    AbcSteps60(w);
    AbcSteps62(w);
    AbcSteps64(w);
  }

  lemma AbcStart(w: seq<Word>)
    requires |w| == 16
    ensures Steps(INITIAL, w, 0) == RegsOf(0x67452301, 0xefcdab89, 0x98badcfe, 0x10325476)
  {
  }

  /** The block is the message, 0x80, zeros and the length of 24 bits. */
  lemma AbcBlock() returns (block: seq<Byte>)
    ensures block == ABC + Padding(3) && |block| == 64
    ensures block[0] == 0x61 && block[1] == 0x62 && block[2] == 0x63 && block[3] == 0x80 && block[56] == 24
    ensures forall k :: 4 <= k < 64 && k != 56 ==> block[k] == 0
  {
    hide LowBytes;
    block := ABC + Padding(3);
    AbcLength();
    assert Zeros(3) == 52;
    var zeros: seq<Byte> := seq(52, _ => 0);
    var length: seq<Byte> := [24, 0, 0, 0, 0, 0, 0, 0];
    assert Padding(3) == [0x80] + zeros + length;
    assert forall k :: 56 <= k < 64 ==> block[k] == length[k - 56];
    assert forall k :: 4 <= k < 56 ==> block[k] == zeros[k - 4];
  }

  lemma AbcLength()
    ensures LowBytes(8 * 3 % TWO64, 8) == [24, 0, 0, 0, 0, 0, 0, 0]
  {
    hide LowBytes;
    LowBytesCons(24, 0, 7);
    ZeroBytes(7);
  }

  lemma {:induction false} ZeroBytes(n: nat)
    ensures |LowBytes(0, n)| == n && forall k :: 0 <= k < n ==> LowBytes(0, n)[k] == 0
  {
    if n > 0 {
      ZeroBytes(n - 1);
    }
  }

  lemma AbcWordsOf(block: seq<Byte>)
    requires |block| == 64
    requires block[0] == 0x61 && block[1] == 0x62 && block[2] == 0x63 && block[3] == 0x80 && block[56] == 24
    requires forall k :: 4 <= k < 64 && k != 56 ==> block[k] == 0
    ensures Words(block) == ABC_WORDS
  {
    hide Words, LittleEndian;
    var w := Words(block);
    ZeroWord();
    forall j | 0 <= j < 16 && j != 0 && j != 14
      ensures w[j] == 0
    {
      WordAt(block, j);
    }
    WordAt(block, 0);
    WordAt(block, 14);
    FirstWord();
    assert forall j :: 0 <= j < 16 ==> ABC_WORDS[j] == if j == 0 then 0x80636261 else if j == 14 then 24 else 0;
  }

  lemma WordAt(block: seq<Byte>, j: nat)
    requires |block| == 64 && j < 16
    ensures Words(block)[j] == LittleEndian(block[4 * j], block[4 * j + 1], block[4 * j + 2], block[4 * j + 3])
  {
  }

  lemma ZeroWord()
    ensures LittleEndian(0, 0, 0, 0) == 0
  {
  }

  lemma FirstWord()
    ensures LittleEndian(0x61, 0x62, 0x63, 0x80) == 0x80636261 && LittleEndian(24, 0, 0, 0) == 24
  {
  }

  lemma AbcCompress(block: seq<Byte>)
    requires |block| == 64 && Words(block) == ABC_WORDS
    ensures Compress(INITIAL, block) == Regs(0x98500190, 0xb04fd23c, 0x7d3f96d6, 0x727fe128)
  {
    hide Steps, Words;
    AbcAllSteps();
  }

  /** Appendix A.5: MD5 ("abc") = 900150983cd24fb0d6963f7d28e17f72 */
  lemma AbcDigest()
    ensures Digest(ABC) == [0x90, 0x01, 0x50, 0x98, 0x3c, 0xd2, 0x4f, 0xb0,
                            0xd6, 0x96, 0x3f, 0x7d, 0x28, 0xe1, 0x7f, 0x72]
  {
    hide Steps, Words, LowBytes, RegsOf, Padding;
    var block := AbcBlock();
    AbcWordsOf(block);
    AbcCompress(block);
    assert block[..64] == block && block[64..] == [];
    NoBlocks(Compress(INITIAL, block), []);
    var r := Compress(INITIAL, block);
    WordOfBytes(r.a, 0x90, 0x01, 0x50, 0x98);
    WordOfBytes(r.b, 0x3c, 0xd2, 0x4f, 0xb0);
    WordOfBytes(r.c, 0xd6, 0x96, 0x3f, 0x7d);
    WordOfBytes(r.d, 0x28, 0xe1, 0x7f, 0x72);
  }
}
