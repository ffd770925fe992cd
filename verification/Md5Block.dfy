/** One pass of the loop in process_block of src/md5/md5.c: the unrolled rounds with
    the macros of src/include/md5_loc.h, proved equal to the table-driven
    compression of RFC 1321. */
module Md5Block {
  import opened Md5Spec

  // ----- md5_loc.h -----

  function FFBits(b: bv32, c: bv32, d: bv32): bv32 { d ^ (b & (c ^ d)) }
  function FHBits(b: bv32, c: bv32, d: bv32): bv32 { b ^ c ^ d }
  function FIBits(b: bv32, c: bv32, d: bv32): bv32 { c ^ (b | !d) }

  function CyclicBits(w: bv32, s: nat): bv32
    requires s <= 32
  {
    (w << s) | (w >> (32 - s))
  }

  function FF(b: Word, c: Word, d: Word): Word { FromBits(FFBits(ToBits(b), ToBits(c), ToBits(d))) }
  function FG(b: Word, c: Word, d: Word): Word { FF(d, b, c) }
  function FH(b: Word, c: Word, d: Word): Word { FromBits(FHBits(ToBits(b), ToBits(c), ToBits(d))) }
  function FI(b: Word, c: Word, d: Word): Word { FromBits(FIBits(ToBits(b), ToBits(c), ToBits(d))) }

  function Cyclic(w: Word, s: nat): Word
    requires s < 32
  {
    FromBits(CyclicBits(ToBits(w), s))
  }

  /** The three assignments of OP1 and OP234 to their first register a, where f is
      the value of the round function and k the message word. */
  function Op(f: Word, a: Word, b: Word, k: Word, s: nat, t: Word): Word
    requires s < 32
  {
    var a1 := (a + ((f + k) % TWO32 + t) % TWO32) % TWO32;
    var a2 := Cyclic(a1, s);
    (a2 + b) % TWO32
  }

  /** memcpy of one word on a little-endian machine, where SWAP is the identity. */
  function LoadWord(bytes: seq<Byte>, pos: nat): Word
    requires pos + 4 <= |bytes|
  {
    LittleEndian(bytes[pos], bytes[pos + 1], bytes[pos + 2], bytes[pos + 3])
  }

  // ----- the macros are the operations of RFC 1321 -----

  lemma FFBitsSelect(x: bv32, y: bv32, z: bv32)
    ensures FFBits(x, y, z) == SelectBits(x, y, z)
  {
    assert z ^ (x & (y ^ z)) == (x & y) | (!x & z);
  }

  lemma FGBitsSelect(x: bv32, y: bv32, z: bv32)
    ensures FFBits(z, x, y) == SelectByLastBits(x, y, z)
  {
    assert y ^ (z & (x ^ y)) == (x & z) | (y & !z);
  }

  /** FF is F with one operation less. */
  lemma FFIsF(x: Word, y: Word, z: Word)
    ensures FF(x, y, z) == F(x, y, z)
  {
    hide FFBits, SelectBits, ToBits;
    FFBitsSelect(ToBits(x), ToBits(y), ToBits(z));
  }

  /** FF with rotated arguments is G. */
  lemma FGIsG(x: Word, y: Word, z: Word)
    ensures FG(x, y, z) == G(x, y, z)
  {
    hide FFBits, SelectByLastBits, ToBits;
    FGBitsSelect(ToBits(x), ToBits(y), ToBits(z));
  }

  lemma CyclicAmounts(w: bv32)
    ensures CyclicBits(w, 4) == RotateBits(w, 4)
    ensures CyclicBits(w, 5) == RotateBits(w, 5)
    ensures CyclicBits(w, 6) == RotateBits(w, 6)
    ensures CyclicBits(w, 7) == RotateBits(w, 7)
    ensures CyclicBits(w, 9) == RotateBits(w, 9)
    ensures CyclicBits(w, 10) == RotateBits(w, 10)
    ensures CyclicBits(w, 11) == RotateBits(w, 11)
    ensures CyclicBits(w, 12) == RotateBits(w, 12)
    ensures CyclicBits(w, 14) == RotateBits(w, 14)
    ensures CyclicBits(w, 15) == RotateBits(w, 15)
    ensures CyclicBits(w, 16) == RotateBits(w, 16)
    ensures CyclicBits(w, 17) == RotateBits(w, 17)
    ensures CyclicBits(w, 20) == RotateBits(w, 20)
    ensures CyclicBits(w, 21) == RotateBits(w, 21)
    ensures CyclicBits(w, 22) == RotateBits(w, 22)
    ensures CyclicBits(w, 23) == RotateBits(w, 23)
  {
  }

  /** The shifts form a rotation for each of the sixteen amounts in use. */
  lemma CyclicBitsRotate(w: bv32, s: nat)
    requires s in {4, 5, 6, 7, 9, 10, 11, 12, 14, 15, 16, 17, 20, 21, 22, 23}
    ensures CyclicBits(w, s) == RotateBits(w, s)
  {
    hide CyclicBits, RotateBits;
    CyclicAmounts(w);
  }

  lemma CyclicIsRotate(w: Word, i: nat)
    requires i < 64
    ensures Cyclic(w, Shift(i)) == Rotate(w, Shift(i))
  {
    hide CyclicBits, RotateBits;
    CyclicBitsRotate(ToBits(w), Shift(i));
  }

  /** The round function that the code uses in step i. */
  function Mixer(i: nat, b: Word, c: Word, d: Word): Word
    requires i < 64
  {
    if i < 16 then FF(b, c, d) else if i < 32 then FG(b, c, d) else if i < 48 then FH(b, c, d) else FI(b, c, d)
  }

  lemma MixerIsMix(i: nat, b: Word, c: Word, d: Word)
    requires i < 64
    ensures Mixer(i, b, c, d) == Mix(i, b, c, d)
  {
    hide FF, FG, F, G;
    if i < 16 {
      FFIsF(b, c, d);
    } else if i < 32 {
      FGIsG(b, c, d);
    }
  }

  lemma SumOrder(a: Word, f: Word, k: Word, t: Word)
    ensures (a + ((f + k) % TWO32 + t) % TWO32) % TWO32 == (a + f + k + t) % TWO32
  {
  }

  /** The register that the code writes in step i. */
  function CodeValue(i: nat, a: Word, b: Word, c: Word, d: Word, words: seq<Word>): Word
    requires i < 64 && |words| == 16
  {
    Op(Mixer(i, b, c, d), a, b, words[WordIndex(i)], Shift(i), T(i))
  }

  lemma CodeValueIsStep(i: nat, a: Word, b: Word, c: Word, d: Word, words: seq<Word>)
    requires i < 64 && |words| == 16
    ensures Step(Regs(a, b, c, d), words, i) == Regs(d, CodeValue(i, a, b, c, d, words), b, c)
  {
    hide Mixer, Mix, Cyclic, Rotate, Shift, T;
    var f, k := Mix(i, b, c, d), words[WordIndex(i)];
    MixerIsMix(i, b, c, d);
    SumOrder(a, f, k, T(i));
    CyclicIsRotate((a + f + k + T(i)) % TWO32, i);
  }

  /** Four lines of the code bring the registers back into their places. */
  lemma FourSteps(r: Regs, words: seq<Word>, i: nat, s: Regs, a: Word, d: Word, c: Word, b: Word)
    requires i + 4 <= 64 && |words| == 16
    requires s == Steps(r, words, i)
    requires a == CodeValue(i, s.a, s.b, s.c, s.d, words)
    requires d == CodeValue(i + 1, s.d, a, s.b, s.c, words)
    requires c == CodeValue(i + 2, s.c, d, a, s.b, words)
    requires b == CodeValue(i + 3, s.b, c, d, a, words)
    ensures Steps(r, words, i + 4) == Regs(a, b, c, d)
  {
    hide CodeValue, Step;
    CodeValueIsStep(i, s.a, s.b, s.c, s.d, words);
    CodeValueIsStep(i + 1, s.d, a, s.b, s.c, words);
    CodeValueIsStep(i + 2, s.c, d, a, s.b, words);
    CodeValueIsStep(i + 3, s.b, c, d, a, words);
    assert Steps(r, words, i + 1) == Step(Steps(r, words, i), words, i);
    assert Steps(r, words, i + 2) == Step(Steps(r, words, i + 1), words, i + 1);
    assert Steps(r, words, i + 3) == Step(Steps(r, words, i + 2), words, i + 2);
    assert Steps(r, words, i + 4) == Step(Steps(r, words, i + 3), words, i + 3);
  }

  lemma NoSteps(r: Regs, words: seq<Word>)
    requires |words| == 16
    ensures Steps(r, words, 0) == r
  {
  }

  // ----- the constants written in the code -----

  lemma WordsAreLoads(block: seq<Byte>)
    requires |block| == 64
    ensures forall j {:trigger Words(block)[j]} :: 0 <= j < 16 ==> Words(block)[j] == LoadWord(block, 4 * j)
  {
  }

  lemma Table1()
    ensures T(0) == 0xd76aa478 && T(1) == 0xe8c7b756 && T(2) == 0x242070db && T(3) == 0xc1bdceee
    ensures T(4) == 0xf57c0faf && T(5) == 0x4787c62a && T(6) == 0xa8304613 && T(7) == 0xfd469501
    ensures T(8) == 0x698098d8 && T(9) == 0x8b44f7af && T(10) == 0xffff5bb1 && T(11) == 0x895cd7be
    ensures T(12) == 0x6b901122 && T(13) == 0xfd987193 && T(14) == 0xa679438e && T(15) == 0x49b40821
    ensures Shift(0) == 7 && Shift(1) == 12 && Shift(2) == 17 && Shift(3) == 22
    ensures Shift(4) == 7 && Shift(5) == 12 && Shift(6) == 17 && Shift(7) == 22
    ensures Shift(8) == 7 && Shift(9) == 12 && Shift(10) == 17 && Shift(11) == 22
    ensures Shift(12) == 7 && Shift(13) == 12 && Shift(14) == 17 && Shift(15) == 22
  {
  }

  lemma Table2()
    ensures T(16) == 0xf61e2562 && T(17) == 0xc040b340 && T(18) == 0x265e5a51 && T(19) == 0xe9b6c7aa
    ensures T(20) == 0xd62f105d && T(21) == 0x02441453 && T(22) == 0xd8a1e681 && T(23) == 0xe7d3fbc8
    ensures T(24) == 0x21e1cde6 && T(25) == 0xc33707d6 && T(26) == 0xf4d50d87 && T(27) == 0x455a14ed
    ensures T(28) == 0xa9e3e905 && T(29) == 0xfcefa3f8 && T(30) == 0x676f02d9 && T(31) == 0x8d2a4c8a
    ensures Shift(16) == 5 && Shift(17) == 9 && Shift(18) == 14 && Shift(19) == 20
    ensures Shift(20) == 5 && Shift(21) == 9 && Shift(22) == 14 && Shift(23) == 20
    ensures Shift(24) == 5 && Shift(25) == 9 && Shift(26) == 14 && Shift(27) == 20
    ensures Shift(28) == 5 && Shift(29) == 9 && Shift(30) == 14 && Shift(31) == 20
  {
  }

  lemma Table3()
    ensures T(32) == 0xfffa3942 && T(33) == 0x8771f681 && T(34) == 0x6d9d6122 && T(35) == 0xfde5380c
    ensures T(36) == 0xa4beea44 && T(37) == 0x4bdecfa9 && T(38) == 0xf6bb4b60 && T(39) == 0xbebfbc70
    ensures T(40) == 0x289b7ec6 && T(41) == 0xeaa127fa && T(42) == 0xd4ef3085 && T(43) == 0x04881d05
    ensures T(44) == 0xd9d4d039 && T(45) == 0xe6db99e5 && T(46) == 0x1fa27cf8 && T(47) == 0xc4ac5665
    ensures Shift(32) == 4 && Shift(33) == 11 && Shift(34) == 16 && Shift(35) == 23
    ensures Shift(36) == 4 && Shift(37) == 11 && Shift(38) == 16 && Shift(39) == 23
    ensures Shift(40) == 4 && Shift(41) == 11 && Shift(42) == 16 && Shift(43) == 23
    ensures Shift(44) == 4 && Shift(45) == 11 && Shift(46) == 16 && Shift(47) == 23
  {
  }

  lemma Table4()
    ensures T(48) == 0xf4292244 && T(49) == 0x432aff97 && T(50) == 0xab9423a7 && T(51) == 0xfc93a039
    ensures T(52) == 0x655b59c3 && T(53) == 0x8f0ccc92 && T(54) == 0xffeff47d && T(55) == 0x85845dd1
    ensures T(56) == 0x6fa87e4f && T(57) == 0xfe2ce6e0 && T(58) == 0xa3014314 && T(59) == 0x4e0811a1
    ensures T(60) == 0xf7537e82 && T(61) == 0xbd3af235 && T(62) == 0x2ad7d2bb && T(63) == 0xeb86d391
    ensures Shift(48) == 6 && Shift(49) == 10 && Shift(50) == 15 && Shift(51) == 21
    ensures Shift(52) == 6 && Shift(53) == 10 && Shift(54) == 15 && Shift(55) == 21
    ensures Shift(56) == 6 && Shift(57) == 10 && Shift(58) == 15 && Shift(59) == 21
    ensures Shift(60) == 6 && Shift(61) == 10 && Shift(62) == 15 && Shift(63) == 21
  {
  }

  // ----- the rounds -----

  /** Round 1 also loads the words of the block into `correct`. */
  method Round1(ghost r: Regs, block: seq<Byte>, a0: Word, b0: Word, c0: Word, d0: Word)
    returns (a: Word, b: Word, c: Word, d: Word, correct: seq<Word>)
    requires |block| == 64
    requires Regs(a0, b0, c0, d0) == r
    ensures correct == Words(block)
    ensures Regs(a, b, c, d) == Steps(r, Words(block), 16)
  {
    hide Steps, Op, FF, FG, FH, FI, T, Shift, LoadWord, Words;
    ghost var words := Words(block);
    WordsAreLoads(block);
    NoSteps(r, words);
    Table1();
    correct := [];
    a, b, c, d := a0, b0, c0, d0;
    ghost var s0 := Regs(a, b, c, d);
    var w0 := LoadWord(block, 0);
    correct := correct + [w0];
    a := Op(FF(b, c, d), a, b, w0, 7, 0xd76aa478);
    var w1 := LoadWord(block, 4);
    correct := correct + [w1];
    d := Op(FF(a, b, c), d, a, w1, 12, 0xe8c7b756);
    var w2 := LoadWord(block, 8);
    correct := correct + [w2];
    c := Op(FF(d, a, b), c, d, w2, 17, 0x242070db);
    var w3 := LoadWord(block, 12);
    correct := correct + [w3];
    b := Op(FF(c, d, a), b, c, w3, 22, 0xc1bdceee);
    FourSteps(r, words, 0, s0, a, d, c, b);
    ghost var s4 := Regs(a, b, c, d);
    var w4 := LoadWord(block, 16);
    correct := correct + [w4];
    a := Op(FF(b, c, d), a, b, w4, 7, 0xf57c0faf);
    var w5 := LoadWord(block, 20);
    correct := correct + [w5];
    d := Op(FF(a, b, c), d, a, w5, 12, 0x4787c62a);
    var w6 := LoadWord(block, 24);
    correct := correct + [w6];
    c := Op(FF(d, a, b), c, d, w6, 17, 0xa8304613);
    var w7 := LoadWord(block, 28);
    correct := correct + [w7];
    b := Op(FF(c, d, a), b, c, w7, 22, 0xfd469501);
    FourSteps(r, words, 4, s4, a, d, c, b);
    ghost var s8 := Regs(a, b, c, d);
    var w8 := LoadWord(block, 32);
    correct := correct + [w8];
    a := Op(FF(b, c, d), a, b, w8, 7, 0x698098d8);
    var w9 := LoadWord(block, 36);
    correct := correct + [w9];
    d := Op(FF(a, b, c), d, a, w9, 12, 0x8b44f7af);
    var w10 := LoadWord(block, 40);
    correct := correct + [w10];
    c := Op(FF(d, a, b), c, d, w10, 17, 0xffff5bb1);
    var w11 := LoadWord(block, 44);
    correct := correct + [w11];
    b := Op(FF(c, d, a), b, c, w11, 22, 0x895cd7be);
    FourSteps(r, words, 8, s8, a, d, c, b);
    ghost var s12 := Regs(a, b, c, d);
    var w12 := LoadWord(block, 48);
    correct := correct + [w12];
    a := Op(FF(b, c, d), a, b, w12, 7, 0x6b901122);
    var w13 := LoadWord(block, 52);
    correct := correct + [w13];
    d := Op(FF(a, b, c), d, a, w13, 12, 0xfd987193);
    var w14 := LoadWord(block, 56);
    correct := correct + [w14];
    c := Op(FF(d, a, b), c, d, w14, 17, 0xa679438e);
    var w15 := LoadWord(block, 60);
    correct := correct + [w15];
    b := Op(FF(c, d, a), b, c, w15, 22, 0x49b40821);
    FourSteps(r, words, 12, s12, a, d, c, b);
  }

  method Round2(ghost r: Regs, words: seq<Word>, a0: Word, b0: Word, c0: Word, d0: Word)
    returns (a: Word, b: Word, c: Word, d: Word)
    requires |words| == 16
    requires Regs(a0, b0, c0, d0) == Steps(r, words, 16)
    ensures Regs(a, b, c, d) == Steps(r, words, 32)
  {
    hide Steps, Op, FF, FG, FH, FI, T, Shift;
    Table2();
    a, b, c, d := a0, b0, c0, d0;
    ghost var s16 := Regs(a, b, c, d);
    a := Op(FG(b, c, d), a, b, words[1], 5, 0xf61e2562);
    d := Op(FG(a, b, c), d, a, words[6], 9, 0xc040b340);
    c := Op(FG(d, a, b), c, d, words[11], 14, 0x265e5a51);
    b := Op(FG(c, d, a), b, c, words[0], 20, 0xe9b6c7aa);
    FourSteps(r, words, 16, s16, a, d, c, b);
    ghost var s20 := Regs(a, b, c, d);
    a := Op(FG(b, c, d), a, b, words[5], 5, 0xd62f105d);
    d := Op(FG(a, b, c), d, a, words[10], 9, 0x02441453);
    c := Op(FG(d, a, b), c, d, words[15], 14, 0xd8a1e681);
    b := Op(FG(c, d, a), b, c, words[4], 20, 0xe7d3fbc8);
    FourSteps(r, words, 20, s20, a, d, c, b);
    ghost var s24 := Regs(a, b, c, d);
    a := Op(FG(b, c, d), a, b, words[9], 5, 0x21e1cde6);
    d := Op(FG(a, b, c), d, a, words[14], 9, 0xc33707d6);
    c := Op(FG(d, a, b), c, d, words[3], 14, 0xf4d50d87);
    b := Op(FG(c, d, a), b, c, words[8], 20, 0x455a14ed);
    FourSteps(r, words, 24, s24, a, d, c, b);
    ghost var s28 := Regs(a, b, c, d);
    a := Op(FG(b, c, d), a, b, words[13], 5, 0xa9e3e905);
    d := Op(FG(a, b, c), d, a, words[2], 9, 0xfcefa3f8);
    c := Op(FG(d, a, b), c, d, words[7], 14, 0x676f02d9);
    b := Op(FG(c, d, a), b, c, words[12], 20, 0x8d2a4c8a);
    FourSteps(r, words, 28, s28, a, d, c, b);
  }

  method Round3(ghost r: Regs, words: seq<Word>, a0: Word, b0: Word, c0: Word, d0: Word)
    returns (a: Word, b: Word, c: Word, d: Word)
    requires |words| == 16
    requires Regs(a0, b0, c0, d0) == Steps(r, words, 32)
    ensures Regs(a, b, c, d) == Steps(r, words, 48)
  {
    hide Steps, Op, FF, FG, FH, FI, T, Shift;
    Table3();
    a, b, c, d := a0, b0, c0, d0;
    ghost var s32 := Regs(a, b, c, d);
    a := Op(FH(b, c, d), a, b, words[5], 4, 0xfffa3942);
    d := Op(FH(a, b, c), d, a, words[8], 11, 0x8771f681);
    c := Op(FH(d, a, b), c, d, words[11], 16, 0x6d9d6122);
    b := Op(FH(c, d, a), b, c, words[14], 23, 0xfde5380c);
    FourSteps(r, words, 32, s32, a, d, c, b);
    ghost var s36 := Regs(a, b, c, d);
    a := Op(FH(b, c, d), a, b, words[1], 4, 0xa4beea44);
    d := Op(FH(a, b, c), d, a, words[4], 11, 0x4bdecfa9);
    c := Op(FH(d, a, b), c, d, words[7], 16, 0xf6bb4b60);
    b := Op(FH(c, d, a), b, c, words[10], 23, 0xbebfbc70);
    FourSteps(r, words, 36, s36, a, d, c, b);
    ghost var s40 := Regs(a, b, c, d);
    a := Op(FH(b, c, d), a, b, words[13], 4, 0x289b7ec6);
    d := Op(FH(a, b, c), d, a, words[0], 11, 0xeaa127fa);
    c := Op(FH(d, a, b), c, d, words[3], 16, 0xd4ef3085);
    b := Op(FH(c, d, a), b, c, words[6], 23, 0x04881d05);
    FourSteps(r, words, 40, s40, a, d, c, b);
    ghost var s44 := Regs(a, b, c, d);
    a := Op(FH(b, c, d), a, b, words[9], 4, 0xd9d4d039);
    d := Op(FH(a, b, c), d, a, words[12], 11, 0xe6db99e5);
    c := Op(FH(d, a, b), c, d, words[15], 16, 0x1fa27cf8);
    b := Op(FH(c, d, a), b, c, words[2], 23, 0xc4ac5665);
    FourSteps(r, words, 44, s44, a, d, c, b);
  }

  method Round4(ghost r: Regs, words: seq<Word>, a0: Word, b0: Word, c0: Word, d0: Word)
    returns (a: Word, b: Word, c: Word, d: Word)
    requires |words| == 16
    requires Regs(a0, b0, c0, d0) == Steps(r, words, 48)
    ensures Regs(a, b, c, d) == Steps(r, words, 64)
  {
    hide Steps, Op, FF, FG, FH, FI, T, Shift;
    Table4();
    a, b, c, d := a0, b0, c0, d0;
    ghost var s48 := Regs(a, b, c, d);
    a := Op(FI(b, c, d), a, b, words[0], 6, 0xf4292244);
    d := Op(FI(a, b, c), d, a, words[7], 10, 0x432aff97);
    c := Op(FI(d, a, b), c, d, words[14], 15, 0xab9423a7);
    b := Op(FI(c, d, a), b, c, words[5], 21, 0xfc93a039);
    FourSteps(r, words, 48, s48, a, d, c, b);
    ghost var s52 := Regs(a, b, c, d);
    a := Op(FI(b, c, d), a, b, words[12], 6, 0x655b59c3);
    d := Op(FI(a, b, c), d, a, words[3], 10, 0x8f0ccc92);
    c := Op(FI(d, a, b), c, d, words[10], 15, 0xffeff47d);
    b := Op(FI(c, d, a), b, c, words[1], 21, 0x85845dd1);
    FourSteps(r, words, 52, s52, a, d, c, b);
    ghost var s56 := Regs(a, b, c, d);
    a := Op(FI(b, c, d), a, b, words[8], 6, 0x6fa87e4f);
    d := Op(FI(a, b, c), d, a, words[15], 10, 0xfe2ce6e0);
    c := Op(FI(d, a, b), c, d, words[6], 15, 0xa3014314);
    b := Op(FI(c, d, a), b, c, words[13], 21, 0x4e0811a1);
    FourSteps(r, words, 56, s56, a, d, c, b);
    ghost var s60 := Regs(a, b, c, d);
    a := Op(FI(b, c, d), a, b, words[4], 6, 0xf7537e82);
    d := Op(FI(a, b, c), d, a, words[11], 10, 0xbd3af235);
    c := Op(FI(d, a, b), c, d, words[2], 15, 0x2ad7d2bb);
    b := Op(FI(c, d, a), b, c, words[9], 21, 0xeb86d391);
    FourSteps(r, words, 60, s60, a, d, c, b);
  }

  /** One pass of the loop in process_block. */
  method ProcessOneBlock(block: seq<Byte>, a0: Word, b0: Word, c0: Word, d0: Word)
    returns (a: Word, b: Word, c: Word, d: Word)
    requires |block| == 64
    ensures Regs(a, b, c, d) == Compress(Regs(a0, b0, c0, d0), block)
  {
    hide Steps, Words;
    ghost var r := Regs(a0, b0, c0, d0);
    var correct;
    a, b, c, d, correct := Round1(r, block, a0, b0, c0, d0);
    a, b, c, d := Round2(r, correct, a, b, c, d);
    a, b, c, d := Round3(r, correct, a, b, c, d);
    a, b, c, d := Round4(r, correct, a, b, c, d);
    a, b, c, d := (a + a0) % TWO32, (b + b0) % TWO32, (c + c0) % TWO32, (d + d0) % TWO32;
  }
}
