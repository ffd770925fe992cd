/** The MD5 message digest as RFC 1321 defines it, section by section, on byte
    sequences. Nothing here follows the code. A word is a number below 2^32;
    bitwise operations go through bv32. */
module Md5Spec {

  const TWO32: int := 0x1_0000_0000
  const TWO64: int := 0x1_0000_0000_0000_0000

  newtype Byte = x: int | 0 <= x < 256
  type Word = x: int | 0 <= x < TWO32

  /** The four-word buffer of section 3.3. */
  datatype Regs = Regs(a: Word, b: Word, c: Word, d: Word)

  const INITIAL := Regs(0x67452301, 0xefcdab89, 0x98badcfe, 0x10325476)

  // ----- section 3.4: one block -----

  function SelectBits(x: bv32, y: bv32, z: bv32): bv32 { (x & y) | (!x & z) }
  function SelectByLastBits(x: bv32, y: bv32, z: bv32): bv32 { (x & z) | (y & !z) }
  function ParityBits(x: bv32, y: bv32, z: bv32): bv32 { x ^ y ^ z }
  function OrNotBits(x: bv32, y: bv32, z: bv32): bv32 { y ^ (x | !z) }

  function RotateBits(w: bv32, s: nat): bv32
    requires s < 32
  {
    w.RotateLeft(s)
  }

  function FromBits(b: bv32): Word { b as int }
  function ToBits(w: Word): bv32 { w as bv32 }

  function F(x: Word, y: Word, z: Word): Word { FromBits(SelectBits(ToBits(x), ToBits(y), ToBits(z))) }
  function G(x: Word, y: Word, z: Word): Word { FromBits(SelectByLastBits(ToBits(x), ToBits(y), ToBits(z))) }
  function H(x: Word, y: Word, z: Word): Word { FromBits(ParityBits(ToBits(x), ToBits(y), ToBits(z))) }
  function I(x: Word, y: Word, z: Word): Word { FromBits(OrNotBits(ToBits(x), ToBits(y), ToBits(z))) }

  /** The round function of step i. */
  function Mix(i: nat, x: Word, y: Word, z: Word): Word
    requires i < 64
  {
    if i < 16 then F(x, y, z) else if i < 32 then G(x, y, z) else if i < 48 then H(x, y, z) else I(x, y, z)
  }

  /** w circularly shifted left by s bits. */
  function Rotate(w: Word, s: nat): Word
    requires s < 32
  {
    FromBits(RotateBits(ToBits(w), s))
  }

  /** The table T of section 3.4, eight to a row: the integer parts of 4294967296
      times abs(sin(i)), for i from 1 to 64. */
  const SINES: seq<seq<Word>> := [
    [0xd76aa478, 0xe8c7b756, 0x242070db, 0xc1bdceee, 0xf57c0faf, 0x4787c62a, 0xa8304613, 0xfd469501],
    [0x698098d8, 0x8b44f7af, 0xffff5bb1, 0x895cd7be, 0x6b901122, 0xfd987193, 0xa679438e, 0x49b40821],
    [0xf61e2562, 0xc040b340, 0x265e5a51, 0xe9b6c7aa, 0xd62f105d, 0x02441453, 0xd8a1e681, 0xe7d3fbc8],
    [0x21e1cde6, 0xc33707d6, 0xf4d50d87, 0x455a14ed, 0xa9e3e905, 0xfcefa3f8, 0x676f02d9, 0x8d2a4c8a],
    [0xfffa3942, 0x8771f681, 0x6d9d6122, 0xfde5380c, 0xa4beea44, 0x4bdecfa9, 0xf6bb4b60, 0xbebfbc70],
    [0x289b7ec6, 0xeaa127fa, 0xd4ef3085, 0x04881d05, 0xd9d4d039, 0xe6db99e5, 0x1fa27cf8, 0xc4ac5665],
    [0xf4292244, 0x432aff97, 0xab9423a7, 0xfc93a039, 0x655b59c3, 0x8f0ccc92, 0xffeff47d, 0x85845dd1],
    [0x6fa87e4f, 0xfe2ce6e0, 0xa3014314, 0x4e0811a1, 0xf7537e82, 0xbd3af235, 0x2ad7d2bb, 0xeb86d391]
  ]

  function T(i: nat): Word
    requires i < 64
  {
    SINES[i / 8][i % 8]
  }

  /** The rotation of each step: one row of four for each round. */
  const SHIFTS: seq<seq<nat>> := [[7, 12, 17, 22], [5, 9, 14, 20], [4, 11, 16, 23], [6, 10, 15, 21]]

  function Shift(i: nat): (s: nat)
    requires i < 64
    ensures s < 32
  {
    SHIFTS[i / 16][i % 4]
  }

  /** The word of the block that step i uses. */
  function WordIndex(i: nat): (k: nat)
    requires i < 64
    ensures k < 16
  {
    if i < 16 then i
    else if i < 32 then (5 * i + 1) % 16
    else if i < 48 then (3 * i + 5) % 16
    else (7 * i) % 16
  }

  /** The new value of register a: b plus the rotated sum of a, the mixed registers
      f, the message word x and the constant t. */
  function StepValue(a: Word, b: Word, f: Word, x: Word, t: Word, s: nat): Word
    requires s < 32
  {
    (b + Rotate((a + f + x + t) % TWO32, s)) % TWO32
  }

  /** The register written in one step is the last argument of the next one. */
  function Step(r: Regs, words: seq<Word>, i: nat): Regs
    requires i < 64 && |words| == 16
  {
    Regs(r.d, StepValue(r.a, r.b, Mix(i, r.b, r.c, r.d), words[WordIndex(i)], T(i), Shift(i)), r.b, r.c)
  }

  /** The first n steps. */
  function Steps(r: Regs, words: seq<Word>, n: nat): Regs
    requires n <= 64 && |words| == 16
  {
    if n == 0 then r else Step(Steps(r, words, n - 1), words, n - 1)
  }

  /** Bytes form a word low-order byte first (section 2). */
  function LittleEndian(b0: Byte, b1: Byte, b2: Byte, b3: Byte): Word {
    (b0 as int) + 0x100 * (b1 as int) + 0x1_0000 * (b2 as int) + 0x100_0000 * (b3 as int)
  }

  function Words(block: seq<Byte>): (w: seq<Word>)
    requires |block| == 64
    ensures |w| == 16
  {
    seq(16, j requires 0 <= j < 16 =>
      LittleEndian(block[4 * j], block[4 * j + 1], block[4 * j + 2], block[4 * j + 3]))
  }

  function AddRegs(x: Regs, y: Regs): Regs {
    Regs((x.a + y.a) % TWO32, (x.b + y.b) % TWO32, (x.c + y.c) % TWO32, (x.d + y.d) % TWO32)
  }

  function Compress(r: Regs, block: seq<Byte>): Regs
    requires |block| == 64
  {
    AddRegs(Steps(r, Words(block), 64), r)
  }

  /** Folds the compression over the complete blocks. */
  function Blocks(r: Regs, bytes: seq<Byte>): Regs
    decreases |bytes|
  {
    if |bytes| < 64 then r else Blocks(Compress(r, bytes[..64]), bytes[64..])
  }

  // ----- sections 3.1 and 3.2: padding and length -----

  /** The n low-order bytes of v, low-order byte first. */
  function LowBytes(v: nat, n: nat): (s: seq<Byte>)
    ensures |s| == n
  {
    if n == 0 then [] else [(v % 256) as Byte] + LowBytes(v / 256, n - 1)
  }

  /** Zero bytes behind the 0x80, up to 8 bytes short of a multiple of 64. */
  function Zeros(len: nat): (z: nat)
    ensures (len + 1 + z) % 64 == 56 && z < 64
  {
    (119 - len % 64) % 64
  }

  function Padding(len: nat): (p: seq<Byte>)
    ensures |p| == Zeros(len) + 9
  {
    [0x80] + seq(Zeros(len), _ => 0) + LowBytes(8 * len % TWO64, 8)
  }

  // ----- section 3.5: output -----

  function Output(r: Regs): (s: seq<Byte>)
    ensures |s| == 16
  {
    LowBytes(r.a, 4) + LowBytes(r.b, 4) + LowBytes(r.c, 4) + LowBytes(r.d, 4)
  }

  function Digest(msg: seq<Byte>): (s: seq<Byte>)
    ensures |s| == 16
  {
    Output(Blocks(INITIAL, msg + Padding(|msg|)))
  }

  // ----- blocks compose -----

  lemma {:induction false} BlocksAppend(r: Regs, p: seq<Byte>, q: seq<Byte>)
    requires |p| % 64 == 0
    ensures Blocks(r, p + q) == Blocks(Blocks(r, p), q)
    decreases |p|
  {
    hide Compress;
    if p == [] {
      assert p + q == q;
    } else {
      assert (p + q)[..64] == p[..64] && (p + q)[64..] == p[64..] + q;
      BlocksAppend(Compress(r, p[..64]), p[64..], q);
    }
  }
}
