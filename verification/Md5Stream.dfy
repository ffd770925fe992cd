/** md5_init, md5_process, md5_finish and md5_buffer of src/md5/md5.c. The state
    after a given input is not unique, so the digest is tied to the bytes consumed
    through an invariant, not through the state. */
module Md5Stream {
  import opened Md5Spec
  import opened Md5Block
  import Md5Bits

  const MD5_BLOCK_SIZE := 64
  const MAX_MD5_UINT32 := TWO32 - 1

  // A quotient and a remainder are what they are because they add up.

  lemma Is256(a: int, q: int, r: int)
    requires a == 256 * q + r && 0 <= r < 256
    ensures a / 256 == q && a % 256 == r
  {
  }

  lemma Is64(a: int, q: int, r: int)
    requires a == 64 * q + r && 0 <= r < 64
    ensures a / 64 == q && a % 64 == r
  {
  }

  lemma IsTwo32(a: int, q: int, r: int)
    requires a == TWO32 * q + r && 0 <= r < TWO32
    ensures a / TWO32 == q && a % TWO32 == r
  {
  }

  lemma IsTwo64(a: int, q: int, r: int)
    requires a == TWO64 * q + r && 0 <= r < TWO64
    ensures a / TWO64 == q && a % TWO64 == r
  {
  }

  lemma BlocksStep(r: Regs, data: seq<Byte>, pos: nat)
    requires pos + 64 <= |data|
    ensures Blocks(r, data[pos..]) == Blocks(Compress(r, data[pos..pos + 64]), data[pos + 64..])
  {
    hide Compress;
    assert data[pos..][..64] == data[pos..pos + 64] && data[pos..][64..] == data[pos + 64..];
  }

  lemma NoBlocks(r: Regs, data: seq<Byte>)
    requires |data| < 64
    ensures Blocks(r, data) == r
  {
  }

  /** The length masked with the complement of BLOCK_SIZE_MASK (Md5Bits.BlockMask). */
  function WholeBlocks(n: nat): nat {
    n / MD5_BLOCK_SIZE * MD5_BLOCK_SIZE
  }

  lemma WholeBlocksBounds(n: nat)
    ensures WholeBlocks(n) <= n < WholeBlocks(n) + MD5_BLOCK_SIZE && WholeBlocks(n) % MD5_BLOCK_SIZE == 0
    ensures n - WholeBlocks(n) == n % MD5_BLOCK_SIZE
  {
    Is64(WholeBlocks(n), n / 64, 0);
  }

  lemma WholeBlocksOfBuffer(n: nat)
    requires MD5_BLOCK_SIZE < n <= 2 * MD5_BLOCK_SIZE
    ensures WholeBlocks(n) == if n < 2 * MD5_BLOCK_SIZE then MD5_BLOCK_SIZE else 2 * MD5_BLOCK_SIZE
  {
  }

  function Power256(n: nat): (p: nat)
    ensures p > 0
  {
    if n == 0 then 1 else 256 * Power256(n - 1)
  }

  lemma Power256Step(n: nat, high: nat)
    requires n > 0
    ensures Power256(n) * high == 256 * (Power256(n - 1) * high)
  {
  }

  lemma {:induction false} LowBytesSplit(low: nat, high: nat, m: nat, n: nat)
    requires low < Power256(m)
    ensures LowBytes(low + Power256(m) * high, m + n) == LowBytes(low, m) + LowBytes(high, n)
  {
    if m > 0 {
      var p := Power256(m - 1) * high;
      Power256Step(m, high);
      Is256(low + 256 * p, low / 256 + p, low % 256);
      LowBytesSplit(low / 256, high, m - 1, n);
    } else {
      assert Power256(0) * high == high;
    }
  }

  /** The words 8 * total0 mod 2^32 and 8 * total1 + the three bits shifted out. */
  lemma ShiftedWords(total0: Word, total1: Word)
    ensures var a, b, c, d := total0 / 0x2000_0000, total0 % 0x2000_0000, total1 / 0x2000_0000, total1 % 0x2000_0000;
      && 0 <= a < 8 && 0 <= c < 8
      && total0 == 0x2000_0000 * a + b && total1 == 0x2000_0000 * c + d
      && total1 * 8 % TWO32 == 8 * d
  {
    IsTwo32(total1 * 8, total1 / 0x2000_0000, total1 % 0x2000_0000 * 8);
  }

  /** The two words that md5_finish writes are the length in bits modulo 2^64. */
  lemma BitLengthWords(len: nat, total0: Word, total1: Word)
    requires total0 + TWO32 * total1 == len % TWO64
    ensures var low := total0 % 0x2000_0000 * 8;
      var high := (total1 * 8) % TWO32 + total0 / 0x2000_0000;
      low < TWO32 && high < TWO32 && low + TWO32 * high == 8 * len % TWO64
  {
    ShiftedWords(total0, total1);
    var c, q := total1 / 0x2000_0000, len / TWO64;
    var low, high := total0 % 0x2000_0000 * 8, (total1 * 8) % TWO32 + total0 / 0x2000_0000;
    assert len == TWO64 * q + (total0 + TWO32 * total1);
    IsTwo64(8 * len, 8 * q + c, low + TWO32 * high);
  }

  /** The same for the masks, shifts and the bitwise or of the code. */
  lemma BitLengthOfCode(len: nat, total0: bv32, total1: bv32)
    requires FromBits(total0) + TWO32 * FromBits(total1) == len % TWO64
    ensures FromBits(Md5Bits.LowLength(total0)) + TWO32 * FromBits(Md5Bits.HighLength(total1, total0)) ==
            8 * len % TWO64
  {
    hide FromBits, Md5Bits.LowLength, Md5Bits.HighLength;
    Md5Bits.LengthValues(total1, total0);
    BitLengthWords(len, FromBits(total0), FromBits(total1));
  }

  lemma LowBytesOfWords(low: Word, high: Word)
    ensures LowBytes(low + TWO32 * high, 8) == LowBytes(low, 4) + LowBytes(high, 4)
  {
    assert Power256(4) == TWO32;
    LowBytesSplit(low, high, 4, 4);
  }

  /** The padding computed from the bytes in the buffer is the one RFC 1321 asks for. */
  lemma PadIsZeros(len: nat, bytes: nat, pad: int)
    requires len % 64 == bytes % 64 && bytes <= 64
    requires pad == if bytes < 56 then 56 - bytes else 120 - bytes
    ensures pad == Zeros(len) + 1
  {
  }

  lemma PendingLength(x: nat, n: nat)
    requires x % 64 == 0
    ensures (x + n) % 64 == n % 64
  {
    Is64(x + n, x / 64 + n / 64, n % 64);
  }

  lemma CountWraps(x: nat, n: nat)
    ensures (x % TWO64 + n) % TWO64 == (x + n) % TWO64
  {
    var y := x % TWO64 + n;
    IsTwo64(x + n, x / TWO64 + y / TWO64, y % TWO64);
  }

  lemma WholeBlocksAdd(x: nat, n: nat)
    requires x % 64 == 0 && n % 64 == 0
    ensures (x + n) % 64 == 0
  {
    Is64(x + n, x / 64 + n / 64, 0);
  }

  lemma Rejoin(a: seq<Byte>, s: seq<Byte>, n: nat)
    requires n <= |s|
    ensures (a + s[..n]) + s[n..] == a + s
  {
  }

  /** The two cases of the double-word increment */
  lemma CounterWraps(total0: Word, total1: Word, n: Word)
    ensures var sum := total0 + TWO32 * total1 + n;
      sum % TWO64 == if total0 + n < TWO32 then sum else total0 + n - TWO32 + TWO32 * ((total1 + 1) % TWO32)
  {
    var sum := total0 + TWO32 * total1 + n;
    if total0 + n < TWO32 {
      IsTwo64(sum, 0, sum);
    } else if total1 + 1 < TWO32 {
      IsTwo32(total1 + 1, 0, total1 + 1);
      IsTwo64(sum, 0, sum);
    } else {
      IsTwo32(total1 + 1, 1, 0);
      IsTwo64(sum, 1, total0 + n - TWO32);
    }
  }

  /** How many bytes md5_process copies behind the `inBlock` bytes of its buffer. */
  function TopUp(inBlock: Word, len: Word): nat
    requires inBlock <= MD5_BLOCK_SIZE
  {
    if (inBlock + len) % TWO32 > 2 * MD5_BLOCK_SIZE then 2 * MD5_BLOCK_SIZE - inBlock else len
  }

  lemma TopUpIs(inBlock: Word, len: Word)
    requires inBlock <= MD5_BLOCK_SIZE && inBlock + len < TWO32
    ensures TopUp(inBlock, len) ==
            if inBlock + len > 2 * MD5_BLOCK_SIZE then 2 * MD5_BLOCK_SIZE - inBlock else len
  {
  }

  /** The copy stays inside the buffer exactly when the 32-bit sum does not wrap. */
  lemma TopUpFits(inBlock: Word, len: Word)
    requires inBlock <= MD5_BLOCK_SIZE
    ensures inBlock + TopUp(inBlock, len) <= 2 * MD5_BLOCK_SIZE <==> inBlock + len < TWO32
  {
    if inBlock + len >= TWO32 {
      assert (inBlock + len) % TWO32 == inBlock + len - TWO32;
    }
  }

  /** md_buf_len after md5_process. The number of bytes alone does not determine it: a
      buffer of exactly one block is kept, and so is a rest of exactly one block behind
      a buffer that was topped up to two. */
  function NextBufLen(inBlock: Word, len: Word): (r: Word)
    requires inBlock <= MD5_BLOCK_SIZE
    ensures r <= MD5_BLOCK_SIZE && r % MD5_BLOCK_SIZE == (inBlock + len) % MD5_BLOCK_SIZE
  {
    var total := inBlock + len;
    if total <= MD5_BLOCK_SIZE then total
    else if inBlock > 0 && total == 3 * MD5_BLOCK_SIZE then MD5_BLOCK_SIZE
    else total % MD5_BLOCK_SIZE
  }

  /** Bytes in the buffer when `len` bytes go to an empty one, whole blocks apart. */
  function AfterAbsorb(inBlock: Word, len: Word): Word {
    if len == 0 then inBlock else if len > MD5_BLOCK_SIZE then len % MD5_BLOCK_SIZE else len
  }

  /** Bytes in the buffer after topping it up, if that takes all the input. */
  function AfterFill(total: nat): Word
    requires total <= 2 * MD5_BLOCK_SIZE
  {
    if total > MD5_BLOCK_SIZE then total % MD5_BLOCK_SIZE else total
  }

  lemma NothingToAbsorb()
    ensures forall inBlock :: AfterAbsorb(inBlock, 0) == inBlock
  {
  }

  /** The two parts of md5_process together. */
  lemma NextBufLenIs(inBlock: Word, len: Word)
    requires inBlock <= MD5_BLOCK_SIZE && inBlock + len < TWO32
    ensures NextBufLen(inBlock, len) ==
            if inBlock == 0 then AfterAbsorb(0, len)
            else if inBlock + len > 2 * MD5_BLOCK_SIZE then AfterAbsorb(0, inBlock + len - 2 * MD5_BLOCK_SIZE)
            else AfterFill(inBlock + len)
  {
    var total := inBlock + len;
    if inBlock > 0 && total > 2 * MD5_BLOCK_SIZE {
      Is64(total - 2 * MD5_BLOCK_SIZE, total / 64 - 2, total % 64);
    }
  }

  class Md5 {
    var mdA: Word
    var mdB: Word
    var mdC: Word
    var mdD: Word
    var total0: Word  // md_total[0]
    var total1: Word  // md_total[1]
    var bufLen: Word
    const buffer: array<Byte>
    ghost var compressed: seq<Byte>  // the bytes that process_block has consumed

    ghost function Regs(): Regs
      reads `mdA, `mdB, `mdC, `mdD
    {
      Md5Spec.Regs(mdA, mdB, mdC, mdD)
    }

    /** The registers and the counter belong to the compressed bytes. */
    ghost predicate Sound()
      reads `mdA, `mdB, `mdC, `mdD, `total0, `total1, `compressed
    {
      && buffer.Length == 2 * MD5_BLOCK_SIZE
      && |compressed| % MD5_BLOCK_SIZE == 0
      && Regs() == Blocks(INITIAL, compressed)
      && total0 + TWO32 * total1 == |compressed| % TWO64
    }

    ghost predicate Valid()
      reads this
    {
      Sound() && buffer.Length == 2 * MD5_BLOCK_SIZE && bufLen <= MD5_BLOCK_SIZE
    }

    /** Everything fed in since md5_init. */
    ghost function Input(): seq<Byte>
      requires Valid()
      reads this, buffer
    {
      compressed + buffer[..bufLen]
    }

    constructor ()
      ensures Valid() && Input() == [] && fresh(buffer) && bufLen == 0
    {
      mdA, mdB, mdC, mdD := 0x67452301, 0xefcdab89, 0x98badcfe, 0x10325476;
      total0, total1 := 0, 0;
      bufLen := 0;
      buffer := new Byte[2 * MD5_BLOCK_SIZE];
      compressed := [];
    }

    /** The double-word increment, as process_block and md5_finish write it. */
    method CountBytes(n: Word)
      modifies this`total0, this`total1
      ensures total0 + TWO32 * total1 == (old(total0 + TWO32 * total1) + n) % TWO64
    {
      CounterWraps(total0, total1, n);
      if total0 > MAX_MD5_UINT32 - n {
        total1 := (total1 + 1) % TWO32;
        total0 := total0 - (MAX_MD5_UINT32 + 1 - n);
      } else {
        total0 := total0 + n;
      }
    }

    method ProcessBlock(data: seq<Byte>)
      requires |data| < TWO32 && |data| % MD5_BLOCK_SIZE == 0
      modifies this`mdA, this`mdB, this`mdC, this`mdD, this`total0, this`total1
      ensures Regs() == Blocks(old(Regs()), data)
      ensures total0 + TWO32 * total1 == (old(total0 + TWO32 * total1) + |data|) % TWO64
    {
      hide Compress, Blocks;
      CountBytes(|data|);
      ghost var k, n := 0, |data| / MD5_BLOCK_SIZE;
      var a, b, c, d := mdA, mdB, mdC, mdD;
      var pos := 0;
      while pos < |data|
        invariant 0 <= k <= n && pos == MD5_BLOCK_SIZE * k
        invariant Blocks(Md5Spec.Regs(a, b, c, d), data[pos..]) == Blocks(old(Regs()), data)
        modifies {}
      {
        BlocksStep(Md5Spec.Regs(a, b, c, d), data, pos);
        a, b, c, d := ProcessOneBlock(data[pos..pos + 64], a, b, c, d);
        pos, k := pos + 64, k + 1;
      }
      NoBlocks(Md5Spec.Regs(a, b, c, d), data[pos..]);
      mdA, mdB, mdC, mdD := a, b, c, d;
    }

    /** memcpy into the buffer. */
    method Store(at: nat, src: seq<Byte>)
      requires at + |src| <= buffer.Length
      modifies buffer
      ensures buffer[..at + |src|] == old(buffer[..at]) + src
    {
      forall i | 0 <= i < |src| {
        buffer[at + i] := src[i];
      }
    }

    /** Compresses bytes that come next in the input. */
    method Consume(data: seq<Byte>)
      requires Sound() && |data| < TWO32 && |data| % MD5_BLOCK_SIZE == 0
      modifies this`mdA, this`mdB, this`mdC, this`mdD, this`total0, this`total1, this`compressed
      ensures Sound() && compressed == old(compressed) + data
    {
      hide Blocks;
      BlocksAppend(INITIAL, compressed, data);
      CountWraps(|compressed|, |data|);
      WholeBlocksAdd(|compressed|, |data|);
      ProcessBlock(data);
      compressed := compressed + data;
    }

    /** memcpy of the last bytes of the buffer to its front. */
    method MoveToFront(from: nat, to: nat)
      requires from <= to <= buffer.Length
      modifies buffer
      ensures buffer[..to - from] == old(buffer[from..to])
    {
      Store(0, buffer[from..to]);
    }

    /** Compresses the whole blocks of a buffer that holds more than one block and
        moves the rest to its front. */
    method Flush()
      requires Sound() && MD5_BLOCK_SIZE < bufLen <= buffer.Length == 2 * MD5_BLOCK_SIZE
      modifies this, buffer
      ensures Valid() && Input() == old(compressed + buffer[..bufLen])
      ensures bufLen == old(bufLen) % MD5_BLOCK_SIZE
    {
      hide Sound, WholeBlocks, Blocks;
      ghost var full, was := buffer[..bufLen], compressed;
      var whole := WholeBlocks(bufLen);
      WholeBlocksOfBuffer(bufLen);
      Rejoin(was, full, whole);
      Consume(buffer[..whole]);
      MoveToFront(whole, bufLen);
      bufLen := bufLen - whole;
      assert compressed == was + full[..whole] && buffer[..bufLen] == full[whole..];
    }

    /** The first part of md5_process: tops up a buffer that is not empty and
        compresses it once it holds more than one block. */
    method Fill(data: seq<Byte>) returns (rest: seq<Byte>)
      requires Valid() && 0 < bufLen && bufLen + |data| < TWO32
      modifies this, buffer
      ensures Valid() && Input() + rest == old(Input()) + data
      ensures rest != [] ==> bufLen == 0
      ensures var total := old(bufLen) + |data|;
        if total > 2 * MD5_BLOCK_SIZE then |rest| == total - 2 * MD5_BLOCK_SIZE
        else rest == [] && bufLen == AfterFill(total)
    {
      hide Sound, TopUp;
      ghost var input := Input();
      var inBlock := bufLen;
      var add := TopUp(inBlock, |data|);
      TopUpIs(inBlock, |data|);
      Store(inBlock, data[..add]);
      bufLen := bufLen + add;
      inBlock := inBlock + add;
      assert compressed + buffer[..inBlock] == input + data[..add];
      if inBlock > MD5_BLOCK_SIZE {
        Flush();
      }
      rest := data[add..];
      Rejoin(input, data, add);
    }

    /** The last two parts of md5_process: whole blocks straight from the caller's
        bytes, and the remaining ones into the empty buffer. */
    method Absorb(data: seq<Byte>)
      requires Valid() && (data != [] ==> bufLen == 0) && |data| < TWO32
      modifies this, buffer
      ensures Valid() && Input() == old(Input()) + data
      ensures bufLen == AfterAbsorb(old(bufLen), |data|)
    {
      hide Sound, WholeBlocks;
      ghost var input := Input();
      var rest := data;
      if |rest| > MD5_BLOCK_SIZE {
        var whole := WholeBlocks(|rest|);
        WholeBlocksBounds(|rest|);
        Consume(rest[..whole]);
        rest := rest[whole..];
        assert data == data[..whole] + rest;
        assert Input() + rest == input + data;
      }
      if |rest| > 0 {
        Store(0, rest);
        bufLen := |rest|;
      }
    }

    /** in_block + len is computed in 32 bits, so the caller must not let it wrap unless
        the buffer is empty. */
    method Process(data: seq<Byte>)
      requires Valid() && bufLen + |data| < TWO32
      modifies this, buffer
      ensures Valid() && Input() == old(Input()) + data
      ensures bufLen == NextBufLen(old(bufLen), |data|)
    {
      hide Sound, Input, NextBufLen, AfterAbsorb, AfterFill;
      NextBufLenIs(bufLen, |data|);
      NothingToAbsorb();
      var rest := data;
      if bufLen > 0 {
        rest := Fill(data);
      }
      Absorb(rest);
    }

    /** md5_get_result: memcpy of each register on a little-endian machine. */
    method GetResult() returns (result: seq<Byte>)
      ensures result == Output(Regs())
    {
      result := LowBytes(mdA, 4);
      result := result + LowBytes(mdB, 4);
      result := result + LowBytes(mdC, 4);
      result := result + LowBytes(mdD, 4);
    }

    /** Pads the pending bytes to 8 bytes short of a block. */
    method PadBuffer(ghost len: nat) returns (bytes: nat)
      requires buffer.Length == 2 * MD5_BLOCK_SIZE && bufLen <= MD5_BLOCK_SIZE
      requires len % MD5_BLOCK_SIZE == bufLen % MD5_BLOCK_SIZE
      modifies buffer
      ensures bytes == MD5_BLOCK_SIZE - 8 || bytes == 2 * MD5_BLOCK_SIZE - 8
      ensures buffer[..bytes] == old(buffer[..bufLen]) + ([0x80] + seq(Zeros(len), _ => 0))
    {
      bytes := bufLen;
      var pad: int := MD5_BLOCK_SIZE - 8 - bytes;
      if pad <= 0 {
        pad := pad + MD5_BLOCK_SIZE;
      }
      PadIsZeros(len, bytes, pad);
      Store(bytes, [0x80]);
      if pad > 1 {
        Store(bytes + 1, seq(pad - 1, _ => 0));
      }
      bytes := bytes + pad;
    }

    /** Writes the length in bits behind the padding. */
    method PutLength(at: nat, ghost len: nat)
      requires at + 8 <= buffer.Length
      requires total0 + TWO32 * total1 == len % TWO64
      modifies buffer
      ensures buffer[..at + 8] == old(buffer[..at]) + LowBytes(8 * len % TWO64, 8)
    {
      hide LowBytes;
      var low := total0 % 0x2000_0000 * 8;
      var high := (total1 * 8) % TWO32 + total0 / 0x2000_0000;
      BitLengthWords(len, total0, total1);
      LowBytesOfWords(low, high);
      Store(at, LowBytes(low, 4));
      Store(at + 4, LowBytes(high, 4));
    }

    /** The counter takes the pending bytes into account. */
    method FinishCount()
      requires Valid()
      modifies this`total0, this`total1
      ensures total0 + TWO32 * total1 == old(|Input()|) % TWO64
    {
      hide Blocks;
      CountWraps(|compressed|, bufLen);
      CountBytes(bufLen);
    }

    /** After this call the structure is no longer valid. */
    method Finish() returns (signature: seq<Byte>)
      requires Valid()
      modifies this, buffer
      ensures signature == Digest(old(Input()))
    {
      hide Blocks, Zeros, LowBytes;
      ghost var input, pending := Input(), buffer[..bufLen];
      PendingLength(|compressed|, bufLen);
      FinishCount();
      var bytes := PadBuffer(|input|);
      PutLength(bytes, |input|);
      bytes := bytes + 8;
      assert buffer[..bytes] == pending + Padding(|input|);
      assert compressed + buffer[..bytes] == input + Padding(|input|);
      BlocksAppend(INITIAL, compressed, buffer[..bytes]);
      ProcessBlock(buffer[..bytes]);
      signature := GetResult();
    }
  }

  /** The digest of a buffer in one call. */
  method Md5Buffer(data: seq<Byte>) returns (signature: seq<Byte>)
    requires |data| < TWO32
    ensures signature == Digest(data)
  {
    var md5 := new Md5();
    md5.Process(data);
    assert [] + data == data;
    signature := md5.Finish();
  }

  function Concat(chunks: seq<seq<Byte>>): seq<Byte> {
    if chunks == [] then [] else chunks[0] + Concat(chunks[1..])
  }

  lemma ConcatStep(s: seq<Byte>, chunks: seq<seq<Byte>>, i: nat)
    requires i < |chunks|
    ensures (s + chunks[i]) + Concat(chunks[i + 1..]) == s + Concat(chunks[i..])
  {
    assert chunks[i..][1..] == chunks[i + 1..];
  }

  /** No call wraps the 32-bit sum, given what its predecessors leave in the buffer. */
  predicate ChunksFit(inBlock: Word, chunks: seq<seq<Byte>>)
    requires inBlock <= MD5_BLOCK_SIZE
    decreases |chunks|
  {
    chunks == [] ||
    (inBlock + |chunks[0]| < TWO32 && ChunksFit(NextBufLen(inBlock, |chunks[0]|), chunks[1..]))
  }

  /** The copy of every call stays inside the buffer. */
  predicate CopiesFit(inBlock: Word, chunks: seq<seq<Byte>>)
    requires inBlock <= MD5_BLOCK_SIZE && forall c :: c in chunks ==> |c| < TWO32
    decreases |chunks|
  {
    chunks == [] ||
    ((inBlock == 0 || inBlock + TopUp(inBlock, |chunks[0]|) <= 2 * MD5_BLOCK_SIZE) &&
     CopiesFit(NextBufLen(inBlock, |chunks[0]|), chunks[1..]))
  }

  /** For chunks whose length is an unsigned int, that is the exact condition. */
  lemma {:induction false} ChunksFitExactly(inBlock: Word, chunks: seq<seq<Byte>>)
    requires inBlock <= MD5_BLOCK_SIZE && forall c :: c in chunks ==> |c| < TWO32
    ensures ChunksFit(inBlock, chunks) <==> CopiesFit(inBlock, chunks)
    decreases |chunks|
  {
    if chunks != [] {
      TopUpFits(inBlock, |chunks[0]|);
      ChunksFitExactly(NextBufLen(inBlock, |chunks[0]|), chunks[1..]);
    }
  }

  lemma ChunksFitStep(inBlock: Word, chunks: seq<seq<Byte>>, i: nat)
    requires inBlock <= MD5_BLOCK_SIZE && i < |chunks| && ChunksFit(inBlock, chunks[i..])
    ensures inBlock + |chunks[i]| < TWO32
    ensures ChunksFit(NextBufLen(inBlock, |chunks[i]|), chunks[i + 1..])
  {
    assert chunks[i..][1..] == chunks[i + 1..];
  }

  /** The documented way to digest data that arrives in pieces. However the data is
      cut, the signature is the digest of the whole. */
  method Md5Chunks(chunks: seq<seq<Byte>>) returns (signature: seq<Byte>)
    requires ChunksFit(0, chunks)
    ensures signature == Digest(Concat(chunks))
  {
    hide Digest, Blocks, ChunksFit, NextBufLen;
    var md5 := new Md5();
    assert chunks[0..] == chunks;
    var i := 0;
    while i < |chunks|
      invariant 0 <= i <= |chunks| && md5.Valid() && fresh(md5) && fresh(md5.buffer)
      invariant md5.Input() + Concat(chunks[i..]) == Concat(chunks)
      invariant ChunksFit(md5.bufLen, chunks[i..])
    {
      ChunksFitStep(md5.bufLen, chunks, i);
      ConcatStep(md5.Input(), chunks, i);
      md5.Process(chunks[i]);
      i := i + 1;
    }
    assert chunks[i..] == [] && md5.Input() + [] == md5.Input();
    signature := md5.Finish();
  }
}
