/** md5_sig_to_string and md5_sig_from_string of src/md5/md5.c. */
module Md5Hex {
  import opened Md5Spec

  const MD5_SIZE := 16
  const HEX_STRING: string := "0123456789abcdef"
  const NUL: char := '\0'

  /** The two hexadecimal digits of a byte */
  function HexByte(b: Byte): (s: string)
    ensures |s| == 2
  {
    [HEX_STRING[b as int / 16], HEX_STRING[b as int % 16]]
  }

  /** The high half first, as '0' to '9' (48 to 57) and 'a' to 'f' (97 to 102). */
  lemma HexByteIs(b: Byte)
    ensures HexByte(b)[0] as int == (var high := b as int / 16; if high < 10 then 48 + high else 87 + high)
    ensures HexByte(b)[1] as int == (var low := b as int % 16; if low < 10 then 48 + low else 87 + low)
  {
  }

  function Hex(signature: seq<Byte>): (s: string)
    ensures |s| == 2 * |signature|
  {
    if signature == [] then [] else HexByte(signature[0]) + Hex(signature[1..])
  }

  lemma {:induction false} HexAppend(s: seq<Byte>, b: Byte)
    ensures Hex(s + [b]) == Hex(s) + HexByte(b)
  {
    hide HexByte;
    if s == [] {
      assert Hex([b][1..]) == [];
    } else {
      assert (s + [b])[1..] == s[1..] + [b];
      HexAppend(s[1..], b);
    }
  }

  /** Writes as many bytes as fit. The terminating NUL is missing exactly if the buffer
      length is even and at most twice the signature size. */
  method SigToString(signature: seq<Byte>, str: array<char>)
    requires |signature| == MD5_SIZE
    modifies str
    ensures var n := if str.Length / 2 < MD5_SIZE then str.Length / 2 else MD5_SIZE;
      && 2 * n <= str.Length && str[..2 * n] == Hex(signature[..n])
      && (2 * n < str.Length ==> str[2 * n] == NUL)
      && (2 * n == str.Length <==> str.Length % 2 == 0 && str.Length <= 2 * MD5_SIZE)
  {
    hide Hex;
    HexOfNothing();
    var i, p := 0, 0;
    while i < MD5_SIZE
      invariant 0 <= i <= MD5_SIZE && p == 2 * i <= str.Length && str[..p] == Hex(signature[..i])
    {
      var high, low := signature[i] as int / 16, signature[i] as int % 16;
      if p + 1 >= str.Length {
        break;
      }
      str[p] := HEX_STRING[high];
      str[p + 1] := HEX_STRING[low];
      HexAppend(signature[..i], signature[i]);
      assert signature[..i + 1] == signature[..i] + [signature[i]];
      p := p + 2;
      i := i + 1;
    }
    if p < str.Length {
      str[p] := NUL;
    }
  }

  lemma HexOfNothing()
    ensures Hex([]) == ""
  {
  }

  predicate IsHexDigit(c: char) {
    '0' <= c <= '9' || 'a' <= c <= 'f'
  }

  /** strchr(hex, c) - hex */
  function HexValue(c: char): (v: int)
    requires IsHexDigit(c)
    ensures 0 <= v < 16 && HEX_STRING[v] == c
  {
    if '0' <= c <= '9' then (c - '0') as int else 10 + (c - 'a') as int
  }

  /** The signature whose hexadecimal form is the first 32 characters. */
  method SigFromString(str: string) returns (signature: seq<Byte>)
    requires 2 * MD5_SIZE <= |str| && forall i :: 0 <= i < 2 * MD5_SIZE ==> IsHexDigit(str[i])
    ensures |signature| == MD5_SIZE && Hex(signature) == str[..2 * MD5_SIZE]
  {
    hide Hex;
    signature := [];
    var p := 0;
    HexOfNothing();
    while p < 2 * MD5_SIZE
      invariant 0 <= p <= 2 * MD5_SIZE && p == 2 * |signature| && Hex(signature) == str[..p]
    {
      var high, low := HexValue(str[p]), HexValue(str[p + 1]);
      var val := (high * 16 + low) as Byte;
      assert val as int / 16 == high && val as int % 16 == low;
      HexAppend(signature, val);
      assert str[..p + 2] == str[..p] + [str[p], str[p + 1]];
      signature := signature + [val];
      p := p + 2;
    }
  }

  lemma DigitsDiffer(i: nat, j: nat)
    requires i < 16 && j < 16 && HEX_STRING[i] == HEX_STRING[j]
    ensures i == j
  {
  }

  /** A signature is determined by its hexadecimal form, so that the two conversions
      undo each other. */
  lemma {:induction false} HexInjective(s: seq<Byte>, t: seq<Byte>)
    requires Hex(s) == Hex(t)
    ensures s == t
  {
    if s != [] && t != [] {
      assert Hex(s)[0] == Hex(t)[0] && Hex(s)[1] == Hex(t)[1];
      DigitsDiffer(s[0] as int / 16, t[0] as int / 16);
      DigitsDiffer(s[0] as int % 16, t[0] as int % 16);
      assert Hex(s)[2..] == Hex(s[1..]) && Hex(t)[2..] == Hex(t[1..]);
      HexInjective(s[1..], t[1..]);
    }
  }
}
