/** The byte stream of a connection and the scanner that finds the end of a message
    header, __hms_parse_read_header of src/hms/hms_parser.c. */
module HmsScanner {
  import opened HmsText

  /** The receiving end of a connection. Reads may be short in any pattern: the next
      one returns a size that `sizes` chooses. An exhausted stream returns nothing. */
  class Stream {
    var data: string
    var count: nat
    const sizes: nat -> nat

    constructor (data: string, sizes: nat -> nat)
      ensures this.data == data
    {
      this.data := data;
      this.sizes := sizes;
      count := 0;
    }

    /** read(fd, p, max) */
    method Read(max: nat) returns (chunk: string)
      requires max > 0
      modifies this
      ensures |chunk| <= max && (old(data) != [] ==> chunk != [])
      ensures old(data) == chunk + data
    {
      var most := if max < |data| then max else |data|;
      var n := if most == 0 then 0 else 1 + sizes(count) % most;
      chunk := data[..n];
      data := data[n..];
      count := count + 1;
    }
  }

  // ----- where a header ends -----

  predicate Blank(c: char) {
    c == ' ' || c == '\r'
  }

  /** A dot at k with only blanks behind it, up to i. */
  predicate DotPending(s: string, i: nat, k: nat) {
    k < i <= |s| && s[k] == '.' && forall j :: k < j < i ==> Blank(s[j])
  }

  ghost predicate DotSeen(s: string, i: nat) {
    exists k: nat :: DotPending(s, i, k)
  }

  /** The prefix of length n ends in a dot, blanks and a line feed. */
  ghost predicate Ends(s: string, n: nat) {
    1 <= n <= |s| && s[n - 1] == '\n' && DotSeen(s, n - 1)
  }

  /** The header is the shortest such prefix. */
  ghost predicate HeaderAt(s: string, n: nat) {
    Ends(s, n) && forall m: nat :: m < n ==> !Ends(s, m)
  }

  lemma HeaderAtUnique(s: string, m: nat, n: nat)
    requires HeaderAt(s, m) && HeaderAt(s, n)
    ensures m == n
  {
  }

  function LastDot(s: string, n: nat): (k: int)
    requires n <= |s|
    ensures -1 <= k < n
    ensures k >= 0 ==> s[k] == '.'
    ensures forall j :: k < j < n ==> s[j] != '.'
  {
    if n == 0 then -1 else if s[n - 1] == '.' then n - 1 else LastDot(s, n - 1)
  }

  function MapCR(c: char): char {
    if c == '\r' then ' ' else c
  }

  function MapCRs(s: string): (r: string)
    ensures |r| == |s|
  {
    seq(|s|, i requires 0 <= i < |s| => MapCR(s[i]))
  }

  /** The string left in the buffer: carriage returns are blanks, the last dot is the end. */
  function HeaderText(s: string, n: nat): string
    requires n <= |s|
  {
    var k := LastDot(s, n);
    CString(MapCRs(if k < 0 then s[..n] else s[..k]))
  }

  /** In character codes: a dot, then only blanks (32) and carriage returns (13), then a
      line feed (10). */
  lemma EndsIs(s: string, n: nat)
    ensures Ends(s, n) <==>
            && 1 <= n <= |s| && s[n - 1] as int == 10
            && exists k: nat :: k < n - 1 && s[k] as int == 46 &&
                                forall j :: k < j < n - 1 ==> s[j] as int == 32 || s[j] as int == 13
  {
    if Ends(s, n) {
      var k: nat :| DotPending(s, n - 1, k);
    } else if 1 <= n <= |s| && s[n - 1] as int == 10 {
      forall k: nat | k < n - 1 && s[k] as int == 46 &&
                      forall j :: k < j < n - 1 ==> s[j] as int == 32 || s[j] as int == 13
        ensures DotPending(s, n - 1, k)
      {
      }
    }
  }

  /** The text in front of the last dot, up to a zero byte if there is one, with blanks in
      place of carriage returns. */
  lemma HeaderTextIs(s: string, n: nat, k: nat)
    requires k < n <= |s| && s[k] as int == 46 && forall j :: k < j < n ==> s[j] as int != 46
    ensures var text := HeaderText(s, n);
      && |text| <= k && (|text| < k ==> s[|text|] as int == 0)
      && forall i :: 0 <= i < |text| ==> text[i] == (if s[i] as int == 13 then ' ' else s[i]) && s[i] as int != 0
  {
    LastDotIs(s, n, k);
    var mapped := MapCRs(s[..k]);
    assert HeaderText(s, n) == CString(mapped);
    var text := CString(mapped);
    forall i | 0 <= i < |text|
      ensures text[i] == (if s[i] as int == 13 then ' ' else s[i]) && s[i] as int != 0
    {
      assert text[i] == mapped[i] == MapCR(s[i]) && text[i] in text;
    }
  }

  lemma {:induction false} CStringCut(b: string, k: nat)
    requires k < |b| && b[k] == NUL
    ensures CString(b) == CString(b[..k])
  {
    if k > 0 && b[0] != NUL {
      assert b[1..][..k - 1] == b[..k][1..];
      CStringCut(b[1..], k - 1);
    }
  }

  lemma {:induction false} LastDotIs(s: string, n: nat, k: nat)
    requires k < n <= |s| && s[k] == '.'
    requires forall j :: k < j < n ==> s[j] != '.'
    ensures LastDot(s, n) == k
  {
    if k < n - 1 {
      LastDotIs(s, n - 1, k);
    }
  }

  /** What dot_seen and dot_ptr say after `len` bytes without an end. */
  ghost predicate Scanned(s: string, len: nat, dotSeen: bool, dotPtr: nat) {
    && (if dotSeen then DotPending(s, len, dotPtr) else !DotSeen(s, len))
    && forall m: nat :: m <= len ==> !Ends(s, m)
  }

  lemma ScanOneMore(s: string, len: nat, dotSeen: bool, dotPtr: nat)
    requires len < |s| && Scanned(s, len, dotSeen, dotPtr)
    ensures Ends(s, len + 1) <==> dotSeen && s[len] == '\n'
    ensures s[len] == '.' ==> Scanned(s, len + 1, true, len)
    ensures s[len] != '.' && !Ends(s, len + 1) ==> Scanned(s, len + 1, dotSeen && Blank(s[len]), dotPtr)
  {
    assert dotSeen ==> DotSeen(s, len);
    forall k: nat | DotPending(s, len + 1, k) && k < len
      ensures DotPending(s, len, k) && Blank(s[len])
    {
    }
    if s[len] != '.' && DotSeen(s, len + 1) {
      var k: nat :| DotPending(s, len + 1, k);
      assert DotPending(s, len, k) && Blank(s[len]);
    }
  }

  lemma ScanDone(s: string, len: nat, dotPtr: nat)
    requires len < |s| && s[len] == '\n' && Scanned(s, len, true, dotPtr)
    ensures HeaderAt(s, len + 1) && LastDot(s, len + 1) == dotPtr
  {
    ScanOneMore(s, len, true, dotPtr);
    LastDotIs(s, len + 1, dotPtr);
  }

  /** Reads byte by byte until the header ends, the buffer is full or the stream is
      exhausted. The buffer has one more byte, which the caller has set to NUL. */
  method ReadHeader(stream: Stream, buffer: array<char>, bufLen: nat) returns (hdrLen: int)
    requires buffer.Length == bufLen + 1 && bufLen > 0
    modifies stream, buffer
    ensures hdrLen >= 0 ==>
              && hdrLen <= bufLen && HeaderAt(old(stream.data), hdrLen)
              && stream.data == old(stream.data)[hdrLen..]
              && CString(buffer[..]) == HeaderText(old(stream.data), hdrLen)
    ensures hdrLen < 0 ==> hdrLen == -1 && forall n: nat :: n <= bufLen ==> !HeaderAt(old(stream.data), n)
  {
    hide Ends, DotSeen, DotPending, Scanned, HeaderAt, HeaderText, CString, LastDot;
    ghost var s := stream.data;
    var len, dotSeen, isDone := 0, false, false;
    var dotPtr := 0;
    ScanStart(s);
    while len < bufLen
      invariant 0 <= len <= bufLen && len <= |s| && stream.data == s[len..] && !isDone
      invariant Scanned(s, len, dotSeen, dotPtr) && dotPtr <= len
      invariant forall j :: 0 <= j < len ==> buffer[j] == MapCR(s[j])
    {
      var chunk := stream.Read(1);
      if |chunk| != 1 {
        break;
      }
      assert chunk[0] == s[len] && stream.data == s[len + 1..];
      ScanOneMore(s, len, dotSeen, dotPtr);
      var c := chunk[0];
      if c == '\r' {
        c := ' ';
      }
      buffer[len] := c;
      len := len + 1;
      if c == '.' {
        dotSeen := true;
        dotPtr := len - 1;
        continue;
      }
      if dotSeen && c == '\n' {
        ScanDone(s, len - 1, dotPtr);
        isDone := true;
        break;
      }
      if dotSeen && c != ' ' && c != '\r' && c != '\n' {
        dotSeen := false;
      }
    }
    if !isDone {
      NoHeader(s, len, dotSeen, dotPtr);
      return -1;
    }
    buffer[dotPtr] := NUL;
    if len < bufLen {
      buffer[len] := NUL;
    }
    CutText(s, len, dotPtr, buffer[..]);
    hdrLen := len;
  }

  /** The buffer, cut at the last dot, holds the header text. */
  lemma CutText(s: string, len: nat, dotPtr: nat, b: string)
    requires len <= |s| && len <= |b| && LastDot(s, len) == dotPtr
    requires b[dotPtr] == NUL && forall j :: 0 <= j < dotPtr ==> b[j] == MapCR(s[j])
    ensures CString(b) == HeaderText(s, len)
  {
    hide CString;
    CStringCut(b, dotPtr);
    assert b[..dotPtr] == MapCRs(s[..dotPtr]);
  }

  lemma ScanStart(s: string)
    ensures Scanned(s, 0, false, 0)
  {
  }

  lemma NoHeader(s: string, len: nat, dotSeen: bool, dotPtr: nat)
    requires Scanned(s, len, dotSeen, dotPtr)
    ensures forall n: nat :: n <= len || n > |s| ==> !HeaderAt(s, n)
  {
  }
}
