/** The C library calls that the parser relies on, as functions on strings. A byte
    is a char. */
module HmsText {
  import opened Common

  const NUL: char := '\0'

  // ----- C strings -----

  /** What a char pointer to `s` denotes: the characters before the first NUL. */
  function CString(s: string): (r: string)
    ensures r <= s && NUL !in r
    ensures NUL !in s ==> r == s
    ensures |r| < |s| ==> s[|r|] as int == 0
  {
    if s == [] || s[0] == NUL then [] else [s[0]] + CString(s[1..])
  }

  // ----- strtok_r -----

  /** Length of the longest prefix of characters outside `seps`. */
  function Span(s: string, seps: set<char>): (n: nat)
    ensures n <= |s| && (forall i :: 0 <= i < n ==> s[i] !in seps)
    ensures n < |s| ==> s[n] in seps
  {
    if s == [] || s[0] in seps then 0 else 1 + Span(s[1..], seps)
  }

  function SkipSeps(s: string, seps: set<char>): (r: string)
    ensures |r| <= |s| && (r != [] ==> r[0] !in seps)
  {
    if s != [] && s[0] in seps then SkipSeps(s[1..], seps) else s
  }

  /** One call of strtok_r: the next token and what it leaves behind, if any. */
  function NextToken(s: string, seps: set<char>): (r: Option<(string, string)>)
    ensures r.Some? ==> r.value.0 != [] && |r.value.1| < |s|
  {
    var t := SkipSeps(s, seps);
    if t == [] then None
    else
      var n := Span(t, seps);
      Some((t[..n], if n < |t| then t[n + 1..] else []))
  }

  /** The tokens that repeated calls of strtok_r return. */
  function Tokens(s: string, seps: set<char>): (r: seq<string>)
    decreases |s|
  {
    match NextToken(s, seps)
    case None => []
    case Some((token, rest)) => [token] + Tokens(rest, seps)
  }

  // ----- isspace and trimming -----

  predicate IsSpace(c: char) {
    c == ' ' || c == '\t' || c == '\n' || c == '\r' || c == '\U{0b}' || c == '\U{0c}'
  }

  function TrimLeft(s: string): (r: string)
    ensures |r| <= |s|
    ensures s == [] || !IsSpace(s[0]) ==> r == s
  {
    if s != [] && IsSpace(s[0]) then TrimLeft(s[1..]) else s
  }

  function TrimRight(s: string): (r: string)
    ensures r <= s
    ensures s == [] || !IsSpace(s[|s| - 1]) ==> r == s
  {
    if s != [] && IsSpace(s[|s| - 1]) then TrimRight(s[..|s| - 1]) else s
  }

  function Trim(s: string): string {
    TrimRight(TrimLeft(s))
  }

  predicate Trimmed(s: string) {
    s == [] || (!IsSpace(s[0]) && !IsSpace(s[|s| - 1]))
  }

  // ----- strcasecmp -----

  function ToLower(c: char): char {
    if 'A' <= c <= 'Z' then c - 'A' + 'a' else c
  }

  function Lower(s: string): (r: string)
    ensures |r| == |s|
  {
    seq(|s|, i requires 0 <= i < |s| => ToLower(s[i]))
  }

  /** strcasecmp returns 0. */
  predicate SameKey(a: string, b: string) {
    Lower(a) == Lower(b)
  }

  // ----- sprintf "%d", strtol and atoi -----

  predicate IsDigit(c: char) {
    '0' <= c <= '9'
  }

  function Digit(d: nat): (c: char)
    requires d < 10
    ensures IsDigit(c)
  {
    '0' + d as char
  }

  function DigitValue(c: char): (d: nat)
    requires IsDigit(c)
    ensures d < 10
  {
    (c - '0') as int
  }

  /** sprintf(s, "%d", n) for n >= 0 */
  function Decimal(n: nat): (s: string)
    ensures s != [] && forall i :: 0 <= i < |s| ==> IsDigit(s[i])
  {
    if n < 10 then [Digit(n)] else Decimal(n / 10) + [Digit(n % 10)]
  }

  /** The number that a prefix of digits denotes. */
  function Digits(s: string, acc: nat): nat {
    if s != [] && IsDigit(s[0]) then Digits(s[1..], 10 * acc + DigitValue(s[0])) else acc
  }

  /** strtol in base 10 without a limit on the result */
  function Numeral(s: string): int {
    var t := TrimLeft(s);
    if t != [] && t[0] == '-' then -(Digits(t[1..], 0) as int)
    else if t != [] && t[0] == '+' then Digits(t[1..], 0)
    else Digits(t, 0)
  }

  const LONG_MAX: int := 0x7fff_ffff_ffff_ffff

  /** (int) strtol(s, NULL, 10), also atoi(s): strtol saturates at the bounds of long,
      the conversion to int keeps the low 32 bits. */
  function Atoi(s: string): (n: int)
    ensures -INT_MAX - 1 <= n <= INT_MAX
  {
    var v := Numeral(s);
    var long := if v > LONG_MAX then LONG_MAX else if v < -LONG_MAX - 1 then -LONG_MAX - 1 else v;
    (long + INT_MAX + 1) % (2 * (INT_MAX + 1)) - (INT_MAX + 1)
  }

  // ----- what these functions compute, in terms of character codes -----

  /** The same character, or the same letter in the other case. */
  predicate Alike(a: char, b: char) {
    || a == b
    || (65 <= a as int <= 90 && b as int == a as int + 32)
    || (65 <= b as int <= 90 && a as int == b as int + 32)
  }

  predicate AlikeKeys(a: string, b: string) {
    |a| == |b| && forall i :: 0 <= i < |a| ==> Alike(a[i], b[i])
  }

  lemma ToLowerIs(a: char, b: char)
    ensures ToLower(a) == ToLower(b) <==> Alike(a, b)
  {
  }

  /** strcasecmp compares letters without their case and everything else as it is. */
  lemma SameKeyIs(a: string, b: string)
    ensures SameKey(a, b) <==> AlikeKeys(a, b)
  {
    if SameKey(a, b) {
      forall i | 0 <= i < |a|
        ensures Alike(a[i], b[i])
      {
        assert Lower(a)[i] == Lower(b)[i];
        ToLowerIs(a[i], b[i]);
      }
    } else if AlikeKeys(a, b) {
      forall i | 0 <= i < |a|
        ensures Lower(a)[i] == Lower(b)[i]
      {
        ToLowerIs(a[i], b[i]);
      }
    }
  }

  /** Space, tab, line feed, vertical tab, form feed and carriage return. */
  predicate Blanks(s: string) {
    forall i :: 0 <= i < |s| ==> s[i] as int == 32 || 9 <= s[i] as int <= 13
  }

  lemma {:induction false} TrimLeftIs(s: string) returns (i: nat)
    ensures i <= |s| && TrimLeft(s) == s[i..] && Blanks(s[..i])
    ensures i < |s| ==> !IsSpace(s[i])
  {
    if s != [] && IsSpace(s[0]) {
      i := TrimLeftIs(s[1..]);
      assert s[..i + 1] == [s[0]] + s[1..][..i];
      i := i + 1;
    } else {
      i := 0;
    }
  }

  lemma BlanksEnd(b: string, c: char)
    requires Blanks(b) && IsSpace(c)
    ensures Blanks(b + [c])
  {
  }

  lemma {:induction false} TrimRightIs(s: string) returns (j: nat)
    ensures j <= |s| && TrimRight(s) == s[..j] && Blanks(s[j..])
    ensures j > 0 ==> !IsSpace(s[j - 1])
  {
    hide IsSpace;
    if s != [] && IsSpace(s[|s| - 1]) {
      var t := s[..|s| - 1];
      j := TrimRightIs(t);
      assert s[j..] == t[j..] + [s[|s| - 1]] && s[..j] == t[..j];
      BlanksEnd(t[j..], s[|s| - 1]);
    } else {
      j := |s|;
    }
  }

  /** What is cut off at both ends is blank, and what is left neither begins nor ends
      with a blank. */
  lemma TrimIs(s: string) returns (i: nat, j: nat)
    ensures i <= j <= |s| && Trim(s) == s[i..j] && Trimmed(Trim(s))
    ensures Blanks(s[..i]) && Blanks(s[j..])
  {
    i := TrimLeftIs(s);
    var k := TrimRightIs(s[i..]);
    j := i + k;
    assert s[i..][..k] == s[i..j] && s[i..][k..] == s[j..];
  }

  lemma {:induction false} TrimLeftBlanks(b: string, s: string)
    requires Blanks(b)
    ensures TrimLeft(b + s) == TrimLeft(s)
  {
    if b == [] {
      assert b + s == s;
    } else {
      assert (b + s)[1..] == b[1..] + s;
      TrimLeftBlanks(b[1..], s);
    }
  }

  lemma {:induction false} TrimRightBlanks(s: string, b: string)
    requires Blanks(b)
    ensures TrimRight(s + b) == TrimRight(s)
  {
    if b == [] {
      assert s + b == s;
    } else {
      assert (s + b)[..|s + b| - 1] == s + b[..|b| - 1];
      TrimRightBlanks(s, b[..|b| - 1]);
    }
  }

  /** Blanks around a trimmed string make no difference. */
  lemma TrimAround(before: string, s: string, after: string)
    requires Blanks(before) && Blanks(after) && Trimmed(s)
    ensures Trim(before + s + after) == s
  {
    assert before + s + after == before + (s + after);
    TrimLeftBlanks(before, s + after);
    if s == [] {
      assert s + after == after && after + [] == after;
      TrimLeftBlanks(after, []);
    } else {
      assert (s + after)[0] == s[0];
      TrimRightBlanks(s, after);
    }
  }

  // ----- tokens are the maximal runs between separators -----

  predicate AllIn(s: string, seps: set<char>) {
    forall i :: 0 <= i < |s| ==> s[i] in seps
  }

  predicate NoneIn(s: string, seps: set<char>) {
    forall i :: 0 <= i < |s| ==> s[i] !in seps
  }

  /** A gap, then each token followed by a gap. */
  function Weave(gap: string, parts: seq<(string, string)>): string
    decreases |parts|
  {
    if parts == [] then gap else gap + (parts[0].0 + Weave(parts[0].1, parts[1..]))
  }

  function Firsts(parts: seq<(string, string)>): (r: seq<string>)
    ensures |r| == |parts| && forall i :: 0 <= i < |r| ==> r[i] == parts[i].0
  {
    if parts == [] then [] else [parts[0].0] + Firsts(parts[1..])
  }

  /** Gaps of separators, tokens without any; only the outer gaps may be empty. */
  predicate Parted(gap: string, parts: seq<(string, string)>, seps: set<char>) {
    && AllIn(gap, seps)
    && (forall i :: 0 <= i < |parts| ==>
          parts[i].0 != [] && NoneIn(parts[i].0, seps) && AllIn(parts[i].1, seps))
    && (forall i :: 0 <= i < |parts| - 1 ==> parts[i].1 != [])
  }

  lemma {:induction false} SkipGap(gap: string, s: string, seps: set<char>)
    requires AllIn(gap, seps)
    ensures SkipSeps(gap + s, seps) == SkipSeps(s, seps)
  {
    if gap == [] {
      assert gap + s == s;
    } else {
      assert (gap + s)[1..] == gap[1..] + s;
      SkipGap(gap[1..], s, seps);
    }
  }

  lemma NextSkip(gap: string, s: string, seps: set<char>)
    requires AllIn(gap, seps)
    ensures NextToken(gap + s, seps) == NextToken(s, seps)
  {
    hide Span;
    SkipGap(gap, s, seps);
  }

  /** Separators in front, one or many, make no difference. */
  lemma TokensSkip(gap: string, s: string, seps: set<char>)
    requires AllIn(gap, seps)
    ensures Tokens(gap + s, seps) == Tokens(s, seps)
  {
    hide NextToken;
    NextSkip(gap, s, seps);
  }

  lemma NoTokens(gap: string, seps: set<char>)
    requires AllIn(gap, seps)
    ensures Tokens(gap, seps) == []
  {
    assert gap + [] == gap;
    TokensSkip(gap, [], seps);
  }

  /** However a text is made of tokens and gaps, strtok_r yields these tokens. */
  lemma {:induction false} TokensAre(gap: string, parts: seq<(string, string)>, seps: set<char>)
    requires Parted(gap, parts, seps)
    ensures Tokens(Weave(gap, parts), seps) == Firsts(parts)
    decreases |parts|
  {
    hide Tokens;
    if parts == [] {
      NoTokens(gap, seps);
    } else {
      var (token, next) := parts[0];
      var rest := Weave(next, parts[1..]);
      TokensSkip(gap, token + rest, seps);
      TokensAre(next, parts[1..], seps);
      if next == [] {
        assert parts[1..] == [] && token + rest == token;
        TokensLast(token, seps);
      } else {
        var tail := rest[1..];
        assert rest[0] == next[0] && rest == [next[0]] + tail;
        assert token + rest == token + [next[0]] + tail;
        TokensCons(token, next[0], tail, seps);
        TokensSkip([next[0]], tail, seps);
      }
    }
  }

  lemma PartedCons(gap: string, token: string, next: string, more: seq<(string, string)>, seps: set<char>)
    requires AllIn(gap, seps) && token != [] && NoneIn(token, seps) && Parted(next, more, seps)
    requires next == [] ==> more == []
    ensures var parts := [(token, next)] + more;
      Parted(gap, parts, seps) && Weave(gap, parts) == gap + (token + Weave(next, more))
  {
    var parts := [(token, next)] + more;
    assert parts[1..] == more;
    assert forall i :: 0 < i < |parts| ==> parts[i] == more[i - 1];
  }

  lemma WeaveStarts(parts: seq<(string, string)>, seps: set<char>)
    requires Parted("", parts, seps) && parts != []
    ensures Weave("", parts) != [] && Weave("", parts)[0] !in seps
  {
    var rest := Weave("", parts);
    assert rest == parts[0].0 + Weave(parts[0].1, parts[1..]);
    assert rest[0] == parts[0].0[0];
  }

  /** Between two tokens there is a gap. */
  lemma GapBefore(next: string, more: seq<(string, string)>, seps: set<char>)
    requires Parted(next, more, seps)
    requires var rest := Weave(next, more); rest != [] ==> rest[0] in seps
    ensures next == [] ==> more == []
  {
    hide Parted, Weave;
    if next == [] && more != [] {
      WeaveStarts(more, seps);
    }
  }

  /** And every text is made of its tokens and gaps. */
  lemma {:induction false} TokensPart(s: string, seps: set<char>)
    returns (gap: string, parts: seq<(string, string)>)
    ensures Parted(gap, parts, seps) && s == Weave(gap, parts) && Tokens(s, seps) == Firsts(parts)
    decreases |s|
  {
    hide Tokens, Parted, Weave, Firsts;
    gap := LeadingSeps(s, seps);
    var t := s[|gap|..];
    assert s == gap + t;
    if t == [] {
      parts := [];
      AllGap(gap, seps);
    } else {
      var n := Span(t, seps);
      var next, more := TokensPart(t[n..], seps);
      GapBefore(next, more, seps);
      PartedCons(gap, t[..n], next, more, seps);
      parts := [(t[..n], next)] + more;
      assert t == t[..n] + t[n..];
    }
    TokensAre(gap, parts, seps);
  }

  lemma AllGap(gap: string, seps: set<char>)
    requires AllIn(gap, seps)
    ensures Parted(gap, [], seps) && Weave(gap, []) == gap
  {
  }

  lemma {:induction false} LeadingSeps(s: string, seps: set<char>) returns (gap: string)
    ensures gap <= s && AllIn(gap, seps) && (|gap| < |s| ==> s[|gap|] !in seps)
  {
    if s != [] && s[0] in seps {
      gap := LeadingSeps(s[1..], seps);
      gap := [s[0]] + gap;
    } else {
      gap := [];
    }
  }

  // ----- numbers -----

  lemma {:induction false} DigitsStop(s: string, junk: string, acc: nat)
    requires (forall i :: 0 <= i < |s| ==> IsDigit(s[i])) && (junk == [] || !IsDigit(junk[0]))
    ensures Digits(s + junk, acc) == Digits(s, acc)
  {
    if s == [] {
      assert s + junk == junk;
    } else {
      assert (s + junk)[1..] == s[1..] + junk;
      DigitsStop(s[1..], junk, 10 * acc + DigitValue(s[0]));
    }
  }

  /** strtol reads blanks, a sign and digits, and ignores what follows. */
  lemma NumeralReads(blanks: string, sign: string, n: nat, junk: string)
    requires Blanks(blanks) && sign in {"", "+", "-"} && (junk == [] || !IsDigit(junk[0]))
    ensures Numeral(blanks + (sign + Decimal(n) + junk)) == if sign == "-" then -(n as int) else n as int
  {
    hide Decimal, Digits, TrimLeft, Numeral;
    var digits := Decimal(n);
    TrimLeftBlanks(blanks, sign + digits + junk);
    DigitsOfDecimal(n);
    DigitsStop(digits, junk, 0);
    assert sign + digits + junk == sign + (digits + junk);
    NumeralOf(blanks + (sign + digits + junk), sign, digits + junk);
  }

  lemma NumeralOf(s: string, sign: string, t: string)
    requires sign in {"", "+", "-"} && t != [] && IsDigit(t[0])
    requires TrimLeft(s) == TrimLeft(sign + t)
    ensures Numeral(s) == if sign == "-" then -(Digits(t, 0) as int) else Digits(t, 0) as int
  {
    hide Digits, TrimLeft;
    var u := sign + t;
    if sign == "" {
      assert u == t;
    } else {
      assert u[0] == sign[0] && u[1..] == t;
    }
  }

  /** Without a digit the number is 0. */
  lemma NumeralOfNothing(blanks: string, junk: string)
    requires Blanks(blanks)
    requires junk == [] || (!IsDigit(junk[0]) && !IsSpace(junk[0]) && junk[0] != '+' && junk[0] != '-')
    ensures Numeral(blanks + junk) == 0
  {
    TrimLeftBlanks(blanks, junk);
  }

  /** The conversion keeps the low 32 bits of a long, and strtol stops at its bounds. */
  lemma AtoiIs(s: string)
    ensures -0x8000_0000 <= Atoi(s) <= 0x7fff_ffff
    ensures var v := Numeral(s);
      && (-0x8000_0000_0000_0000 <= v <= 0x7fff_ffff_ffff_ffff ==> (Atoi(s) - v) % 0x1_0000_0000 == 0)
      && (-0x8000_0000 <= v <= 0x7fff_ffff ==> Atoi(s) == v)
      && (v > 0x7fff_ffff_ffff_ffff ==> Atoi(s) == -1)
      && (v < -0x8000_0000_0000_0000 ==> Atoi(s) == 0)
  {
    hide Numeral;
    var v := Numeral(s);
    var long := if v > LONG_MAX then LONG_MAX else if v < -LONG_MAX - 1 then -LONG_MAX - 1 else v;
    LowHalf(long);
  }

  lemma LowHalf(v: int)
    ensures var r := (v + 0x8000_0000) % 0x1_0000_0000 - 0x8000_0000;
      && -0x8000_0000 <= r <= 0x7fff_ffff && (r - v) % 0x1_0000_0000 == 0
      && (-0x8000_0000 <= v <= 0x7fff_ffff ==> r == v)
  {
    var q := (v + 0x8000_0000) / 0x1_0000_0000;
    assert v + 0x8000_0000 == 0x1_0000_0000 * q + (v + 0x8000_0000) % 0x1_0000_0000;
    Multiple(q);
  }

  lemma Multiple(q: int)
    ensures (-0x1_0000_0000 * q) % 0x1_0000_0000 == 0
  {
  }

  // ----- facts -----

  lemma {:induction false} SpanStops(s: string, c: char, t: string, seps: set<char>)
    requires (forall i :: 0 <= i < |s| ==> s[i] !in seps) && c in seps
    ensures Span(s + [c] + t, seps) == |s|
  {
    if s != [] {
      assert (s + [c] + t)[1..] == s[1..] + [c] + t;
      SpanStops(s[1..], c, t, seps);
    }
  }

  /** A token in front of a separator is the first one. */
  lemma TokensCons(s: string, c: char, t: string, seps: set<char>)
    requires s != [] && (forall i :: 0 <= i < |s| ==> s[i] !in seps) && c in seps
    ensures Tokens(s + [c] + t, seps) == [s] + Tokens(t, seps)
  {
    var all := s + [c] + t;
    assert all[0] == s[0];
    SpanStops(s, c, t, seps);
    assert all[..|s|] == s && all[|s| + 1..] == t;
  }

  lemma {:induction false} SpanAll(s: string, seps: set<char>)
    requires forall i :: 0 <= i < |s| ==> s[i] !in seps
    ensures Span(s, seps) == |s|
  {
  }

  lemma TokensLast(s: string, seps: set<char>)
    requires s != [] && (forall i :: 0 <= i < |s| ==> s[i] !in seps)
    ensures Tokens(s, seps) == [s]
  {
    SpanAll(s, seps);
    assert s[..|s|] == s;
  }

  lemma TrimTrimmed(s: string)
    requires Trimmed(s)
    ensures Trim(s) == s
  {
  }

  lemma {:induction false} DigitsAppend(s: string, c: char, acc: nat)
    requires (forall i :: 0 <= i < |s| ==> IsDigit(s[i])) && IsDigit(c)
    ensures Digits(s + [c], acc) == 10 * Digits(s, acc) + DigitValue(c)
  {
    if s == [] {
      assert (s + [c])[1..] == [];
    } else {
      assert (s + [c])[1..] == s[1..] + [c];
      DigitsAppend(s[1..], c, 10 * acc + DigitValue(s[0]));
    }
  }

  lemma {:induction false} DigitsOfDecimal(n: nat)
    ensures Digits(Decimal(n), 0) == n
  {
    if n < 10 {
      assert Decimal(n)[1..] == [];
    } else {
      DigitsOfDecimal(n / 10);
      DigitsAppend(Decimal(n / 10), Digit(n % 10), 0);
    }
  }

  lemma NumeralOfDecimal(n: nat)
    ensures Numeral(Decimal(n)) == n
  {
    DigitsOfDecimal(n);
    assert IsDigit(Decimal(n)[0]);
  }

  /** atoi undoes sprintf("%d") on every int that is not negative. */
  lemma AtoiDecimal(n: nat)
    requires n <= INT_MAX
    ensures Atoi(Decimal(n)) == n
  {
    hide Numeral, Decimal;
    NumeralOfDecimal(n);
  }
}
