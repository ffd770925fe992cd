/** Printing and parsing undo each other, and exactly when they do. */
module HmsRoundTrip {
  import opened Common
  import opened HmsText
  import opened HmsHeaders
  import opened HmsScanner
  import opened HmsParser

  // ----- messages that the text format can carry -----

  predicate Free(s: string, forbidden: set<char>) {
    forall i :: 0 <= i < |s| ==> s[i] !in forbidden
  }

  predicate IsWord(w: string) {
    w != [] && Free(w, {' ', '\t', '\r', '\n', NUL})
  }

  predicate IsKey(k: string) {
    k != [] && Free(k, {':', '\r', '\n', NUL}) && Trimmed(k)
  }

  predicate IsValue(v: string) {
    Free(v, {'\r', '\n', NUL}) && Trimmed(v)
  }

  ghost predicate NamedOk(l: seq<Header>) {
    forall i :: 0 <= i < |l| ==> IsKey(l[i].key) && IsValue(l[i].value)
  }

  ghost predicate WordsOk(l: seq<string>) {
    forall i :: 0 <= i < |l| ==> IsWord(l[i])
  }

  ghost predicate Printable(m: Msg) {
    && m.verb.Some? && IsWord(m.verb.value)
    && WordsOk(m.headers) && NamedOk(m.named) && Coupled(m)
  }

  /** A parse always ends by adding Content-Length anew, behind the other headers. */
  function Canonical(m: Msg): Msg {
    if m.content.None? then m
    else m.(named := AddNamed(m.named, CONTENT_LENGTH, Decimal(if m.contentLen < 0 then 0 else m.contentLen)))
  }

  predicate EndsInDot(s: string) {
    s != [] && s[|s| - 1] == '.'
  }

  function VerbLine(m: Msg): string {
    VerbText(m) + PrintWords(m.headers)
  }

  /** Some line of the header ends in a dot, so that the scanner stops behind it. */
  ghost predicate EarlyDot(m: Msg) {
    EndsInDot(VerbLine(m)) || exists i :: 0 <= i < |m.named| && EndsInDot(m.named[i].value)
  }

  /** The header without its last line ".\n" */
  function Body(m: Msg): string {
    VerbLine(m) + "\n" + PrintNamed(m.named)
  }

  // ----- the lines of a header -----

  function LineOf(h: Header): string {
    h.key + ":" + h.value
  }

  function LinesOf(l: seq<Header>): seq<string> {
    if l == [] then [] else [LineOf(l[0])] + LinesOf(l[1..])
  }

  lemma {:induction false} WordsShape(headers: seq<string>)
    requires WordsOk(headers)
    ensures var text := PrintWords(headers);
      && Free(text, {'\t', '\r', '\n', NUL})
      && (text != [] ==> text[|text| - 1] != ' ')
  {
    if headers != [] {
      WordsShape(headers[1..]);
      var w, rest := " " + headers[0], PrintWords(headers[1..]);
      assert PrintWords(headers) == w + rest;
      assert rest == [] ==> w + rest == w;
    }
  }

  lemma WordIsToken(w: string)
    requires IsWord(w)
    ensures w != [] && forall i :: 0 <= i < |w| ==> w[i] !in WORD_SEPS
  {
  }

  lemma {:induction false} WordsTokens(verb: string, headers: seq<string>)
    requires IsWord(verb) && WordsOk(headers)
    ensures Tokens(verb + PrintWords(headers), WORD_SEPS) == [verb] + headers
    decreases |headers|
  {
    hide Tokens, IsWord;
    WordIsToken(verb);
    if headers == [] {
      assert verb + PrintWords([]) == verb;
      TokensLast(verb, WORD_SEPS);
    } else {
      var rest := headers[0] + PrintWords(headers[1..]);
      WordsTokens(headers[0], headers[1..]);
      assert verb + PrintWords(headers) == verb + [' '] + rest;
      TokensCons(verb, ' ', rest, WORD_SEPS);
      assert [headers[0]] + headers[1..] == headers;
    }
  }

  lemma VerbLineShape(verb: string, headers: seq<string>)
    requires IsWord(verb) && WordsOk(headers)
    ensures var line := verb + PrintWords(headers);
      && Free(line, {'\t', '\r', '\n', NUL})
      && line[|line| - 1] != ' '
      && Tokens(line, WORD_SEPS) == [verb] + headers
  {
    WordsShape(headers);
    WordsTokens(verb, headers);
  }

  lemma LineShape(h: Header)
    requires IsKey(h.key) && IsValue(h.value)
    ensures var line := LineOf(h);
      && line != [] && Free(line, {'\r', '\n', NUL})
      && !Blank(line[|line| - 1])
      && (EndsInDot(line) <==> EndsInDot(h.value))
      && FindChar(line, ':') == |h.key|
      && line[..|h.key|] == h.key && line[|h.key| + 1..] == h.value
  {
    var line := LineOf(h);
    FindCharIs(h.key, h.value);
    if h.value != [] {
      assert line[|line| - 1] == h.value[|h.value| - 1];
    }
  }

  lemma {:induction false} FindCharIs(k: string, v: string)
    requires ':' !in k
    ensures FindChar(k + ":" + v, ':') == |k|
  {
    if k != [] {
      assert (k + ":" + v)[1..] == k[1..] + ":" + v;
      FindCharIs(k[1..], v);
    }
  }

  lemma {:induction false} LinesTokens(l: seq<Header>)
    requires NamedOk(l)
    ensures Tokens(PrintNamed(l), LINE_SEPS) == LinesOf(l)
  {
    if l != [] {
      LineShape(l[0]);
      assert PrintNamed(l) == LineOf(l[0]) + ['\n'] + PrintNamed(l[1..]);
      TokensCons(LineOf(l[0]), '\n', PrintNamed(l[1..]), LINE_SEPS);
      LinesTokens(l[1..]);
    }
  }

  // ----- the named headers come back -----

  predicate IsLength(h: Header) {
    SameKey(h.key, CONTENT_LENGTH)
  }

  /** The body length announced by the headers l, or bodyLen if they announce none. */
  function Announced(l: seq<Header>, bodyLen: int): int {
    if l == [] then bodyLen else Announced(l[1..], if IsLength(l[0]) then Atoi(l[0].value) else bodyLen)
  }

  lemma NamedLineBack(p: Partial, h: Header)
    requires IsKey(h.key) && IsValue(h.value)
    requires DistinctKeys(p.msg.named + [h])
    requires IsLength(h) ==> Atoi(h.value) != 0
    ensures ParseNamedLine(p, LineOf(h)) ==
            Some(Partial(p.msg.(named := p.msg.named + [h]), Announced([h], p.bodyLen)))
  {
    LineShape(h);
    TrimTrimmed(h.key);
    TrimTrimmed(h.value);
    var l := p.msg.named;
    forall j | 0 <= j < |l|
      ensures !SameKey(l[j].key, h.key)
    {
      assert l[j] == (l + [h])[j] && h == (l + [h])[|l|];
    }
    IndexOfNone(l, h.key);
    assert Announced([h][1..], 0) == 0;
    assert [h][1..] == [];
  }

  lemma {:induction false} NamedLinesBack(p: Partial, l: seq<Header>)
    requires NamedOk(l) && DistinctKeys(p.msg.named + l)
    requires forall i :: 0 <= i < |l| && IsLength(l[i]) ==> Atoi(l[i].value) != 0
    ensures ParseNamedLines(p, LinesOf(l)) ==
            Some(Partial(p.msg.(named := p.msg.named + l), Announced(l, p.bodyLen)))
    decreases |l|
  {
    var named := p.msg.named;
    if l == [] {
      assert named + [] == named;
    } else {
      assert named + l == (named + [l[0]]) + l[1..];
      assert forall i :: 0 <= i < |named + [l[0]]| ==> (named + [l[0]])[i] == (named + l)[i];
      NamedLineBack(p, l[0]);
      assert Announced([l[0]][1..], 0) == 0 && [l[0]][1..] == [];
      var q := Partial(p.msg.(named := named + [l[0]]), Announced([l[0]], p.bodyLen));
      NamedLinesBack(q, l[1..]);
      assert LinesOf(l)[0] == LineOf(l[0]) && LinesOf(l)[1..] == LinesOf(l[1..]);
    }
  }

  lemma {:induction false} AnnouncedNothing(l: seq<Header>, bodyLen: int)
    requires forall i :: 0 <= i < |l| ==> !IsLength(l[i])
    ensures Announced(l, bodyLen) == bodyLen
  {
    if l != [] {
      AnnouncedNothing(l[1..], bodyLen);
    }
  }

  lemma {:induction false} AnnouncedIs(l: seq<Header>, bodyLen: int, i: nat)
    requires DistinctKeys(l) && i < |l| && IsLength(l[i])
    ensures Announced(l, bodyLen) == Atoi(l[i].value)
    decreases |l|
  {
    if i == 0 {
      AnnouncedNothing(l[1..], Atoi(l[0].value));
    } else {
      assert !SameKey(l[0].key, l[i].key);
      AnnouncedIs(l[1..], bodyLen, i - 1);
    }
  }

  lemma AnnouncedByMsg(m: Msg)
    requires Coupled(m)
    ensures Announced(m.named, 0) == m.contentLen
    ensures forall i :: 0 <= i < |m.named| && IsLength(m.named[i]) ==> Atoi(m.named[i].value) != 0
  {
    var l := m.named;
    var k := IndexOf(l, CONTENT_LENGTH);
    if k < |l| {
      AnnouncedIs(l, 0, k);
      forall i | 0 <= i < |l| && IsLength(l[i])
        ensures i == k
      {
        OnlyMatch(l, CONTENT_LENGTH, i);
      }
    } else {
      AnnouncedNothing(l, 0);
    }
  }

  lemma HeaderBack(m: Msg)
    requires Printable(m)
    ensures ParseHeaderText(Body(m)) == Some(Partial(m.(content := None, contentLen := 0), m.contentLen))
  {
    var line := VerbLine(m);
    VerbLineShape(m.verb.value, m.headers);
    assert Body(m) == line + ['\n'] + PrintNamed(m.named);
    TokensCons(line, '\n', PrintNamed(m.named), LINE_SEPS);
    LinesTokens(m.named);
    var lines := Tokens(Body(m), LINE_SEPS);
    assert lines[0] == line && lines[1..] == LinesOf(m.named);
    var words := Tokens(line, WORD_SEPS);
    assert words[0] == m.verb.value && words[1..] == m.headers;
    assert EMPTY.headers + m.headers == m.headers;
    var start := EMPTY.(verb := m.verb, headers := m.headers);
    assert ParseWords(EMPTY, line) == Some(start);
    AnnouncedByMsg(m);
    assert start.named + m.named == m.named;
    NamedLinesBack(Partial(start, 0), m.named);
  }

  // ----- where the scanner stops -----

  /** No line is empty or ends in a blank or a dot. */
  ghost predicate LinesClean(t: string) {
    forall i :: 0 <= i < |t| && t[i] == '\n' ==> i > 0 && !Blank(t[i - 1]) && t[i - 1] != '.'
  }

  lemma LinesCleanCons(line: string, rest: string)
    requires line != [] && Free(line, {'\n'}) && !Blank(line[|line| - 1]) && !EndsInDot(line)
    requires LinesClean(rest)
    ensures LinesClean(line + "\n" + rest)
  {
    var t := line + "\n" + rest;
    forall i | 0 <= i < |t| && t[i] == '\n'
      ensures i > 0 && !Blank(t[i - 1]) && t[i - 1] != '.'
    {
      if i > |line| {
        assert rest[i - |line| - 1] == '\n';
      }
    }
  }

  lemma {:induction false} NamedClean(l: seq<Header>)
    requires NamedOk(l) && forall i :: 0 <= i < |l| ==> !EndsInDot(l[i].value)
    ensures LinesClean(PrintNamed(l))
  {
    if l != [] {
      LineShape(l[0]);
      NamedClean(l[1..]);
      LinesCleanCons(LineOf(l[0]), PrintNamed(l[1..]));
      assert PrintNamed(l) == LineOf(l[0]) + "\n" + PrintNamed(l[1..]);
    }
  }

  lemma {:induction false} NamedFree(l: seq<Header>)
    requires NamedOk(l)
    ensures Free(PrintNamed(l), {'\r', NUL})
  {
    if l != [] {
      LineShape(l[0]);
      NamedFree(l[1..]);
      assert PrintNamed(l) == LineOf(l[0]) + "\n" + PrintNamed(l[1..]);
    }
  }

  lemma CleanDoesNotEnd(t: string, s: string, n: nat)
    requires LinesClean(t) && n <= |t|
    ensures !Ends(t + s, n)
  {
    if n >= 2 {
      assert (t + s)[n - 1] == t[n - 1] && (t + s)[n - 2] == t[n - 2];
    }
  }

  lemma BodyClean(m: Msg)
    requires Printable(m) && !EarlyDot(m)
    ensures LinesClean(Body(m)) && Free(Body(m), {'\r', NUL}) && |Body(m)| >= 2
  {
    hide Tokens, Coupled;
    VerbLineShape(m.verb.value, m.headers);
    NamedClean(m.named);
    NamedFree(m.named);
    LinesCleanCons(VerbLine(m), PrintNamed(m.named));
  }

  lemma CleanHeader(t: string, s: string)
    requires LinesClean(t)
    ensures HeaderAt(t + ".\n" + s, |t| + 2) && LastDot(t + ".\n" + s, |t| + 2) == |t|
  {
    var all := t + ".\n" + s;
    assert all == t + (".\n" + s);
    forall n: nat | n < |t| + 2
      ensures !Ends(all, n)
    {
      if n <= |t| {
        CleanDoesNotEnd(t, ".\n" + s, n);
      }
    }
    assert DotPending(all, |t| + 1, |t|);
    LastDotIs(all, |t| + 2, |t|);
  }

  /** Without an early dot the scanner takes exactly the printed header and leaves its
      text in the buffer. */
  lemma WholeHeader(m: Msg, s: string)
    requires Printable(m) && !EarlyDot(m)
    ensures |Print(m)| > 2 && HeaderAt(Print(m) + s, |Print(m)|)
    ensures HeaderText(Print(m) + s, |Print(m)|) == Body(m)
  {
    hide LinesClean, HeaderAt, Printable, EarlyDot;
    var t := Body(m);
    BodyClean(m);
    CleanHeader(t, s);
    assert Print(m) == t + ".\n";
    assert (Print(m) + s)[..|t|] == t;
    assert MapCRs(t) == t;
  }

  lemma EndsShift(a: string, b: string, c: string, n: nat)
    requires Ends(b, n)
    ensures Ends(a + b + c, |a| + n)
  {
    var k: nat :| DotPending(b, n - 1, k);
    assert forall j :: 0 <= j < |b| ==> (a + b + c)[|a| + j] == b[j];
    assert DotPending(a + b + c, |a| + n - 1, |a| + k);
  }

  lemma DottedLineEnds(line: string)
    requires EndsInDot(line)
    ensures Ends(line + "\n", |line| + 1)
  {
    assert DotPending(line + "\n", |line|, |line| - 1);
  }

  lemma {:induction false} DottedValueEnds(l: seq<Header>, i: nat) returns (n: nat)
    requires i < |l| && EndsInDot(l[i].value)
    ensures n <= |PrintNamed(l)| && Ends(PrintNamed(l), n)
  {
    var line, rest := LineOf(l[0]), PrintNamed(l[1..]);
    if i == 0 {
      DottedLineEnds(line);
      EndsShift("", line + "\n", rest, |line| + 1);
      assert PrintNamed(l) == "" + (line + "\n") + rest;
      n := |line| + 1;
    } else {
      n := DottedValueEnds(l[1..], i - 1);
      EndsShift(line + "\n", rest, "", n);
      assert PrintNamed(l) == (line + "\n") + rest + "";
      n := |line| + 1 + n;
    }
  }

  lemma DottedVerbLineEnds(m: Msg, s: string)
    requires EndsInDot(VerbLine(m))
    ensures Ends(Print(m) + s, |VerbLine(m)| + 1)
  {
    var line := VerbLine(m);
    DottedLineEnds(line);
    EndsShift("", line + "\n", PrintNamed(m.named) + ".\n" + s, |line| + 1);
    assert Print(m) + s == "" + (line + "\n") + (PrintNamed(m.named) + ".\n" + s);
  }

  lemma EarlyDotEnds(m: Msg, s: string) returns (n: nat)
    requires Printable(m) && EarlyDot(m)
    ensures n < |Print(m)| && Ends(Print(m) + s, n)
  {
    hide Ends, Printable;
    var line, named := VerbLine(m), PrintNamed(m.named);
    if EndsInDot(line) {
      DottedVerbLineEnds(m, s);
      n := |line| + 1;
    } else {
      var i :| 0 <= i < |m.named| && EndsInDot(m.named[i].value);
      n := DottedValueEnds(m.named, i);
      EndsShift(line + "\n", named, ".\n" + s, n);
      assert Print(m) + s == (line + "\n") + named + (".\n" + s);
      n := |line| + 1 + n;
    }
  }

  lemma {:induction false} ShortestEnd(s: string, n: nat) returns (k: nat)
    requires Ends(s, n)
    ensures k <= n && HeaderAt(s, k)
  {
    if m: nat :| m < n && Ends(s, m) {
      k := ShortestEnd(s, m);
    } else {
      k := n;
    }
  }

  // ----- the theorem -----

  /** A successful parse accounts for every byte of the stream. */
  lemma ParseAccounts(s: string, limit: nat)
    requires Parse(s, limit).Some?
    ensures var (m, rest) := Parse(s, limit).value;
      HasHeader(s, limit) && |s| == HeaderLength(s, limit) + m.contentLen + |rest|
  {
    HeaderTextLeavesBody(HeaderText(s, HeaderLength(s, limit)));
  }

  lemma RoundTripHolds(m: Msg, s: string, limit: nat)
    requires Printable(m) && !EarlyDot(m) && |Print(m)| <= limit
    ensures Parse(Wire(m) + s, limit) == Some((Canonical(m), s))
  {
    hide HeaderAt, HeaderText, ParseHeaderText, Parse, EarlyDot, Print, WordsOk, NamedOk;
    var content := if m.content.Some? then m.content.value else "";
    var rest := content + s;
    assert Wire(m) + s == Print(m) + rest;
    WholeHeader(m, rest);
    ParseIs(Print(m) + rest, limit, |Print(m)|);
    assert (Print(m) + rest)[|Print(m)|..] == rest;
    HeaderBack(m);
    assert rest[..|content|] == content && rest[|content|..] == s;
  }

  /** For every message the format can carry, every suffix and every limit, parsing the
      wire gives the message back and leaves the suffix unread if and only if no line
      of the header ends in a dot and the header fits the limit. */
  lemma RoundTrip(m: Msg, s: string, limit: nat)
    requires Printable(m)
    ensures Parse(Wire(m) + s, limit) == Some((Canonical(m), s)) <==> !EarlyDot(m) && |Print(m)| <= limit
  {
    var all := Wire(m) + s;
    assert all == Print(m) + (all[|Print(m)|..]);
    if !EarlyDot(m) && |Print(m)| <= limit {
      RoundTripHolds(m, s, limit);
    } else if Parse(all, limit) == Some((Canonical(m), s)) {
      ParseAccounts(all, limit);
      var n := HeaderLength(all, limit);
      assert n == |Print(m)|;
      if EarlyDot(m) {
        var e := EarlyDotEnds(m, all[|Print(m)|..]);
        var k := ShortestEnd(all, e);
        HeaderAtUnique(all, k, n);
      }
      assert false;
    }
  }

  /** A value that ends in a dot: the header ends there, the value arrives without the
      dot, and the rest of the header is left unread in front of the next message. */
  lemma DottedValueIsCut(s: string, limit: nat)
    requires limit >= 7
    ensures var m := Msg(Some("A"), [], [Header("k", "v.")], None, 0);
      && Printable(m) && Wire(m) == "A\nk:v.\n.\n"
      && Parse(Wire(m) + s, limit) == Some((Msg(Some("A"), [], [Header("k", "v")], None, 0), ".\n" + s))
  {
    hide Parse, HeaderAt, Tokens;
    var all := "A\nk:v.\n" + (".\n" + s);
    DottedMessage(s);
    DottedHeader(".\n" + s);
    ParseIs(all, limit, 7);
    DottedText();
    assert all[7..] == ".\n" + s;
  }

  lemma DottedMessage(s: string)
    ensures var m := Msg(Some("A"), [], [Header("k", "v.")], None, 0);
      && Printable(m) && Wire(m) == "A\nk:v.\n.\n"
      && Wire(m) + s == "A\nk:v.\n" + (".\n" + s)
  {
    var l := [Header("k", "v.")];
    assert PrintNamed(l) == "k:v.\n" + PrintNamed(l[1..]) && l[1..] == [];
    assert Lower("k") != Lower(CONTENT_LENGTH) by { assert |Lower("k")| != |Lower(CONTENT_LENGTH)|; }
    IndexOfNone(l, CONTENT_LENGTH);
  }

  lemma DottedHeader(rest: string)
    ensures var all := "A\nk:v.\n" + rest;
      HeaderAt(all, 7) && HeaderText(all, 7) == "A\nk:v"
  {
    var all := "A\nk:v.\n" + rest;
    assert all[..5] == "A\nk:v";
    assert DotPending(all, 6, 5);
    assert !DotSeen(all, 1);
    LastDotIs(all, 7, 5);
    assert MapCRs("A\nk:v") == "A\nk:v";
  }

  lemma DottedText()
    ensures ParseHeaderText("A\nk:v") == Some(Partial(Msg(Some("A"), [], [Header("k", "v")], None, 0), 0))
  {
    hide Tokens, ParseNamedLine;
    var h, start := Header("k", "v"), Partial(EMPTY.(verb := Some("A")), 0);
    TokensCons("A", '\n', "k:v", LINE_SEPS);
    TokensLast("k:v", LINE_SEPS);
    assert "A" + ['\n'] + "k:v" == "A\nk:v";
    var lines := Tokens("A\nk:v", LINE_SEPS);
    assert lines == ["A", "k:v"] && lines[1..] == ["k:v"] && ["k:v"][1..] == [];
    TokensLast("A", WORD_SEPS);
    assert EMPTY.headers + ["A"][1..] == EMPTY.headers;
    assert ParseWords(EMPTY, "A") == Some(start.msg);
    DottedLine(start, h);
  }

  lemma DottedLine(start: Partial, h: Header)
    requires start == Partial(EMPTY.(verb := Some("A")), 0) && h == Header("k", "v")
    ensures ParseNamedLine(start, "k:v") == Some(Partial(start.msg.(named := [h]), 0))
  {
    hide ParseNamedLine;
    assert LineOf(h) == "k:v" && start.msg.named + [h] == [h];
    assert |Lower("k")| != |Lower(CONTENT_LENGTH)|;
    NamedLineBack(start, h);
    assert [h][1..] == [];
  }

  /** A message whose Content-Length is already last and in decimal form is a fixed point. */
  lemma CanonicalFixed(m: Msg)
    requires Printable(m)
    requires m.content.Some? ==>
               m.named != [] && m.named[|m.named| - 1] == Header(CONTENT_LENGTH, Decimal(|m.content.value|))
    ensures Canonical(m) == m
  {
    if m.content.Some? {
      var l := m.named;
      OnlyMatch(l, CONTENT_LENGTH, |l| - 1);
      assert l == l[..|l| - 1] + [l[|l| - 1]];
      assert l[..|l| - 1] + l[|l|..] == l[..|l| - 1];
    }
  }
}
