/** src/hms/hms_parser.c: tokenising the header text, the named headers and the body.
    Functions on strings say what a parse yields, methods do it step by step on a
    stream and a message object. */
module HmsParser {
  import opened Common
  import opened HmsText
  import opened HmsHeaders
  import opened HmsMessage
  import opened HmsScanner

  const WORD_SEPS: set<char> := {' ', '\t'}
  const LINE_SEPS: set<char> := {'\n'}

  /** A message under construction and the body length announced so far. */
  datatype Partial = Partial(msg: Msg, bodyLen: int)

  // ----- what the header text means -----

  /** strchr: position of the first c, or the length of the string */
  function FindChar(s: string, c: char): (i: nat)
    ensures i <= |s| && (i < |s| ==> s[i] == c) && c !in s[..i]
  {
    if s == [] || s[0] == c then 0 else 1 + FindChar(s[1..], c)
  }

  /** The first word is the verb, the others are unnamed headers. */
  function WithWords(m: Msg, words: seq<string>): Msg {
    if words == [] then m else m.(verb := Some(words[0]), headers := m.headers + words[1..])
  }

  function ParseWords(m: Msg, line: string): Option<Msg> {
    var words := Tokens(line, WORD_SEPS);
    if words == [] then None else Some(WithWords(m, words))
  }

  function ParseNamedLine(p: Partial, line: string): Option<Partial> {
    var colon := FindChar(line, ':');
    if colon == |line| then None
    else
      var key, value := Trim(line[..colon]), Trim(line[colon + 1..]);
      var isLength := SameKey(key, CONTENT_LENGTH);
      if isLength && Atoi(value) == 0 then None
      else Some(Partial(p.msg.(named := AddNamed(p.msg.named, key, value)),
                        if isLength then Atoi(value) else p.bodyLen))
  }

  function ParseNamedLines(p: Partial, lines: seq<string>): Option<Partial>
    decreases |lines|
  {
    if lines == [] then Some(p)
    else
      match ParseNamedLine(p, lines[0])
      case None => None
      case Some(p') => ParseNamedLines(p', lines[1..])
  }

  /** A text without any line yields a message without a verb. */
  function ParseHeaderText(text: string): Option<Partial> {
    var lines := Tokens(text, LINE_SEPS);
    if lines == [] then Some(Partial(EMPTY, 0))
    else
      match ParseWords(EMPTY, lines[0])
      case None => None
      case Some(m) => ParseNamedLines(Partial(m, 0), lines[1..])
  }

  /** The rest of a parse, behind a header of n bytes that announces p.bodyLen. */
  function ParseBody(p: Partial, rest: string): Option<(Msg, string)> {
    if p.bodyLen == 0 then Some((p.msg, rest))
    else if p.bodyLen < 0 || |rest| < p.bodyLen then None
    else
      match SetBody(p.msg, rest[..p.bodyLen])
      case Done(m) => Some((m, rest[p.bodyLen..]))
      case Aborted => None
  }

  /** The message at the front of the stream and the bytes behind it. */
  ghost function ParseAt(s: string, n: nat): Option<(Msg, string)>
    requires n <= |s|
  {
    if n <= 2 then None
    else
      match ParseHeaderText(HeaderText(s, n))
      case None => None
      case Some(p) => ParseBody(p, s[n..])
  }

  ghost predicate HasHeader(s: string, limit: nat) {
    exists n: nat :: n <= limit && HeaderAt(s, n)
  }

  ghost function HeaderLength(s: string, limit: nat): (n: nat)
    requires HasHeader(s, limit)
    ensures n <= limit && HeaderAt(s, n)
  {
    var n: nat :| n <= limit && HeaderAt(s, n);
    n
  }

  ghost function Parse(s: string, limit: nat): Option<(Msg, string)> {
    if HasHeader(s, limit) then ParseAt(s, HeaderLength(s, limit)) else None
  }

  lemma ParseIs(s: string, limit: nat, n: nat)
    requires n <= limit && HeaderAt(s, n)
    ensures Parse(s, limit) == ParseAt(s, n)
  {
    HeaderAtUnique(s, HeaderLength(s, limit), n);
  }

  lemma NoParse(s: string, limit: nat)
    requires forall n: nat :: n <= limit ==> !HeaderAt(s, n)
    ensures Parse(s, limit).None?
  {
  }

  // ----- the code -----

  /** __hms_str_strip: advances past leading blanks, then cuts trailing ones. */
  method Strip(s: string) returns (r: string)
    ensures r == Trim(s)
  {
    var first := 0;
    while first < |s| && IsSpace(s[first])
      invariant 0 <= first <= |s| && TrimLeft(s[first..]) == TrimLeft(s)
    {
      assert s[first..][1..] == s[first + 1..];
      first := first + 1;
    }
    r := s[first..];
    assert r == TrimLeft(s);
    while r != [] && IsSpace(r[|r| - 1])
      invariant TrimRight(r) == Trim(s)
      decreases |r|
    {
      r := r[..|r| - 1];
    }
  }

  method ParseNamedHeader(msg: HmsMsg, line: string, bodyLen: int) returns (status: int, newLen: int)
    requires msg.Valid()
    modifies msg.Repr
    ensures msg.Valid() && fresh(msg.Repr - old(msg.Repr))
    ensures match ParseNamedLine(Partial(old(msg.Value()), bodyLen), line)
            case None => status == -1
            case Some(p) => status == 0 && Partial(msg.Value(), newLen) == p
  {
    hide Trim, Atoi, AddNamed, SameKey;
    newLen := bodyLen;
    var colon := FindChar(line, ':');
    if colon == |line| {
      return -1, newLen;
    }
    var key := Strip(line[..colon]);
    var value := Strip(line[colon + 1..]);
    if SameKey(key, CONTENT_LENGTH) {
      newLen := Atoi(value);
      if newLen == 0 {
        return -1, newLen;
      }
    }
    msg.AddNamedHeader(key, value);
    status := 0;
  }

  lemma TokensUnfold(s: string, seps: set<char>)
    ensures Tokens(s, seps) == match NextToken(s, seps)
                               case None => []
                               case Some((token, rest)) => [token] + Tokens(rest, seps)
  {
  }

  lemma WithNone(m: Msg)
    ensures WithWords(m, []) == m
  {
  }

  lemma WithOneMore(m: Msg, words: seq<string>, w: string)
    ensures var p := WithWords(m, words);
      WithWords(m, words + [w]) == if words == [] then p.(verb := Some(w)) else p.(headers := p.headers + [w])
  {
    if words == [] {
      assert m.headers + ([] + [w])[1..] == m.headers;
    } else {
      assert m.headers + (words + [w])[1..] == (m.headers + words[1..]) + [w];
    }
  }

  lemma MoveOne<T>(done: seq<T>, one: T, rest: seq<T>)
    ensures done + ([one] + rest) == (done + [one]) + rest
  {
  }

  method ParseVerbLine(msg: HmsMsg, line: string) returns (status: int)
    requires msg.Valid()
    modifies msg.Repr
    ensures msg.Valid() && fresh(msg.Repr - old(msg.Repr))
    ensures match ParseWords(old(msg.Value()), line)
            case None => status == -1 && msg.Value() == old(msg.Value())
            case Some(m) => status == 0 && msg.Value() == m
  {
    hide HmsMsg.Valid, HmsMsg.Value, NextToken, Tokens, WithWords;
    WithNone(msg.Value());
    ghost var m, done, left := msg.Value(), [], Tokens(line, WORD_SEPS);
    TokensUnfold(line, WORD_SEPS);
    var word := NextToken(line, WORD_SEPS);
    var count := 0;
    while word.Some?
      invariant msg.Valid() && fresh(msg.Repr - old(msg.Repr)) && count == |done|
      invariant Tokens(line, WORD_SEPS) == done + left
      invariant left == match word
                        case None => []
                        case Some((token, rest)) => [token] + Tokens(rest, WORD_SEPS)
      invariant msg.Value() == WithWords(m, done)
      decreases |left|
    {
      var (token, rest) := word.value;
      WithOneMore(m, done, token);
      if count == 0 {
        msg.SetVerb(token);
      } else {
        msg.AddHeader(token);
      }
      MoveOne(done, token, Tokens(rest, WORD_SEPS));
      done, left := done + [token], Tokens(rest, WORD_SEPS);
      TokensUnfold(rest, WORD_SEPS);
      word := NextToken(rest, WORD_SEPS);
      count := count + 1;
    }
    assert Tokens(line, WORD_SEPS) == done;
    status := if count > 0 then 0 else -1;
  }

  method ParseHeader(msg: HmsMsg, text: string) returns (status: int, bodyLen: int)
    requires msg.Valid() && msg.Value() == EMPTY
    modifies msg.Repr
    ensures msg.Valid() && fresh(msg.Repr - old(msg.Repr))
    ensures match ParseHeaderText(text)
            case None => status == -1
            case Some(p) => status == 0 && Partial(msg.Value(), bodyLen) == p
  {
    hide HmsMsg.Valid, HmsMsg.Value, Tokens, NextToken, ParseNamedLine, ParseWords;
    bodyLen := 0;
    TokensUnfold(text, LINE_SEPS);
    var line := NextToken(text, LINE_SEPS);
    if line.None? {
      return 0, 0;
    }
    var token, rest := line.value.0, line.value.1;
    assert Tokens(text, LINE_SEPS)[0] == token && Tokens(text, LINE_SEPS)[1..] == Tokens(rest, LINE_SEPS);
    status := ParseVerbLine(msg, token);
    if status != 0 {
      return -1, bodyLen;
    }
    ghost var lines := Tokens(rest, LINE_SEPS);
    TokensUnfold(rest, LINE_SEPS);
    line := NextToken(rest, LINE_SEPS);
    ghost var start, left := Partial(msg.Value(), 0), lines;
    while line.Some?
      invariant msg.Valid() && fresh(msg.Repr - old(msg.Repr))
      invariant left == match line
                        case None => []
                        case Some((t, r)) => [t] + Tokens(r, LINE_SEPS)
      invariant ParseNamedLines(Partial(msg.Value(), bodyLen), left) == ParseNamedLines(start, lines)
      decreases |left|
    {
      token, rest := line.value.0, line.value.1;
      assert left[0] == token && left[1..] == Tokens(rest, LINE_SEPS);
      status, bodyLen := ParseNamedHeader(msg, token, bodyLen);
      if status != 0 {
        return -1, bodyLen;
      }
      TokensUnfold(rest, LINE_SEPS);
      line := NextToken(rest, LINE_SEPS);
      left := left[1..];
    }
    status := 0;
  }

  /** Reads until the body is complete, in as many pieces as it takes. */
  method ReadBody(stream: Stream, msg: HmsMsg, bodyLen: nat) returns (status: int)
    requires bodyLen > 0 && msg.Valid() && msg.content.None? && msg.contentLen == 0 && stream !in msg.Repr
    modifies stream, msg.Repr
    ensures fresh(msg.Repr - old(msg.Repr))
    ensures match ParseBody(Partial(old(msg.Value()), bodyLen), old(stream.data))
            case None => status == -1
            case Some((m, rest)) => status == 0 && msg.Valid() && msg.Value() == m && stream.data == rest
  {
    hide HmsMsg.Valid;
    ghost var s := stream.data;
    var buffer, readIn := "", 0;
    while readIn < bodyLen
      invariant readIn == |buffer| <= bodyLen && s == buffer + stream.data
      invariant msg.Repr == old(msg.Repr) && msg.Valid() && msg.Value() == old(msg.Value())
    {
      var chunk := stream.Read(bodyLen - readIn);
      if |chunk| <= 0 {
        return -1;
      }
      assert s == buffer + chunk + stream.data;
      buffer := buffer + chunk;
      readIn := readIn + |chunk|;
    }
    assert buffer == s[..bodyLen] && stream.data == s[bodyLen..];
    var aborted := msg.SetBody(buffer);
    status := if aborted then -1 else 0;
  }

  /** hms_msg_parse; null when there is no message. */
  method ParseMessage(stream: Stream, limit: nat) returns (msg: HmsMsg?)
    requires limit > 0
    modifies stream
    ensures match Parse(old(stream.data), limit)
            case None => msg == null
            case Some((m, rest)) =>
              msg != null && msg.Valid() && fresh(msg.Repr) && msg.Value() == m && stream.data == rest
  {
    hide HmsMsg.Valid, Parse, HeaderAt, HeaderText, ParseHeaderText, SetBody, CString;
    var buffer := new char[limit + 1];
    buffer[limit] := NUL;
    ghost var s := stream.data;
    var hdrLen := ReadHeader(stream, buffer, limit);
    if hdrLen >= 0 {
      ParseIs(s, limit, hdrLen);
    } else {
      NoParse(s, limit);
    }
    if hdrLen <= 2 {
      return null;
    }
    msg := new HmsMsg();
    var status, bodyLen := ParseHeader(msg, CString(buffer[..]));
    if status != 0 {
      return null;
    }
    HeaderTextLeavesBody(CString(buffer[..]));
    if bodyLen != 0 {
      if bodyLen < 0 {
        return null;
      }
      status := ReadBody(stream, msg, bodyLen);
      if status != 0 {
        return null;
      }
    }
  }

  // ----- what parsing a header leaves alone -----

  lemma {:induction false} NamedLinesLeaveBody(p: Partial, lines: seq<string>)
    requires p.msg.content.None? && p.msg.contentLen == 0
    ensures var r := ParseNamedLines(p, lines);
      r.Some? ==> r.value.msg.content.None? && r.value.msg.contentLen == 0
    decreases |lines|
  {
    if lines != [] {
      match ParseNamedLine(p, lines[0]) {
        case Some(q) => NamedLinesLeaveBody(q, lines[1..]);
        case None =>
      }
    }
  }

  lemma HeaderTextLeavesBody(text: string)
    ensures var r := ParseHeaderText(text);
      r.Some? ==> r.value.msg.content.None? && r.value.msg.contentLen == 0
  {
    var lines := Tokens(text, LINE_SEPS);
    if lines != [] && ParseWords(EMPTY, lines[0]).Some? {
      NamedLinesLeaveBody(Partial(ParseWords(EMPTY, lines[0]).value, 0), lines[1..]);
    }
  }

  // ----- blanks, and what a parse rejects -----

  lemma {:induction false} FindFirst(k: string, c: char, v: string)
    requires c !in k
    ensures FindChar(k + [c] + v, c) == |k|
  {
    if k != [] {
      assert (k + [c] + v)[1..] == k[1..] + [c] + v;
      FindFirst(k[1..], c, v);
    }
  }

  /** A named line: what is in front of the first colon is the key, what is behind it the
      value, and blanks around either make no difference. */
  lemma NamedLineIs(p: Partial, key: string, value: string, b0: string, b1: string, b2: string, b3: string)
    requires Trimmed(key) && Trimmed(value) && ':' !in key
    requires Blanks(b0) && Blanks(b1) && Blanks(b2) && Blanks(b3)
    ensures ParseNamedLine(p, (b0 + key + b1) + ":" + (b2 + value + b3)) == ParseNamedLine(p, key + ":" + value)
    ensures ParseNamedLine(p, key + ":" + value) ==
            if AlikeKeys(key, "Content-Length") && Atoi(value) == 0 then None
            else Some(Partial(p.msg.(named := AddNamed(p.msg.named, key, value)),
                              if AlikeKeys(key, "Content-Length") then Atoi(value) else p.bodyLen))
  {
    hide Trim, Trimmed, FindChar, Atoi, AddNamed, SameKey, AlikeKeys, ParseNamedLine;
    LineParts(key, value, "", "", "", "");
    LineParts(key, value, b0, b1, b2, b3);
    assert "" + key + "" == key && "" + value + "" == value;
    NamedLineOf(p, key, value, key + ":" + value);
    NamedLineOf(p, key, value, (b0 + key + b1) + ":" + (b2 + value + b3));
  }

  lemma NamedLineOf(p: Partial, key: string, value: string, line: string)
    requires var k := FindChar(line, ':');
      k < |line| && Trim(line[..k]) == key && Trim(line[k + 1..]) == value
    ensures ParseNamedLine(p, line) ==
            if AlikeKeys(key, "Content-Length") && Atoi(value) == 0 then None
            else Some(Partial(p.msg.(named := AddNamed(p.msg.named, key, value)),
                              if AlikeKeys(key, "Content-Length") then Atoi(value) else p.bodyLen))
  {
    hide Trim, FindChar, Atoi, AddNamed, SameKey, AlikeKeys;
    SameKeyIs(key, CONTENT_LENGTH);
  }

  lemma LineParts(key: string, value: string, b0: string, b1: string, b2: string, b3: string)
    requires Trimmed(key) && Trimmed(value) && ':' !in key
    requires Blanks(b0) && Blanks(b1) && Blanks(b2) && Blanks(b3)
    ensures var line := (b0 + key + b1) + ":" + (b2 + value + b3);
      var k := FindChar(line, ':');
      k < |line| && Trim(line[..k]) == key && Trim(line[k + 1..]) == value
  {
    hide Trim, Trimmed;
    var left, right := b0 + key + b1, b2 + value + b3;
    var line := left + ":" + right;
    FindFirst(left, ':', right);
    assert line[..|left|] == left && line[|left| + 1..] == right;
    TrimAround(b0, key, b1);
    TrimAround(b2, value, b3);
  }

  /** A line without a colon, or one that announces a length of 0. */
  predicate BadLine(line: string) {
    var k := FindChar(line, ':');
    k == |line| || (AlikeKeys(Trim(line[..k]), "Content-Length") && Atoi(Trim(line[k + 1..])) == 0)
  }

  lemma BadLineIsNone(p: Partial, line: string)
    ensures ParseNamedLine(p, line).None? <==> BadLine(line)
  {
    hide Trim, Atoi, AddNamed, SameKey, AlikeKeys;
    var k := FindChar(line, ':');
    if k < |line| {
      SameKeyIs(Trim(line[..k]), CONTENT_LENGTH);
    }
  }

  lemma {:induction false} BadLinesAreNone(p: Partial, lines: seq<string>)
    ensures ParseNamedLines(p, lines).None? <==> exists i :: 0 <= i < |lines| && BadLine(lines[i])
    decreases |lines|
  {
    hide ParseNamedLine, BadLine;
    if lines != [] {
      BadLineIsNone(p, lines[0]);
      if ParseNamedLine(p, lines[0]).Some? {
        var q := ParseNamedLine(p, lines[0]).value;
        BadLinesAreNone(q, lines[1..]);
        assert forall i :: 0 < i < |lines| ==> lines[i] == lines[1..][i - 1];
      }
    }
  }

  /** A header is rejected exactly if its first line has no word or another line is bad. */
  lemma HeaderTextRejected(text: string)
    ensures var lines := Tokens(text, {'\n'});
      ParseHeaderText(text).None? <==>
        lines != [] && (Tokens(lines[0], {' ', '\t'}) == [] || exists i :: 1 <= i < |lines| && BadLine(lines[i]))
  {
    hide Tokens, BadLine;
    var lines := Tokens(text, LINE_SEPS);
    if lines != [] && ParseWords(EMPTY, lines[0]).Some? {
      BadLinesAreNone(Partial(ParseWords(EMPTY, lines[0]).value, 0), lines[1..]);
      assert forall i :: 1 <= i < |lines| ==> lines[i] == lines[1..][i - 1];
      if i :| 0 <= i < |lines[1..]| && BadLine(lines[1..][i]) {
        assert BadLine(lines[i + 1]);
      }
    }
  }

  /** There is no message exactly if there is no header within the limit, it has no text,
      it is rejected, or the length it announces is negative or more than the stream has. */
  lemma ParseFails(s: string, limit: nat)
    ensures Parse(s, limit).None? <==>
            (!HasHeader(s, limit) ||
             (var n := HeaderLength(s, limit);
              var header := ParseHeaderText(HeaderText(s, n));
              n <= 2 || header.None? || header.value.bodyLen < 0 || header.value.bodyLen > |s| - n))
  {
    hide HeaderText, ParseHeaderText;
    if HasHeader(s, limit) {
      var text := HeaderText(s, HeaderLength(s, limit));
      HeaderTextLeavesBody(text);
    }
  }

  // ----- a parse couples body and Content-Length -----

  /** Between header and body the Content-Length header is there without a body. */
  ghost predicate Transient(p: Partial) {
    && DistinctKeys(p.msg.named) && p.msg.content.None? && p.msg.contentLen == 0
    && match Lookup(p.msg.named, CONTENT_LENGTH)
       case None => p.bodyLen == 0
       case Some(v) => p.bodyLen == Atoi(v) != 0
  }

  lemma NamedLineTransient(p: Partial, line: string)
    requires Transient(p)
    ensures var r := ParseNamedLine(p, line); r.Some? ==> Transient(r.value)
  {
    hide Trim, Atoi, AddNamed, Lookup, DistinctKeys;
    var colon := FindChar(line, ':');
    if colon < |line| {
      AddNamedRefines(p.msg.named, Trim(line[..colon]), Trim(line[colon + 1..]), CONTENT_LENGTH);
    }
  }

  lemma {:induction false} NamedLinesTransient(p: Partial, lines: seq<string>)
    requires Transient(p)
    ensures var r := ParseNamedLines(p, lines); r.Some? ==> Transient(r.value)
    decreases |lines|
  {
    hide ParseNamedLine, Transient;
    if lines != [] && ParseNamedLine(p, lines[0]).Some? {
      NamedLineTransient(p, lines[0]);
      NamedLinesTransient(ParseNamedLine(p, lines[0]).value, lines[1..]);
    }
  }

  lemma HeaderTextTransient(text: string)
    ensures var r := ParseHeaderText(text); r.Some? ==> Transient(r.value)
  {
    hide Tokens;
    var lines := Tokens(text, LINE_SEPS);
    if lines != [] && ParseWords(EMPTY, lines[0]).Some? {
      NamedLinesTransient(Partial(ParseWords(EMPTY, lines[0]).value, 0), lines[1..]);
    }
  }

  lemma BodyCouples(p: Partial, rest: string)
    requires Transient(p) && p.bodyLen <= INT_MAX
    ensures var r := ParseBody(p, rest); r.Some? ==> Coupled(r.value.0)
  {
    hide Atoi, AddNamed, Lookup, DistinctKeys, Decimal;
    if 0 < p.bodyLen <= |rest| {
      AddNamedRefines(p.msg.named, CONTENT_LENGTH, Decimal(p.bodyLen), CONTENT_LENGTH);
      AtoiDecimal(p.bodyLen);
    }
  }

  /** Whatever the stream holds, a message that comes out of a parse is coupled. */
  lemma ParsedIsCoupled(s: string, limit: nat)
    requires Parse(s, limit).Some?
    ensures Coupled(Parse(s, limit).value.0)
  {
    hide Atoi, Coupled, ParseHeaderText, HeaderText;
    var n := HeaderLength(s, limit);
    HeaderTextTransient(HeaderText(s, n));
    var p := ParseHeaderText(HeaderText(s, n)).value;
    BodyCouples(p, s[n..]);
  }
}
