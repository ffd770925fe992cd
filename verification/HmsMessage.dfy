/** struct hms_msg of src/hms/hms_msg.c: its fields updated in place, its headers on
    two intrusive lists; every method is tied to a function on message values. */
module HmsMessage {
  import opened Common
  import opened HmsText
  import opened HmsHeaders
  import opened HmsList
  import opened HmsHeaderList

  lemma {:induction false} PrintWordsAppend(s: seq<string>, w: string)
    ensures PrintWords(s + [w]) == PrintWords(s) + (" " + w)
  {
    if s == [] {
      assert PrintWords([]) == "";
    } else {
      assert (s + [w])[1..] == s[1..] + [w];
      PrintWordsAppend(s[1..], w);
    }
  }

  /** One named header as it is printed */
  function LineText(h: Header): string {
    h.key + ":" + h.value + "\n"
  }

  lemma {:induction false} PrintNamedAppend(s: seq<Header>, h: Header)
    ensures PrintNamed(s + [h]) == PrintNamed(s) + LineText(h)
  {
    if s == [] {
      assert PrintNamed([]) == "";
    } else {
      assert (s + [h])[1..] == s[1..] + [h];
      PrintNamedAppend(s[1..], h);
    }
  }

  lemma NothingToPrint()
    ensures PrintWords([]) == "" && PrintNamed([]) == ""
  {
  }

  lemma WordsUpTo(l: seq<string>, i: nat)
    requires i < |l|
    ensures PrintWords(l[..i + 1]) == PrintWords(l[..i]) + (" " + l[i])
  {
    assert l[..i + 1] == l[..i] + [l[i]];
    PrintWordsAppend(l[..i], l[i]);
  }

  lemma NamedUpTo(l: seq<Header>, i: nat)
    requires i < |l|
    ensures PrintNamed(l[..i + 1]) == PrintNamed(l[..i]) + LineText(l[i])
  {
    assert l[..i + 1] == l[..i] + [l[i]];
    PrintNamedAppend(l[..i], l[i]);
  }

  lemma {:induction false} WordsFit(l: seq<string>, i: nat)
    requires i <= |l|
    ensures |PrintWords(l[..i])| <= |PrintWords(l)|
    decreases |l| - i
  {
    if i < |l| {
      WordsUpTo(l, i);
      WordsFit(l, i + 1);
    } else {
      assert l[..i] == l;
    }
  }

  lemma {:induction false} NamedFit(l: seq<Header>, i: nat)
    requires i <= |l|
    ensures |PrintNamed(l[..i])| <= |PrintNamed(l)|
    decreases |l| - i
  {
    if i < |l| {
      NamedUpTo(l, i);
      NamedFit(l, i + 1);
    } else {
      assert l[..i] == l;
    }
  }

  // ----- writing into the caller's buffer -----

  /** `text` is at the front of the buffer; the bytes behind it are as before. */
  ghost predicate Wrote(before: string, now: string, text: string) {
    |text| <= |before| && now == text + before[|text|..]
  }

  lemma WroteNothing(before: string)
    ensures Wrote(before, before, "")
  {
  }

  /** strncpy to the offset behind the text that has been written */
  method Put(buffer: array<char>, offset: nat, s: string, ghost before: string, ghost text: string)
    returns (next: nat)
    requires Wrote(before, buffer[..], text) && offset == |text| && offset + |s| <= buffer.Length
    modifies buffer
    ensures Wrote(before, buffer[..], text + s) && next == |text + s|
  {
    forall i | 0 <= i < |s| {
      buffer[offset + i] := s[i];
    }
    next := offset + |s|;
  }

  /** One unnamed header */
  method PutWord(buffer: array<char>, offset: nat, w: string, ghost before: string, ghost text: string)
    returns (next: nat)
    requires Wrote(before, buffer[..], text) && offset == |text| && offset + |" " + w| <= buffer.Length
    modifies buffer
    ensures Wrote(before, buffer[..], text + (" " + w)) && next == |text + (" " + w)|
  {
    hide Wrote;
    next := Put(buffer, offset, " ", before, text);
    next := Put(buffer, next, w, before, text + " ");
    assert text + " " + w == text + (" " + w);
  }

  /** One named header */
  method PutLine(buffer: array<char>, offset: nat, h: Header, ghost before: string, ghost text: string)
    returns (next: nat)
    requires Wrote(before, buffer[..], text) && offset == |text|
    requires offset + |LineText(h)| <= buffer.Length
    modifies buffer
    ensures Wrote(before, buffer[..], text + LineText(h)) && next == |text + LineText(h)|
  {
    hide Wrote;
    next := Put(buffer, offset, h.key, before, text);
    next := Put(buffer, next, ":", before, text + h.key);
    next := Put(buffer, next, h.value, before, text + h.key + ":");
    next := Put(buffer, next, "\n", before, text + h.key + ":" + h.value);
    assert text + h.key + ":" + h.value + "\n" == text + LineText(h);
  }

  predicate HasKey(h: Header, key: string) {
    SameKey(h.key, key)
  }

  lemma FirstIsIndexOf(l: seq<Header>, key: string)
    ensures First(l, (h: Header) => HasKey(h, key)) == IndexOf(l, key)
  {
    FirstIs(l, (h: Header) => HasKey(h, key), IndexOf(l, key));
  }

  class HmsMsg {
    var verb: Option<string>
    const headers: HeaderList<string>
    const named: HeaderList<Header>
    var content: Option<string>
    var contentLen: int
    ghost var Repr: set<object>  // what the message consists of

    /** Both lists hold values. */
    ghost predicate Owned()
      reads headers, named
    {
      headers.Owned() && named.Owned()
    }

    ghost predicate Valid()
      reads this, headers, named, Repr
      ensures Valid() ==> this in Repr && Owned()
    {
      && Repr == {this} + headers.Repr() + named.Repr()
      && headers.Valid() && named.Valid()
      && headers.Repr() !! named.Repr() && this !in headers.Repr() && this !in named.Repr()
    }

    ghost function Value(): Msg
      requires Owned()
      reads this, headers, named
    {
      Msg(verb, headers.Values(), named.Values(), content, contentLen)
    }

    constructor ()
      ensures Valid() && Value() == EMPTY && fresh(Repr)
    {
      verb := None;
      headers := new HeaderList<string>();
      named := new HeaderList<Header>();
      content, contentLen := None, 0;
      new;
      Repr := {this} + headers.Repr() + named.Repr();
    }

    /** Zero for a message without a verb, otherwise the size of the printed header. */
    method GetHeaderSize() returns (size: nat)
      requires Valid()
      ensures size == if verb.None? then 0 else |Print(Value())|
    {
      hide IsList;
      if verb.None? {
        return 0;
      }
      var words := WordsSize();
      var lines := LinesSize();
      size := |verb.value| + words + 1 + lines + 2;
    }

    /** What the unnamed headers add to the size. */
    method WordsSize() returns (size: nat)
      requires Valid()
      ensures size == |PrintWords(headers.Values())|
    {
      hide IsList;
      ghost var l := headers.Values();
      size := 0;
      var pos := headers.Start();
      ghost var k := 0;
      headers.StandsAt(pos, k);
      while pos != headers.head
        invariant 0 <= k <= |l| && headers.Stands(pos, k) && (pos == headers.head <==> k == |l|)
        invariant size == |PrintWords(l[..k])|
        decreases |l| - k
      {
        headers.StandsAt(pos, k);
        WordsUpTo(l, k);
        size := size + 1 + |headers.owner[pos]|;
        pos := headers.Next(pos, k);
        k := k + 1;
        headers.StandsAt(pos, k);
      }
      assert l[..k] == l;
    }

    /** What the named headers add to the size. */
    method LinesSize() returns (size: nat)
      requires Valid()
      ensures size == |PrintNamed(named.Values())|
    {
      hide IsList;
      ghost var l := named.Values();
      size := 0;
      var pos := named.Start();
      ghost var k := 0;
      named.StandsAt(pos, k);
      while pos != named.head
        invariant 0 <= k <= |l| && named.Stands(pos, k) && (pos == named.head <==> k == |l|)
        invariant size == |PrintNamed(l[..k])|
        decreases |l| - k
      {
        named.StandsAt(pos, k);
        NamedUpTo(l, k);
        size := size + |named.owner[pos].key| + 1 + |named.owner[pos].value| + 1;
        pos := named.Next(pos, k);
        k := k + 1;
        named.StandsAt(pos, k);
      }
      assert l[..k] == l;
    }

    /** Prints the unnamed headers behind the verb. */
    method PutWords(buffer: array<char>, start: nat, ghost before: string, ghost text: string) returns (offset: nat)
      requires Valid() && Wrote(before, buffer[..], text) && start == |text|
      requires start + |PrintWords(headers.Values())| <= buffer.Length
      modifies buffer
      ensures Wrote(before, buffer[..], text + PrintWords(headers.Values()))
      ensures offset == |text + PrintWords(headers.Values())|
    {
      hide IsList, Wrote, PrintWords;
      ghost var l := headers.Values();
      offset := start;
      var pos := headers.Start();
      ghost var k := 0;
      headers.StandsAt(pos, k);
      NothingToPrint();
      assert l[..0] == [] && text + "" == text;
      while pos != headers.head
        invariant 0 <= k <= |l| && headers.Stands(pos, k) && (pos == headers.head <==> k == |l|)
        invariant Wrote(before, buffer[..], text + PrintWords(l[..k])) && offset == |text + PrintWords(l[..k])|
        decreases |l| - k
      {
        headers.StandsAt(pos, k);
        WordsUpTo(l, k);
        WordsFit(l, k + 1);
        ghost var done := text + PrintWords(l[..k]);
        offset := PutWord(buffer, offset, headers.owner[pos], before, done);
        assert done + (" " + l[k]) == text + PrintWords(l[..k + 1]);
        pos := headers.Next(pos, k);
        k := k + 1;
        headers.StandsAt(pos, k);
      }
      assert l[..k] == l;
    }

    /** Prints the named headers behind the verb line. */
    method PutNamedLines(buffer: array<char>, start: nat, ghost before: string, ghost text: string)
      returns (offset: nat)
      requires Valid() && Wrote(before, buffer[..], text) && start == |text|
      requires start + |PrintNamed(named.Values())| <= buffer.Length
      modifies buffer
      ensures Wrote(before, buffer[..], text + PrintNamed(named.Values()))
      ensures offset == |text + PrintNamed(named.Values())|
    {
      hide IsList, Wrote, LineText, PrintNamed;
      ghost var l := named.Values();
      offset := start;
      var pos := named.Start();
      ghost var k := 0;
      named.StandsAt(pos, k);
      NothingToPrint();
      assert l[..0] == [] && text + "" == text;
      while pos != named.head
        invariant 0 <= k <= |l| && named.Stands(pos, k) && (pos == named.head <==> k == |l|)
        invariant Wrote(before, buffer[..], text + PrintNamed(l[..k])) && offset == |text + PrintNamed(l[..k])|
        decreases |l| - k
      {
        named.StandsAt(pos, k);
        NamedUpTo(l, k);
        NamedFit(l, k + 1);
        ghost var done := text + PrintNamed(l[..k]);
        offset := PutLine(buffer, offset, named.owner[pos], before, done);
        assert done + LineText(l[k]) == text + PrintNamed(l[..k + 1]);
        pos := named.Next(pos, k);
        k := k + 1;
        named.StandsAt(pos, k);
      }
      assert l[..k] == l;
    }

    /** Prints the verb line. */
    method PutVerbLine(buffer: array<char>) returns (offset: nat)
      requires Valid() && |VerbText(Value()) + PrintWords(headers.Values()) + "\n"| <= buffer.Length
      modifies buffer
      ensures var line := VerbText(Value()) + PrintWords(headers.Values()) + "\n";
        Wrote(old(buffer[..]), buffer[..], line) && offset == |line|
    {
      hide IsList, PrintWords, Wrote;
      ghost var before, text, words := buffer[..], VerbText(Value()), PrintWords(headers.Values());
      offset := 0;
      WroteNothing(before);
      if verb.Some? {
        offset := Put(buffer, offset, verb.value, before, "");
        assert "" + verb.value == verb.value;
      }
      offset := PutWords(buffer, offset, before, text);
      offset := Put(buffer, offset, "\n", before, text + words);
    }

    /** Prints the header and nothing else; its final assertion compares the offset
        reached with the header size and holds exactly if there is a verb. */
    method PrintHeader(buffer: array<char>) returns (asserted: bool)
      requires Valid() && |Print(Value())| <= buffer.Length
      modifies buffer
      ensures buffer[..] == Print(Value()) + old(buffer[..])[|Print(Value())|..]
      ensures asserted <==> verb.Some?
    {
      hide IsList, PrintWords, PrintNamed;
      ghost var before, m := buffer[..], Value();
      ghost var line, lines := VerbText(m) + PrintWords(m.headers) + "\n", PrintNamed(m.named);
      var hdrLen := GetHeaderSize();
      var offset := PutVerbLine(buffer);
      offset := PutNamedLines(buffer, offset, before, line);
      offset := Put(buffer, offset, ".\n", before, line + lines);
      asserted := hdrLen == offset;
    }

    method SetVerb(v: string)
      requires Valid()
      modifies this`verb
      ensures Valid() && Repr == old(Repr) && Value() == old(Value()).(verb := Some(v))
    {
      verb := Some(v);
    }

    method AddHeader(value: string)
      requires Valid()
      modifies Repr
      ensures Valid() && fresh(Repr - old(Repr))
      ensures Value() == old(Value()).(headers := old(Value()).headers + [value])
    {
      headers.Append(value);
      Repr := {this} + headers.Repr() + named.Repr();
    }

    /** None for the error return */
    method GetHeader(index: int) returns (value: Option<string>)
      requires Valid()
      ensures var l := Value().headers; value == if 0 <= index < |l| then Some(l[index]) else None
    {
      value := headers.Get(index);
    }

    method DelHeader(index: int) returns (status: int)
      requires Valid()
      modifies Repr
      ensures Valid() && Repr <= old(Repr)
      ensures var m := old(Value());
        if 0 <= index < |m.headers| then status == 0 && Value() == m.(headers := DelAt(m.headers, index))
        else status == -1 && Value() == m
    {
      status := headers.DelIndex(index);
      Repr := {this} + headers.Repr() + named.Repr();
    }

    method GetNamedHeader(key: string) returns (value: Option<string>)
      requires Valid()
      ensures value == Lookup(Value().named, key)
    {
      hide IsList;
      FirstIsIndexOf(named.Values(), key);
      var h := named.Find((h: Header) => HasKey(h, key));
      value := if h.Some? then Some(h.value.value) else None;
    }

    method DelNamedHeader(key: string)
      requires Valid()
      modifies Repr
      ensures Valid() && Repr <= old(Repr)
      ensures Value() == old(Value()).(named := DelNamed(old(Value()).named, key))
    {
      FirstIsIndexOf(named.Values(), key);
      named.DelFirst((h: Header) => HasKey(h, key));
      Repr := {this} + headers.Repr() + named.Repr();
    }

    method AddNamedHeader(key: string, value: string)
      requires Valid()
      modifies Repr
      ensures Valid() && fresh(Repr - old(Repr))
      ensures Value() == old(Value()).(named := AddNamed(old(Value()).named, key, value))
    {
      DelNamedHeader(key);
      named.Append(Header(key, value));
      Repr := {this} + headers.Repr() + named.Repr();
    }

    /** The message as a caller reads it off through the getters. */
    method ToMsg() returns (m: Msg)
      requires Valid()
      ensures m == Value()
    {
      var words := headers.ToSeq();
      var lines := named.ToSeq();
      m := Msg(verb, words, lines, content, contentLen);
    }

    /** hms_msg_destroy: both assertions on the counters hold. */
    method Destroy() returns (asserted: bool)
      requires Valid()
      modifies Repr
      ensures Valid() && Repr <= old(Repr) && Value() == EMPTY && asserted
    {
      content, contentLen := None, 0;
      verb := None;
      var first := headers.Destroy();
      var second := named.Destroy();
      Repr := {this} + headers.Repr() + named.Repr();
      asserted := first && second;
    }

    method GetBodySize() returns (r: Outcome<int>)
      requires Valid()
      ensures r == HmsHeaders.GetBodySize(Value())
    {
      var value := GetNamedHeader(CONTENT_LENGTH);
      if value.Some? {
        if contentLen != Atoi(value.value) {
          return Aborted;
        }
        return Done(contentLen);
      }
      if contentLen != 0 {
        return Aborted;
      }
      r := Done(0);
    }

    method GetBody() returns (r: Outcome<Option<string>>)
      requires Valid()
      ensures r == HmsHeaders.GetBody(Value())
    {
      if content.Some? {
        var value := GetNamedHeader(CONTENT_LENGTH);
        if value.None? || contentLen != Atoi(value.value) {
          return Aborted;
        }
        return Done(content);
      }
      r := Done(None);
    }

    /** The assignments to content and content_len */
    method PutContent(data: Option<string>, len: int)
      requires Valid()
      modifies this`content, this`contentLen
      ensures Valid() && Repr == old(Repr)
      ensures Value() == old(Value()).(content := data, contentLen := len)
    {
      content := data;
      contentLen := len;
    }

    /** `aborted` is set when an assertion has ended the process. */
    method DelBody() returns (aborted: bool)
      requires Valid()
      modifies Repr
      ensures Valid() && Repr <= old(Repr)
      ensures match HmsHeaders.DelBody(old(Value()))
              case Done(m) => !aborted && Value() == m
              case Aborted => aborted
    {
      hide IsList, DelNamed, Lookup, Atoi;
      if content.Some? {
        var value := GetNamedHeader(CONTENT_LENGTH);
        if value.None? || contentLen != Atoi(value.value) {
          return true;
        }
        DelNamedHeader(CONTENT_LENGTH);
        DelNamedHeader(CONTENT_CHECKSUM);
        PutContent(None, 0);
      }
      aborted := false;
    }

    method SetBody(data: string) returns (aborted: bool)
      requires Valid()
      modifies Repr
      ensures Valid() && fresh(Repr - old(Repr))
      ensures match HmsHeaders.SetBody(old(Value()), data)
              case Done(m) => !aborted && Value() == m
              case Aborted => aborted
    {
      hide IsList, AddNamed, Decimal, Atoi, Lookup, DelNamed;
      if |data| == 0 {
        return true;
      }
      aborted := DelBody();
      if aborted || content.Some? || contentLen != 0 {
        return true;
      }
      PutContent(Some(data), |data|);
      AddNamedHeader(CONTENT_LENGTH, Decimal(|data|));
    }
  }

  // ----- every sequence of public operations on an object -----

  /** One public operation; `aborted` is set when an assertion has ended the process. */
  method Perform(msg: HmsMsg, op: Op) returns (aborted: bool)
    requires msg.Valid()
    modifies msg.Repr
    ensures msg.Valid() && fresh(msg.Repr - old(msg.Repr))
    ensures match ApplyOp(old(msg.Value()), op)
            case Done(m) => !aborted && msg.Value() == m
            case Aborted => aborted
  {
    hide HmsMsg.Valid, GetBodySize, GetBody, SetBody, DelBody, AddNamed, DelNamed;
    aborted := false;
    match op {
      case SetVerbOp(verb) => msg.SetVerb(verb);
      case AddHeaderOp(value) => msg.AddHeader(value);
      case DelHeaderOp(index) => var status := msg.DelHeader(index);
      case AddNamedOp(key, value) => msg.AddNamedHeader(key, value);
      case DelNamedOp(key) => msg.DelNamedHeader(key);
      case SetBodyOp(data) => aborted := msg.SetBody(data);
      case DelBodyOp => aborted := msg.DelBody();
      case GetBodySizeOp =>
        var size := msg.GetBodySize();
        aborted := size.Aborted?;
      case GetBodyOp =>
        var body := msg.GetBody();
        aborted := body.Aborted?;
    }
  }

  /** Operations that leave Content-Length to the body functions never end the process,
      and the message object stays coupled. */
  method PerformAll(msg: HmsMsg, ops: seq<Op>) returns (aborted: bool)
    requires msg.Valid() && Coupled(msg.Value()) && Proper(ops)
    modifies msg.Repr
    ensures !aborted && msg.Valid() && Coupled(msg.Value())
    ensures ApplyOps(old(msg.Value()), ops) == Done(msg.Value())
  {
    hide HmsMsg.Valid, ApplyOp, Coupled;
    aborted := false;
    var i := 0;
    assert ops[0..] == ops;
    while i < |ops|
      invariant 0 <= i <= |ops| && !aborted && msg.Valid() && fresh(msg.Repr - old(msg.Repr))
      invariant Coupled(msg.Value())
      invariant ApplyOps(msg.Value(), ops[i..]) == ApplyOps(old(msg.Value()), ops)
    {
      OpKeepsCoupling(msg.Value(), ops[i]);
      assert ops[i..][0] == ops[i] && ops[i..][1..] == ops[i + 1..];
      aborted := Perform(msg, ops[i]);
      i := i + 1;
    }
    assert ops[i..] == [];
  }
}
