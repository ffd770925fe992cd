/** The messages and the session that README.md of the repository shows. */
module HmsExamples {
  import opened Common
  import opened HmsText
  import opened HmsHeaders
  import opened HmsScanner
  import opened HmsParser
  import opened HmsRoundTrip
  import opened HmsEndpoint
  import opened CopyFile

  // ----- the COPY message -----

  const COPY_EXAMPLE: string :=
    "COPY\n" + ("Filename:blah\n" + ("Offset:0\n" + "Content-Length:12\n")) + ".\n"

  lemma DecimalTwelve()
    ensures Decimal(12) == "12" && Decimal(0) == "0"
  {
    assert Decimal(1) == "1";
  }

  lemma OneLine(h: Header, rest: seq<Header>, line: string)
    requires line == h.key + ":" + h.value + "\n"
    ensures PrintNamed([h] + rest) == line + PrintNamed(rest)
  {
    assert ([h] + rest)[1..] == rest;
  }

  lemma LinesText()
    ensures "Filename" + ":" + "blah" + "\n" == "Filename:blah\n"
    ensures "Offset" + ":" + "0" + "\n" == "Offset:0\n"
    ensures "Content-Length" + ":" + "12" + "\n" == "Content-Length:12\n"
  {
  }

  lemma CopyLines(l: seq<Header>)
    requires l == [Header("Filename", "blah"), Header("Offset", "0"), Header("Content-Length", "12")]
    ensures PrintNamed(l) == "Filename:blah\n" + ("Offset:0\n" + "Content-Length:12\n")
  {
    hide PrintNamed;
    LinesText();
    OneLine(l[2], [], "Content-Length:12\n");
    OneLine(l[1], [l[2]], "Offset:0\n");
    OneLine(l[0], [l[1], l[2]], "Filename:blah\n");
    NothingPrinted();
    assert l == [l[0]] + [l[1], l[2]] && [l[1], l[2]] == [l[1]] + [l[2]] && [l[2]] == [l[2]] + [];
    assert "Content-Length:12\n" + "" == "Content-Length:12\n";
  }

  lemma NothingPrinted()
    ensures PrintNamed([]) == "" && PrintWords([]) == ""
  {
  }

  lemma CopyExampleText(payload: string)
    requires |payload| == 12
    ensures Print(ChunkMsg("blah", 0, payload)) == COPY_EXAMPLE
  {
    hide Decimal, ChunkHeaders, AddNamed, PrintNamed, PrintWords;
    DecimalTwelve();
    ChunkMsgNamed("blah", 0, payload);
    CopyLines(ChunkMsg("blah", 0, payload).named);
    NothingPrinted();
    assert "COPY" + "" + "\n" == "COPY\n";
  }

  /** The example is what the client sends for such a chunk, and is received as such. */
  lemma CopyExample(payload: string, s: string)
    requires |payload| == 12
    ensures var m := ChunkMsg("blah", 0, payload);
      && Wire(m) == COPY_EXAMPLE + payload
      && Parse(COPY_EXAMPLE + payload + s, 1024) == Some((m, s))
  {
    hide ChunkMsg, Parse, Print, Sendable, Canonical;
    var m := ChunkMsg("blah", 0, payload);
    CopyExampleText(payload);
    WireOfChunk(m, payload);
    ChunkMsgSendable("blah", 0, payload);
    SendableRoundTrip(m, s, 1024);
  }

  lemma WireOfChunk(m: Msg, payload: string)
    requires m == ChunkMsg("blah", 0, payload)
    ensures Wire(m) == Print(m) + payload
  {
  }

  /** A key in other letters, with a blank behind the colon, announces the body as well. */
  lemma LowerCaseLength(p: Partial)
    ensures ParseNamedLine(p, "content-length: 12").Some?
    ensures ParseNamedLine(p, "content-length: 12").value.bodyLen == 12
  {
    hide ParseNamedLine, Atoi, AddNamed, Decimal;
    DecimalTwelve();
    AtoiDecimal(12);
    NamedLineIs(p, "content-length", "12", "", "", " ", "");
    assert ("" + "content-length" + "") + ":" + (" " + "12" + "") == "content-length: 12";
  }

  /** The text of a header: the words of the first line with one blank between them, a
      line for each named header, and a line with a dot. */
  lemma HeaderLayout(verb: string, a: string, b: string, key: string, value: string)
    ensures Print(Msg(Some(verb), [a, b], [Header(key, value)], None, 0)) ==
            verb + (" " + a + (" " + b)) + "\n" + (key + ":" + value + "\n") + ".\n"
  {
    assert PrintWords([a, b]) == " " + a + PrintWords([b]);
    assert PrintWords([b]) == " " + b + PrintWords([]) && " " + b + "" == " " + b;
    assert PrintNamed([Header(key, value)]) == key + ":" + value + "\n" + PrintNamed([]);
    assert key + ":" + value + "\n" + "" == key + ":" + value + "\n";
  }

  // ----- the telnet session -----

  /** A verb, a blank and a dot on one line that ends in carriage return and line feed. */
  function Typed(verb: string): string {
    verb + " .\r\n"
  }

  function Bare(verb: string): Msg {
    Msg(Some(verb), [], [], None, 0)
  }

  lemma TypedHeader(verb: string, s: string)
    requires IsWord(verb) && '.' !in verb
    ensures HeaderAt(Typed(verb) + s, |verb| + 4)
    ensures HeaderText(Typed(verb) + s, |verb| + 4) == verb + " "
  {
    var all, n := Typed(verb) + s, |verb| + 4;
    assert all[..|verb| + 1] == verb + " ";
    assert DotPending(all, n - 1, |verb| + 1);
    forall m: nat | m < n
      ensures !Ends(all, m)
    {
      if 0 < m <= |verb| {
        assert all[m - 1] == verb[m - 1];
      }
    }
    LastDotIs(all, n, |verb| + 1);
    assert MapCRs(verb + " ") == verb + " ";
  }

  lemma TypedText(verb: string)
    requires IsWord(verb)
    ensures ParseHeaderText(verb + " ") == Some(Partial(Bare(verb), 0))
  {
    hide Tokens;
    TokensLast(verb + " ", LINE_SEPS);
    TokensCons(verb, ' ', "", WORD_SEPS);
    NoTokens("", WORD_SEPS);
    assert verb + [' '] + "" == verb + " ";
    assert [verb][1..] == [] && EMPTY.headers + [] == [];
    assert [verb + " "][1..] == [];
  }

  /** Typed verbs are received, with nothing left over. */
  lemma TypedVerb(verb: string, s: string)
    requires IsWord(verb) && '.' !in verb && |verb| + 4 <= 1024
    ensures Parse(Typed(verb) + s, 1024) == Some((Bare(verb), s))
  {
    hide HeaderAt, HeaderText, ParseHeaderText, Parse, IsWord;
    TypedHeader(verb, s);
    TypedText(verb);
    ParseIs(Typed(verb) + s, 1024, |verb| + 4);
    assert (Typed(verb) + s)[|verb| + 4..] == s;
  }

  lemma TypedWords()
    ensures IsWord("PING") && IsWord("INFO") && IsWord("BYE")
  {
  }

  lemma DefaultAnswers()
    ensures DefaultStatus(Bare("PING")) == 0 && DefaultStatus(Bare("INFO")) == 0 && DefaultStatus(Bare("BYE")) == -1
    ensures !CopyAccepts(Bare("PING")) && !CopyAccepts(Bare("INFO")) && !CopyAccepts(Bare("BYE"))
  {
    hide SameKey;
    SameKeyIs("PING", "PING");
    SameKeyIs("INFO", "INFO");
    SameKeyIs("BYE", "PING");
    SameKeyIs("BYE", "INFO");
    SameKeyIs("PING", "COPY");
    SameKeyIs("INFO", "COPY");
    SameKeyIs("BYE", "COPY");
    assert !Alike("INFO"[0], "COPY"[0]) && !Alike("PING"[0], "COPY"[0]);
  }

  lemma ServeNext(files: Files, s: string, m: Msg, rest: string)
    requires Parse(s, 1024) == Some((m, rest)) && !CopyAccepts(m)
    ensures Serve(COPY_OPS, files, s, 1024) ==
            if DefaultStatus(m) != 0 then (files, [m])
            else (Serve(COPY_OPS, files, rest, 1024).0, [m] + Serve(COPY_OPS, files, rest, 1024).1)
  {
    hide Parse, CopyAccepts, DefaultStatus;
    ParseConsumes(s, 1024);
  }

  /** INFO and PING are answered, BYE ends the session, and no file is touched. */
  lemma TelnetSession(files: Files, s: string)
    ensures Serve(COPY_OPS, files, Typed("INFO") + (Typed("PING") + (Typed("BYE") + s)), 1024) ==
            (files, [Bare("INFO"), Bare("PING"), Bare("BYE")])
  {
    hide Parse, Typed, CopyAccepts, DefaultStatus, IsWord, Serve;
    TypedWords();
    DefaultAnswers();
    var third := Typed("BYE") + s;
    var second := Typed("PING") + third;
    TypedVerb("BYE", s);
    TypedVerb("PING", third);
    TypedVerb("INFO", second);
    ServeNext(files, third, Bare("BYE"), s);
    ServeNext(files, second, Bare("PING"), third);
    ServeNext(files, Typed("INFO") + second, Bare("INFO"), second);
    assert [Bare("INFO")] + ([Bare("PING")] + [Bare("BYE")]) == [Bare("INFO"), Bare("PING"), Bare("BYE")];
  }
}
