/** The COPY command: src/tests/copy_client.c cuts a file into messages,
    src/tests/copy_server.c writes each one at its offset. */
module CopyFile {
  import opened Common
  import opened HmsText
  import opened HmsHeaders
  import opened HmsMessage
  import opened HmsScanner
  import opened HmsParser
  import opened HmsRoundTrip
  import opened HmsEndpoint

  const FILENAME: string := "Filename"
  const OFFSET: string := "Offset"
  const COPY: string := "COPY"

  // ----- client -----

  /** The named headers of one chunk */
  function ChunkHeaders(dst: string, offset: nat): seq<Header> {
    AddNamed(AddNamed([], FILENAME, dst), OFFSET, Decimal(offset))
  }

  /** The message that __send_chunk builds */
  function ChunkMsg(dst: string, offset: nat, data: string): Msg {
    Msg(Some(COPY), [], AddNamed(ChunkHeaders(dst, offset), CONTENT_LENGTH, Decimal(|data|)), Some(data), |data|)
  }

  /** The messages for what is left of the file from `offset` on */
  function Chunks(src: string, dst: string, offset: nat, size: nat): seq<Msg>
    requires size > 0 && offset <= |src|
    decreases |src| - offset
  {
    if offset == |src| then []
    else
      var len := if |src| - offset > size then size else |src| - offset;
      [ChunkMsg(dst, offset, src[offset..offset + len])] + Chunks(src, dst, offset + len, size)
  }

  /** __send_chunk with a successful pread. Its result does not depend on whether the
      send succeeds: the second test looks at the result of hms_msg_set_body again. */
  method SendChunk(socket: Socket, src: string, dst: string, offset: nat, len: nat) returns (status: int)
    requires 0 < len && offset + len <= |src| <= INT_MAX
    modifies socket
    ensures status == 0
    ensures old(socket.broken) ==> socket.broken
    ensures old(socket.wire) <= socket.wire
    ensures var all := old(socket.wire) + Wire(ChunkMsg(dst, offset, src[offset..offset + len]));
      && |socket.wire| <= |all|
      && (!old(socket.broken) ==>
            && (socket.wire == all <==> !socket.broken)
            && (socket.broken ==> |socket.wire| < |all|))
      && (old(socket.StaysDown()) ==>
            && socket.StaysDown()
            && (old(socket.broken) ==> socket.wire == old(socket.wire))
            && (!old(socket.broken) && socket.broken ==> socket.wire < all))
  {
    hide AddNamed, Decimal, HmsMsg.Valid;
    var data := src[offset..offset + len];
    var request := new HmsMsg();
    request.SetVerb(COPY);
    request.AddNamedHeader(FILENAME, dst);
    request.AddNamedHeader(OFFSET, Decimal(offset));
    var aborted := request.SetBody(data);
    ChunkMsgCoupled(dst, offset, data);
    assert request.Value() == ChunkMsg(dst, offset, data);
    CoupledIsSafe(request.Value());
    var sent := SendMsg(socket, request, true);
    status := 0;
  }

  /** The chunk loop of main. The status is zero whatever has left the client: all
      messages, or less than that if a send has failed. */
  method SendFile(socket: Socket, src: string, dst: string, chunkSize: nat) returns (status: int, ghost whole: nat)
    requires chunkSize > 0 && |src| <= INT_MAX && socket.wire == "" && !socket.broken
    modifies socket
    ensures status == 0
    ensures var msgs := Chunks(src, dst, 0, chunkSize);
      && whole <= |msgs| && (whole == |msgs| <==> !socket.broken)
      && Wires(msgs[..whole]) <= socket.wire
      && (socket.wire == Wires(msgs) <==> !socket.broken)
      && (old(socket.StaysDown()) && socket.broken ==> socket.wire < Wires(msgs))
  {
    hide Chunks, Wires, Wire, ChunkMsg;
    var left, offset := |src|, 0;
    status := 0;
    whole := 0;
    ghost var msgs, sent := Chunks(src, dst, 0, chunkSize), 0;
    assert msgs[0..] == msgs;
    WiresNone(msgs);
    while left > 0
      invariant 0 <= left && offset + left == |src| && status == 0
      invariant sent <= |msgs| && msgs[sent..] == Chunks(src, dst, offset, chunkSize)
      invariant whole <= sent && (whole == sent <==> !socket.broken) && Wires(msgs[..whole]) <= socket.wire
      invariant if socket.broken then |socket.wire| < |Wires(msgs[..sent])| else socket.wire == Wires(msgs[..sent])
      invariant old(socket.StaysDown()) ==>
                  socket.StaysDown() && (socket.broken ==> socket.wire < Wires(msgs[..sent]))
    {
      NextChunk(src, dst, offset, chunkSize, msgs, sent);
      WiresUpTo(msgs, sent);
      if left > chunkSize {
        status := SendChunk(socket, src, dst, offset, chunkSize);
        offset, left := offset + chunkSize, left - chunkSize;
      } else {
        status := SendChunk(socket, src, dst, offset, left);
        offset, left := offset + left, 0;
      }
      sent := sent + 1;
      if !socket.broken {
        whole := sent;
      }
    }
    NoMoreChunks(src, dst, chunkSize);
    assert msgs[..sent] == msgs;
  }

  lemma NextChunk(src: string, dst: string, offset: nat, size: nat, msgs: seq<Msg>, sent: nat)
    requires size > 0 && offset < |src| && sent <= |msgs| && msgs[sent..] == Chunks(src, dst, offset, size)
    ensures var len := if |src| - offset > size then size else |src| - offset;
      && sent < |msgs| && msgs[sent] == ChunkMsg(dst, offset, src[offset..offset + len])
      && msgs[sent + 1..] == Chunks(src, dst, offset + len, size)
  {
    hide ChunkMsg;
    var len := if |src| - offset > size then size else |src| - offset;
    var chunks := Chunks(src, dst, offset, size);
    assert chunks[0] == ChunkMsg(dst, offset, src[offset..offset + len]);
    assert chunks[1..] == Chunks(src, dst, offset + len, size);
    assert msgs[sent] == msgs[sent..][0] && msgs[sent..][1..] == msgs[sent + 1..];
  }

  lemma NoMoreChunks(src: string, dst: string, size: nat)
    requires size > 0
    ensures Chunks(src, dst, |src|, size) == []
  {
  }

  // ----- server -----

  /** Files by name; bytes that were never written read as NUL. */
  type Files = map<string, string>

  /** pwrite at an offset, possibly beyond the end of the file */
  function WriteAt(file: string, offset: nat, data: string): (r: string)
    ensures |r| == if data == "" then |file| else if |file| > offset + |data| then |file| else offset + |data|
  {
    if data == "" then file
    else if |file| < offset then file + seq(offset - |file|, _ => NUL) + data
    else if offset + |data| >= |file| then file[..offset] + data
    else file[..offset] + data + file[offset + |data|..]
  }

  /** Byte by byte: the data at its offset, the old file elsewhere, and zero bytes in a
      gap between the old end and the offset. */
  lemma WriteAtIs(file: string, offset: nat, data: string, i: nat)
    requires i < |WriteAt(file, offset, data)|
    ensures WriteAt(file, offset, data)[i] ==
            if offset <= i < offset + |data| then data[i - offset] else if i < |file| then file[i] else NUL
  {
  }

  function OpenFile(files: Files, name: string): Files {
    if name in files then files else files[name := ""]
  }

  predicate CopyAccepts(m: Msg) {
    m.verb.Some? && SameKey(m.verb.value, COPY)
  }

  /** The verb may be in any letters. */
  lemma CopyAcceptsIs(m: Msg)
    ensures CopyAccepts(m) <==> m.verb.Some? && AlikeKeys(m.verb.value, "COPY")
  {
    hide SameKey;
    if m.verb.Some? {
      SameKeyIs(m.verb.value, COPY);
    }
  }

  /** __copy_handle, with a file system in which only the empty name cannot be fs. */
  function CopyHandle(files: Files, m: Msg): (Files, int) {
    var filename, offsetStr := Lookup(m.named, FILENAME), Lookup(m.named, OFFSET);
    if filename.None? || offsetStr.None? || filename.value == "" then (files, -1)
    else
      var fs := OpenFile(files, filename.value);
      var offset, length, data := Atoi(offsetStr.value), GetBodySize(m), GetBody(m);
      if length.Aborted? || data.Aborted? || data.value.None? then (fs, -1)
      else if |data.value.value| != length.value || offset < 0 then (fs, -1)
      else (fs[filename.value := WriteAt(fs[filename.value], offset, data.value.value)], 0)
  }

  /** is_copy is never set, so every message passes validation. */
  const COPY_OPS: Ops<Files> :=
    Ops(m => true, m => CopyAccepts(m), (files, m) => CopyHandle(files, m),
        (files, m) => (files, DefaultStatus(m)))

  /** The handler succeeds exactly if the message names a file and an offset that is not
      negative and its body can be read. The file is created, if it does not exist, as
      soon as both headers are there, and no other file is touched. */
  lemma CopyHandleIs(files: Files, m: Msg)
    requires Safe(m)
    ensures var name, offset := Lookup(m.named, "Filename"), Lookup(m.named, "Offset");
      var (after, status) := CopyHandle(files, m);
      && (status == 0 || status == -1)
      && (status == 0 <==>
            name.Some? && name.value != "" && offset.Some? && Atoi(offset.value) >= 0 && m.content.Some?)
      && (if name.None? || name.value == "" || offset.None? then after == files
          else
            && name.value in after && after == files[name.value := after[name.value]]
            && var before := OldContents(files, name.value);
               after[name.value] ==
                 if status == 0 then WriteAt(before, Atoi(offset.value), m.content.value) else before)
  {
    hide Atoi, WriteAt, Lookup, GetBodySize, GetBody, Safe;
    GettersAre(m);
    var name := Lookup(m.named, FILENAME);
    if name.Some? && name.value in files {
      assert files[name.value := files[name.value]] == files;
    }
  }

  // ----- chunk messages -----

  /** A destination name that a header line can carry */
  predicate IsDestination(dst: string) {
    dst != "" && IsValue(dst) && !EndsInDot(dst)
  }

  lemma KeysDiffer()
    ensures !SameKey(FILENAME, OFFSET) && !SameKey(FILENAME, CONTENT_LENGTH) && !SameKey(OFFSET, CONTENT_LENGTH)
  {
    assert |Lower(FILENAME)| == 8 && |Lower(OFFSET)| == 6 && |Lower(CONTENT_LENGTH)| == 14;
  }

  lemma ChunkMsgNamed(dst: string, offset: nat, data: string)
    ensures ChunkMsg(dst, offset, data).named ==
            [Header(FILENAME, dst), Header(OFFSET, Decimal(offset)), Header(CONTENT_LENGTH, Decimal(|data|))]
  {
    KeysDiffer();
    IndexOfNone([], FILENAME);
    var one := [Header(FILENAME, dst)];
    assert AddNamed([], FILENAME, dst) == one;
    IndexOfNone(one, OFFSET);
    var two := one + [Header(OFFSET, Decimal(offset))];
    assert AddNamed(one, OFFSET, Decimal(offset)) == two;
    IndexOfNone(two, CONTENT_LENGTH);
  }

  lemma ChunkMsgCoupled(dst: string, offset: nat, data: string)
    requires 0 < |data| <= INT_MAX
    ensures Coupled(ChunkMsg(dst, offset, data))
  {
    hide AddNamed, Decimal, Lookup, Atoi, DistinctKeys;
    DistinctNone();
    AddNamedRefines([], FILENAME, dst, FILENAME);
    AddNamedRefines(AddNamed([], FILENAME, dst), OFFSET, Decimal(offset), OFFSET);
    AddNamedRefines(ChunkHeaders(dst, offset), CONTENT_LENGTH, Decimal(|data|), CONTENT_LENGTH);
    AtoiDecimal(|data|);
  }

  lemma DistinctNone()
    ensures DistinctKeys([])
  {
  }

  lemma {:induction false} DecimalShape(n: nat)
    ensures IsValue(Decimal(n)) && !EndsInDot(Decimal(n))
    ensures n <= INT_MAX ==> |Decimal(n)| <= 10
  {
    DecimalLength(n, 10);
  }

  function Power10(k: nat): nat {
    if k == 0 then 1 else 10 * Power10(k - 1)
  }

  lemma {:induction false} DecimalLength(n: nat, k: nat)
    requires k > 0
    ensures n < Power10(k) ==> |Decimal(n)| <= k
  {
    if n >= 10 && n < Power10(k) {
      assert Power10(1) == 10 * Power10(0);
      DecimalLength(n / 10, k - 1);
    }
  }

  lemma ChunkMsgSize(dst: string, offset: nat, data: string)
    ensures |Print(ChunkMsg(dst, offset, data))| == 41 + |dst| + |Decimal(offset)| + |Decimal(|data|)|
  {
    hide Decimal;
    ChunkMsgNamed(dst, offset, data);
    var l := ChunkMsg(dst, offset, data).named;
    assert |PrintNamed(l)| == 10 + |dst| + |PrintNamed(l[1..])|;
    assert |PrintNamed(l[1..])| == 8 + |Decimal(offset)| + |PrintNamed(l[1..][1..])|;
    assert |PrintNamed(l[1..][1..])| == 16 + |Decimal(|data|)| + |PrintNamed(l[1..][1..][1..])|;
  }

  lemma ChunkMsgPrintable(dst: string, offset: nat, data: string)
    requires IsDestination(dst) && 0 < |data| <= INT_MAX
    ensures Printable(ChunkMsg(dst, offset, data)) && !EarlyDot(ChunkMsg(dst, offset, data))
  {
    hide Coupled, Decimal, ChunkHeaders, AddNamed;
    ChunkMsgNamed(dst, offset, data);
    ChunkMsgCoupled(dst, offset, data);
    DecimalShape(offset);
    DecimalShape(|data|);
    assert IsWord(COPY) && IsKey(FILENAME) && IsKey(OFFSET) && IsKey(CONTENT_LENGTH);
  }

  lemma ChunkMsgSendable(dst: string, offset: nat, data: string)
    requires IsDestination(dst) && 0 < |data| <= INT_MAX
    ensures Sendable(ChunkMsg(dst, offset, data))
    ensures Canonical(ChunkMsg(dst, offset, data)) == ChunkMsg(dst, offset, data)
  {
    hide Printable, EarlyDot, Print, Decimal, ChunkHeaders, AddNamed, Canonical;
    ChunkMsgNamed(dst, offset, data);
    ChunkMsgPrintable(dst, offset, data);
    CanonicalFixed(ChunkMsg(dst, offset, data));
  }

  lemma ChunkMsgHandled(files: Files, dst: string, offset: nat, data: string)
    requires IsDestination(dst) && 0 < |data| <= INT_MAX && offset <= INT_MAX
    ensures Dispatch(COPY_OPS, files, ChunkMsg(dst, offset, data)) ==
            (var fs := OpenFile(files, dst);
             (fs[dst := WriteAt(fs[dst], offset, data)], 0))
  {
    var m := ChunkMsg(dst, offset, data);
    ChunkMsgNamed(dst, offset, data);
    ChunkMsgCoupled(dst, offset, data);
    KeysDiffer();
    IndexOfIs(m.named, FILENAME, 0);
    IndexOfIs(m.named, OFFSET, 1);
    AtoiDecimal(offset);
  }

  // ----- end to end -----

  /** The chunks cover the file exactly: their bodies are its pieces, in order. */
  function Bodies(msgs: seq<Msg>): string {
    if msgs == [] then "" else (if msgs[0].content.Some? then msgs[0].content.value else "") + Bodies(msgs[1..])
  }

  lemma {:induction false} ChunksCover(src: string, dst: string, offset: nat, size: nat)
    requires size > 0 && offset <= |src|
    ensures Bodies(Chunks(src, dst, offset, size)) == src[offset..]
    decreases |src| - offset
  {
    hide ChunkHeaders, AddNamed, Decimal;
    if offset < |src| {
      var len := if |src| - offset > size then size else |src| - offset;
      ChunksCover(src, dst, offset + len, size);
      assert src[offset..] == src[offset..offset + len] + src[offset + len..];
    }
  }

  lemma NextMultiple(i: nat, size: nat)
    requires i > 0
    ensures i * size == size + (i - 1) * size && (i - 1) * size >= 0
  {
    assert i * size == (1 + (i - 1)) * size;
  }

  /** Chunk number i starts at i times the chunk size and has that size, or what is left. */
  lemma {:induction false} ChunkNumber(src: string, dst: string, offset: nat, size: nat, i: nat)
    requires size > 0 && offset <= |src|
    ensures i < |Chunks(src, dst, offset, size)| <==> offset + i * size < |src|
    ensures offset + i * size < |src| ==>
              var at := offset + i * size;
              var len := if |src| - at < size then |src| - at else size;
              i < |Chunks(src, dst, offset, size)|
              && Chunks(src, dst, offset, size)[i] == ChunkMsg(dst, at, src[at..at + len])
    decreases i
  {
    hide ChunkMsg;
    if i > 0 && offset < |src| {
      NextMultiple(i, size);
      var len := if |src| - offset > size then size else |src| - offset;
      ChunkNumber(src, dst, offset + len, size, i - 1);
    } else if i == 0 {
      assert 0 * size == 0;
    }
  }

  lemma {:induction false} ChunksSendable(src: string, dst: string, offset: nat, size: nat)
    requires size > 0 && offset <= |src| <= INT_MAX && IsDestination(dst)
    ensures forall m :: m in Chunks(src, dst, offset, size) ==> Sendable(m) && Canonical(m) == m
    decreases |src| - offset
  {
    hide ChunkMsg, IsDestination, Sendable, Canonical;
    if offset < |src| {
      var len := if |src| - offset > size then size else |src| - offset;
      ChunkMsgSendable(dst, offset, src[offset..offset + len]);
      ChunksSendable(src, dst, offset + len, size);
    }
  }

  /** Every chunk's header is within the limit of the receiver. */
  ghost predicate HeadersFit(msgs: seq<Msg>) {
    forall m :: m in msgs ==> |Print(m)| <= HERMES_MAX_HDR_SIZE
  }

  /** Names of up to 963 bytes fit, next to two numbers of at most ten digits. */
  lemma {:induction false} ShortNamesFit(src: string, dst: string, offset: nat, size: nat)
    requires size > 0 && offset <= |src| <= INT_MAX && |dst| <= 963
    ensures HeadersFit(Chunks(src, dst, offset, size))
    decreases |src| - offset
  {
    hide ChunkMsg, Print, Decimal;
    if offset < |src| {
      var len := if |src| - offset > size then size else |src| - offset;
      ChunkMsgSize(dst, offset, src[offset..offset + len]);
      DecimalShape(offset);
      DecimalShape(len);
      ShortNamesFit(src, dst, offset + len, size);
    }
  }

  /** A name of 982 bytes or more fits no header. */
  lemma LongNamesDoNotFit(src: string, dst: string, size: nat)
    requires size > 0 && src != "" && |dst| >= 982
    ensures !HeadersFit(Chunks(src, dst, 0, size))
  {
    hide ChunkMsg, Print, Decimal;
    var len := if |src| > size then size else |src|;
    var m := ChunkMsg(dst, 0, src[0..len]);
    ChunkMsgSize(dst, 0, src[0..len]);
    assert Chunks(src, dst, 0, size)[0] == m;
  }

  /** The first `offset` bytes are written, the others are as before. */
  predicate Written(src: string, offset: nat, before: string, now: string)
    requires offset <= |src|
  {
    now == src[..offset] + (if offset < |before| then before[offset..] else "")
  }

  lemma WriteNext(src: string, offset: nat, len: nat, before: string, now: string)
    requires 0 < len && offset + len <= |src| && Written(src, offset, before, now)
    ensures Written(src, offset + len, before, WriteAt(now, offset, src[offset..offset + len]))
  {
    assert src[..offset + len] == src[..offset] + src[offset..offset + len];
    assert now[..offset] == src[..offset];
    if offset + len < |now| {
      assert now[offset + len..] == before[offset + len..];
    }
  }

  /** How far the first k of the chunks from `offset` on reach. */
  function Reach(src: string, offset: nat, size: nat, k: nat): (r: nat)
    requires size > 0 && offset <= |src|
    ensures r <= |src|
  {
    if |src| - offset <= k * size then |src| else offset + k * size
  }

  lemma ReachNext(src: string, offset: nat, size: nat, k: nat)
    requires size > 0 && offset < |src| && k > 0
    ensures var len := if |src| - offset > size then size else |src| - offset;
      Reach(src, offset, size, k) == Reach(src, offset + len, size, k - 1)
  {
    assert (k - 1) * size == k * size - size;
    assert (k - 1) * size >= 0;
  }

  /** The first n bytes of the source are in the destination, behind them is what the
      destination held there; no other file is changed. */
  function CopiedUpTo(files: Files, src: string, dst: string, n: nat): Files
    requires n <= |src|
  {
    var before := OldContents(files, dst);
    if n == 0 then files else files[dst := src[..n] + (if n < |before| then before[n..] else "")]
  }

  function OldContents(files: Files, dst: string): string {
    if dst in files then files[dst] else ""
  }

  /** Delivering some of the remaining chunks writes what they reach, and nothing else. */
  lemma {:induction false} DeliverChunks(files: Files, src: string, dst: string, offset: nat, size: nat, k: nat)
    requires size > 0 && offset <= |src| <= INT_MAX && IsDestination(dst)
    requires k <= |Chunks(src, dst, offset, size)|
    ensures Deliver(COPY_OPS, CopiedUpTo(files, src, dst, offset), Chunks(src, dst, offset, size)[..k]) ==
            (CopiedUpTo(files, src, dst, Reach(src, offset, size, k)), Chunks(src, dst, offset, size)[..k])
    decreases k
  {
    hide ChunkMsg, IsDestination, Canonical, Dispatch, WriteAt, CopiedUpTo, Reach;
    var chunks := Chunks(src, dst, offset, size);
    if k == 0 {
      assert chunks[..0] == [] && Reach(src, offset, size, 0) == offset by { ReachNothing(src, offset, size); }
    } else {
      var len := if |src| - offset > size then size else |src| - offset;
      var data := src[offset..offset + len];
      var m := ChunkMsg(dst, offset, data);
      ChunkMsgSendable(dst, offset, data);
      ChunkMsgCopies(files, src, dst, offset, len);
      assert chunks[..k][0] == m && chunks[..k][1..] == Chunks(src, dst, offset + len, size)[..k - 1];
      DeliverChunks(files, src, dst, offset + len, size, k - 1);
      ReachNext(src, offset, size, k);
      assert [m] + chunks[..k][1..] == chunks[..k];
    }
  }

  lemma ReachNothing(src: string, offset: nat, size: nat)
    requires size > 0 && offset <= |src|
    ensures Reach(src, offset, size, 0) == offset
  {
  }

  /** One chunk message takes the destination one chunk further. */
  lemma ChunkMsgCopies(files: Files, src: string, dst: string, offset: nat, len: nat)
    requires 0 < len && offset + len <= |src| <= INT_MAX && IsDestination(dst)
    ensures Dispatch(COPY_OPS, CopiedUpTo(files, src, dst, offset), ChunkMsg(dst, offset, src[offset..offset + len])) ==
            (CopiedUpTo(files, src, dst, offset + len), 0)
  {
    hide ChunkMsg, IsDestination, Dispatch, WriteAt;
    var now := CopiedUpTo(files, src, dst, offset);
    var before := OldContents(files, dst);
    ChunkMsgHandled(now, dst, offset, src[offset..offset + len]);
    assert src[..0] + before == before && (0 < |before| ==> before[0..] == before);
    assert Written(src, offset, before, OpenFile(now, dst)[dst]);
    WriteNext(src, offset, len, before, OpenFile(now, dst)[dst]);
    var next := WriteAt(OpenFile(now, dst)[dst], offset, src[offset..offset + len]);
    assert OpenFile(now, dst)[dst := next] == files[dst := next];
  }

  /** What a complete copy makes of the files: the source at the front of the
      destination, behind it what the destination held there, no other file changed. */
  function Copied(files: Files, src: string, dst: string): Files {
    var before := OldContents(files, dst);
    files[dst := src + (if |src| < |before| then before[|src|..] else "")]
  }

  /** Every message of the file copies it, except that nothing is sent for an empty one,
      so that a destination that does not exist is not created. */
  lemma CopiedIs(files: Files, src: string, dst: string)
    ensures CopiedUpTo(files, src, dst, |src|) == Copied(files, src, dst) <==> src != "" || dst in files
  {
    assert src[..|src|] == src;
    if src == "" && dst in files {
      assert "" + files[dst] == files[dst];
      assert files[dst := files[dst]] == files;
    }
  }

  lemma ReachAll(src: string, dst: string, offset: nat, size: nat)
    requires size > 0 && offset <= |src|
    ensures Reach(src, offset, size, |Chunks(src, dst, offset, size)|) == |src|
    decreases |src| - offset
  {
    hide ChunkMsg, Reach;
    if offset < |src| {
      var len := if |src| - offset > size then size else |src| - offset;
      ReachAll(src, dst, offset + len, size);
      ReachNext(src, offset, size, |Chunks(src, dst, offset, size)|);
    } else {
      ReachNothing(src, offset, size);
    }
  }

  /** What the first k chunks make of the files. */
  function AfterChunks(files: Files, src: string, dst: string, size: nat, k: nat): Files
    requires size > 0
  {
    CopiedUpTo(files, src, dst, Reach(src, 0, size, k))
  }

  lemma DeliverFirst(files: Files, src: string, dst: string, size: nat, k: nat)
    requires size > 0 && |src| <= INT_MAX && IsDestination(dst)
    requires k <= |Chunks(src, dst, 0, size)|
    ensures Deliver(COPY_OPS, files, Chunks(src, dst, 0, size)[..k]) ==
            (AfterChunks(files, src, dst, size, k), Chunks(src, dst, 0, size)[..k])
  {
    hide Chunks, Reach, Deliver, IsDestination;
    DeliverChunks(files, src, dst, 0, size, k);
  }

  /** The server receives all chunks if and only if every header fits the limit,
      otherwise those in front of the first that does not. */
  lemma CopyServed(files: Files, src: string, dst: string, size: nat) returns (k: nat)
    requires size > 0 && |src| <= INT_MAX && IsDestination(dst)
    ensures var msgs := Chunks(src, dst, 0, size);
      && k <= |msgs| && (k == |msgs| <==> HeadersFit(msgs))
      && Serve(COPY_OPS, files, Wires(msgs), HERMES_MAX_HDR_SIZE) == (AfterChunks(files, src, dst, size, k), msgs[..k])
  {
    hide IsDestination, Parse, Serve, Deliver, Chunks, Sendable, Canonical, AfterChunks;
    var msgs := Chunks(src, dst, 0, size);
    var fitting := Fitting(msgs, HERMES_MAX_HDR_SIZE);
    ChunksSendable(src, dst, 0, size);
    EmptyStreamEnds(HERMES_MAX_HDR_SIZE);
    Pipelined(COPY_OPS, files, msgs, "", HERMES_MAX_HDR_SIZE);
    assert Wires(msgs) + "" == Wires(msgs);
    k := |fitting|;
    assert fitting == msgs[..k] && (k == |msgs| ==> msgs[..k] == msgs);
    DeliverFirst(files, src, dst, size, k);
  }

  /** The bytes that the client sends, served by the copy server, are received message
      by message and copy the file if and only if every header fits the limit and there
      is something to send or a destination already. */
  lemma CopyEndToEnd(files: Files, src: string, dst: string, size: nat)
    requires size > 0 && |src| <= INT_MAX && IsDestination(dst)
    ensures var msgs := Chunks(src, dst, 0, size);
      Serve(COPY_OPS, files, Wires(msgs), HERMES_MAX_HDR_SIZE) == (Copied(files, src, dst), msgs) <==>
        (src != "" || dst in files) && HeadersFit(msgs)
  {
    hide IsDestination, Serve, Chunks, CopiedUpTo, Copied, Reach, HeadersFit;
    var msgs := Chunks(src, dst, 0, size);
    var k := CopyServed(files, src, dst, size);
    ReachAll(src, dst, 0, size);
    CopiedIs(files, src, dst);
    assert msgs[..|msgs|] == msgs;
  }

  /** Whatever part of the client's bytes arrives, the server receives the first chunks
      and the destination holds what they reach. */
  lemma CopyInterrupted(files: Files, src: string, dst: string, size: nat, t: string) returns (k: nat)
    requires size > 0 && |src| <= INT_MAX && IsDestination(dst)
    requires t < Wires(Chunks(src, dst, 0, size))
    ensures var msgs := Chunks(src, dst, 0, size);
      && k < |msgs|
      && Serve(COPY_OPS, files, t, HERMES_MAX_HDR_SIZE) == (AfterChunks(files, src, dst, size, k), msgs[..k])
  {
    hide IsDestination, Serve, Deliver, Chunks, Sendable, Canonical, AfterChunks, Wires, Fitting;
    var msgs := Chunks(src, dst, 0, size);
    ChunksSendable(src, dst, 0, size);
    var whole := CutPipeline(COPY_OPS, files, msgs, t, HERMES_MAX_HDR_SIZE);
    var fitting := Fitting(msgs[..whole], HERMES_MAX_HDR_SIZE);
    k := |fitting|;
    assert fitting == msgs[..whole][..k] == msgs[..k];
    DeliverFirst(files, src, dst, size, k);
  }

  /** Whatever follows the first chunks in the stream, they are received first. */
  lemma CopyResumed(files: Files, src: string, dst: string, size: nat, t: string, whole: nat) returns (k: nat)
    requires size > 0 && |src| <= INT_MAX && IsDestination(dst)
    requires whole < |Chunks(src, dst, 0, size)| && Wires(Chunks(src, dst, 0, size)[..whole]) <= t
    ensures k <= whole && Chunks(src, dst, 0, size)[..k] <= Serve(COPY_OPS, files, t, HERMES_MAX_HDR_SIZE).1
  {
    hide IsDestination, Serve, Deliver, Chunks, Sendable, Canonical, AfterChunks, Wires;
    var msgs := Chunks(src, dst, 0, size);
    ChunksSendable(src, dst, 0, size);
    var sent := Wires(msgs[..whole]);
    assert sent + t[|sent|..] == t;
    PipelinedFront(COPY_OPS, files, msgs[..whole], t[|sent|..], HERMES_MAX_HDR_SIZE);
    k := |Fitting(msgs[..whole], HERMES_MAX_HDR_SIZE)|;
    assert Fitting(msgs[..whole], HERMES_MAX_HDR_SIZE) == msgs[..k];
    DeliverFirst(files, src, dst, size, k);
  }

  /** Client and server over a connection that splits sends and reads in any way. The
      server receives the first k chunks first: all of them unless a send has failed or a
      header exceeds the limit. On a connection that stays down it receives and writes
      nothing else. The client reports success in any case. */
  method Transfer(socket: Socket, sizes: nat -> nat, files: Files, src: string, dst: string, size: nat)
    returns (status: int, result: Files, ghost received: seq<Msg>, ghost k: nat)
    requires socket.wire == "" && !socket.broken
    requires size > 0 && |src| <= INT_MAX && IsDestination(dst)
    modifies socket
    ensures status == 0
    ensures var msgs := Chunks(src, dst, 0, size);
      && k <= |msgs| && (k == |msgs| <==> !socket.broken && HeadersFit(msgs))
      && msgs[..k] <= received
      && (!socket.broken || old(socket.StaysDown()) ==>
            && (result, received) == (AfterChunks(files, src, dst, size, k), msgs[..k])
            && ((result, received) == (Copied(files, src, dst), msgs) <==>
                  !socket.broken && HeadersFit(msgs) && (src != "" || dst in files)))
  {
    hide IsDestination, Serve, Chunks, Wires, Copied, HeadersFit, AfterChunks;
    ghost var whole;
    status, whole := SendFile(socket, src, dst, size);
    if !socket.broken {
      k := CopyServed(files, src, dst, size);
      CopyEndToEnd(files, src, dst, size);
    } else if old(socket.StaysDown()) {
      k := CopyInterrupted(files, src, dst, size, socket.wire);
    } else {
      k := CopyResumed(files, src, dst, size, socket.wire, whole);
    }
    var stream := new Stream(socket.wire, sizes);
    ghost var worlds, statuses, streams;
    result, received, worlds, statuses, streams := HandleEndpoint(stream, COPY_OPS, files);
  }
}
