/** src/hms/hermes.c: sending a message in however many pieces, and the loop that
    receives messages and hands them to the handlers. */
module HmsEndpoint {
  import opened Common
  import opened HmsText
  import opened HmsHeaders
  import opened HmsMessage
  import opened HmsScanner
  import opened HmsParser
  import opened HmsRoundTrip

  const HERMES_MAX_HDR_SIZE: nat := 1024

  // ----- sending -----

  /** The sending end of a connection: `wire` is what has left so far. Sends may be
      partial in any pattern; `broken` is set when one fails. */
  class Socket {
    var wire: string
    var broken: bool
    var count: nat
    const sizes: nat -> nat
    const fails: nat -> bool

    constructor (sizes: nat -> nat, fails: nat -> bool)
      ensures wire == "" && !broken
    {
      wire, broken, count := "", false, 0;
      this.sizes, this.fails := sizes, fails;
    }

    /** The connection is one that never recovers from a failure. */
    ghost predicate StaysDown()
      reads this
    {
      (forall i, j :: i <= j && fails(i) ==> fails(j)) && (broken ==> fails(count))
    }

    /** send(fd, p, len, 0) */
    method Send(p: string) returns (n: int)
      requires p != ""
      modifies this
      ensures n == -1 || 1 <= n <= |p|
      ensures n == -1 ==> wire == old(wire) && broken
      ensures n != -1 ==> wire == old(wire) + p[..n] && broken == old(broken)
      ensures old(StaysDown()) ==> StaysDown() && (old(broken) ==> n == -1)
    {
      count := count + 1;
      if fails(count) {
        broken := true;
        return -1;
      }
      n := 1 + sizes(count) % |p|;
      wire := wire + p[..n];
    }
  }

  /** Everything is sent, or a send has failed behind a proper prefix. */
  method SendAll(socket: Socket, buf: string) returns (n: int)
    requires buf != ""
    modifies socket
    ensures n == |buf| || n == -1
    ensures n == |buf| ==> socket.wire == old(socket.wire) + buf && socket.broken == old(socket.broken)
    ensures n == -1 ==> socket.broken && old(socket.wire) <= socket.wire < old(socket.wire) + buf
    ensures old(socket.StaysDown()) ==>
              socket.StaysDown() && (old(socket.broken) ==> n == -1 && socket.wire == old(socket.wire))
  {
    var p := 0;
    n := 0;
    while p < |buf|
      invariant 0 <= p <= |buf| && n != -1
      invariant socket.wire == old(socket.wire) + buf[..p] && socket.broken == old(socket.broken)
      invariant old(socket.StaysDown()) ==> socket.StaysDown() && (old(socket.broken) ==> p == 0)
      decreases |buf| - p
    {
      n := socket.Send(buf[p..]);
      if n == -1 {
        return;
      }
      assert buf[..p] + buf[p..][..n] == buf[..p + n];
      p := p + n;
    }
    n := p;
  }

  /** A socket is no part of a message. */
  lemma NotInside(socket: Socket, msg: HmsMsg)
    requires msg.Valid()
    ensures socket !in msg.Repr
  {
  }

  /** hms_endpoint_send_msg, and hms_connector_send_msg if a body is required: the latter
      reports an error for a message without a body, although it has sent it. After a
      failure in the header it goes on with the body. */
  method SendMsg(socket: Socket, msg: HmsMsg, bodyRequired: bool) returns (status: int)
    requires msg.Valid() && msg.verb.Some? && Safe(msg.Value())
    modifies socket
    ensures status == 0 || status == -1
    ensures status == 0 ==> socket.wire == old(socket.wire) + Wire(msg.Value())
    ensures old(socket.broken) ==> socket.broken
    ensures old(socket.wire) <= socket.wire
    ensures !old(socket.broken) ==>
              && (status == 0 <==> !socket.broken && (!bodyRequired || msg.content.Some?))
              && (socket.wire == old(socket.wire) + Wire(msg.Value()) <==> !socket.broken)
              && (socket.broken ==> |socket.wire| < |old(socket.wire) + Wire(msg.Value())|)
    ensures |socket.wire| <= |old(socket.wire) + Wire(msg.Value())|
    ensures old(socket.StaysDown()) ==>
              && socket.StaysDown()
              && (old(socket.broken) ==> socket.wire == old(socket.wire))
              && (!old(socket.broken) && socket.broken ==>
                    old(socket.wire) <= socket.wire < old(socket.wire) + Wire(msg.Value()))
  {
    hide Print, HmsMsg.Valid, Safe, GetBodySize, GetBody;
    NotInside(socket, msg);
    GettersAre(msg.Value());
    status := 0;
    var hdrLen := msg.GetHeaderSize();
    var hdrBuf := new char[hdrLen + 1];
    var asserted := msg.PrintHeader(hdrBuf);
    assert asserted && hdrBuf[..][..hdrLen] == Print(msg.Value());
    PrintNotEmpty(msg.Value());
    var n := SendAll(socket, hdrBuf[..hdrLen]);
    if n == -1 {
      status := -1;
    }
    var size := msg.GetBodySize();
    assert size.Done?;
    if size.value > 0 {
      var body := msg.GetBody();
      assert body.Done? && body.value == msg.content;
      n := SendAll(socket, body.value.value);
      if n == -1 {
        status := -1;
      }
    } else if bodyRequired {
      status := -1;
    }
  }

  lemma PrintNotEmpty(m: Msg)
    ensures Print(m) != ""
  {
  }

  // ----- sending one message after the other -----

  ghost predicate AllValid(msgs: seq<HmsMsg>)
    reads msgs, set m | m in msgs :: m.headers, set m | m in msgs :: m.named, set m, o | m in msgs && o in m.Repr :: o
    ensures AllValid(msgs) ==> forall i :: 0 <= i < |msgs| ==> msgs[i].Owned()
  {
    forall i :: 0 <= i < |msgs| ==> msgs[i].Valid()
  }

  ghost function Values(msgs: seq<HmsMsg>): (r: seq<Msg>)
    requires forall i :: 0 <= i < |msgs| ==> msgs[i].Owned()
    reads msgs, set m | m in msgs :: m.headers, set m | m in msgs :: m.named
    ensures |r| == |msgs| && forall i :: 0 <= i < |msgs| ==> r[i] == msgs[i].Value()
  {
    if msgs == [] then [] else [msgs[0].Value()] + Values(msgs[1..])
  }

  /** The bytes of messages sent back to back. */
  function Wires(msgs: seq<Msg>): string {
    if msgs == [] then "" else Wire(msgs[0]) + Wires(msgs[1..])
  }

  lemma {:induction false} WiresAppend(a: seq<Msg>, b: seq<Msg>)
    ensures Wires(a + b) == Wires(a) + Wires(b)
  {
    if a == [] {
      assert a + b == b;
    } else {
      assert (a + b)[1..] == a[1..] + b;
      WiresAppend(a[1..], b);
    }
  }

  lemma WiresSnoc(a: seq<Msg>, m: Msg)
    ensures Wires(a + [m]) == Wires(a) + Wire(m)
  {
    hide Wire;
    WiresAppend(a, [m]);
    assert Wires([m]) == Wire(m) + Wires([m][1..]) && [m][1..] == [];
  }

  lemma WiresPrefix(msgs: seq<Msg>, i: nat)
    requires i <= |msgs|
    ensures Wires(msgs[..i]) <= Wires(msgs)
  {
    hide Wires;
    assert msgs == msgs[..i] + msgs[i..];
    WiresAppend(msgs[..i], msgs[i..]);
  }

  lemma TakeOneMore<T>(s: seq<T>, i: nat)
    requires i < |s|
    ensures s[..i + 1] == s[..i] + [s[i]]
  {
  }

  lemma WiresUpTo(msgs: seq<Msg>, i: nat)
    requires i < |msgs|
    ensures Wires(msgs[..i + 1]) == Wires(msgs[..i]) + Wire(msgs[i])
    ensures Wires(msgs[..i + 1]) <= Wires(msgs)
  {
    hide Wires, Wire;
    WiresPrefix(msgs, i + 1);
    WiresSnoc(msgs[..i], msgs[i]);
    TakeOneMore(msgs, i);
  }

  /** The messages in front of the first failure leave whole and in order. On a connection
      that stays down nothing follows but a part of the next one; sends that work again
      may leave anything. */
  method SendMsgs(socket: Socket, msgs: seq<HmsMsg>) returns (ghost whole: nat)
    requires socket.wire == "" && !socket.broken
    requires AllValid(msgs) && forall i :: 0 <= i < |msgs| ==> msgs[i].verb.Some? && Safe(msgs[i].Value())
    modifies socket
    ensures whole <= |msgs| && (whole == |msgs| <==> !socket.broken)
    ensures Wires(old(Values(msgs))[..whole]) <= socket.wire
    ensures !socket.broken ==> socket.wire == old(Wires(Values(msgs)))
    ensures old(socket.StaysDown()) && socket.broken ==> socket.wire < old(Wires(Values(msgs)))
  {
    hide Wire, Wires, Safe, Values, HmsMsg.Valid;
    forall i | 0 <= i < |msgs| ensures socket !in msgs[i].Repr { NotInside(socket, msgs[i]); }
    ghost var values := Values(msgs);
    var i := 0;
    whole := 0;
    assert Wires(values[..0]) == "" by { WiresNone(values); }
    while i < |msgs|
      invariant 0 <= i <= |msgs| && whole <= i && (whole == i <==> !socket.broken)
      invariant Wires(values[..whole]) <= socket.wire
      invariant !socket.broken ==> socket.wire == Wires(values[..i])
      invariant old(socket.StaysDown()) ==> socket.StaysDown() && (socket.broken ==> socket.wire < Wires(values))
      invariant AllValid(msgs) && forall j :: 0 <= j < |msgs| ==> socket !in msgs[j].Repr
      invariant Values(msgs) == values
    {
      WiresUpTo(values, i);
      var status := SendMsg(socket, msgs[i], false);
      i := i + 1;
      if !socket.broken {
        whole := i;
      }
    }
    assert values[..i] == values;
  }

  lemma WiresNone(msgs: seq<Msg>)
    ensures Wires(msgs[..0]) == ""
  {
  }

  // ----- receiving -----

  /** The handlers of an endpoint, with the part of the world that they change. */
  datatype Ops<!W> = Ops(
    validate: Msg -> bool,
    accepts: Msg -> bool,
    handle: (W, Msg) -> (W, int),
    defaultHandle: (W, Msg) -> (W, int))

  /** The status of _hms_default_handle: PING and INFO are answered, BYE and everything
      else ends the connection. */
  function DefaultStatus(m: Msg): int {
    if m.verb.Some? && (SameKey(m.verb.value, "PING") || SameKey(m.verb.value, "INFO")) then 0 else -1
  }

  lemma DefaultStatusIs(m: Msg)
    ensures DefaultStatus(m) ==
            if m.verb.Some? && (AlikeKeys(m.verb.value, "PING") || AlikeKeys(m.verb.value, "INFO")) then 0 else -1
  {
    hide SameKey;
    if m.verb.Some? {
      SameKeyIs(m.verb.value, "PING");
      SameKeyIs(m.verb.value, "INFO");
    }
  }

  /** One message: an invalid one is dropped and the loop goes on. */
  function Dispatch<W>(ops: Ops<W>, w: W, m: Msg): (W, int) {
    if !ops.validate(m) then (w, 0)
    else if ops.accepts(m) then ops.handle(w, m)
    else ops.defaultHandle(w, m)
  }

  lemma ParseConsumes(s: string, limit: nat)
    requires Parse(s, limit).Some?
    ensures |Parse(s, limit).value.1| < |s|
  {
  }

  /** What an endpoint makes of a stream: the world it leaves and the messages it receives. */
  ghost function Serve<W>(ops: Ops<W>, w: W, s: string, limit: nat): (W, seq<Msg>)
    decreases |s|
  {
    match Parse(s, limit)
    case None => (w, [])
    case Some((m, rest)) =>
      ParseConsumes(s, limit);
      var (w', status) := Dispatch(ops, w, m);
      if status != 0 then (w', [m])
      else
        var (end, received) := Serve(ops, w', rest, limit);
        (end, [m] + received)
  }

  /** One message takes the world from `before` to `after`: an invalid message leaves it
      alone, a valid one goes to the handler if it is accepted, otherwise to the default
      handler. */
  ghost predicate Handles<W>(ops: Ops<W>, before: W, m: Msg, after: W, status: int) {
    if !ops.validate(m) then after == before && status == 0
    else if ops.accepts(m) then ops.handle(before, m) == (after, status)
    else ops.defaultHandle(before, m) == (after, status)
  }

  /** What a connection has seen: each message is the next one that the rest of the
      stream parses to, and is handled in the world that its predecessor left; the loop
      goes on exactly while the status is zero and the stream parses. */
  ghost predicate History<W>(ops: Ops<W>, received: seq<Msg>, worlds: seq<W>, statuses: seq<int>,
                             streams: seq<string>, limit: nat) {
    && |worlds| == |streams| == |received| + 1 && |statuses| == |received|
    && (forall i :: 0 <= i < |received| ==>
          && Parse(streams[i], limit) == Some((received[i], streams[i + 1]))
          && Handles(ops, worlds[i], received[i], worlds[i + 1], statuses[i]))
    && (forall i :: 0 <= i < |received| - 1 ==> statuses[i] == 0)
    && (if received != [] && statuses[|received| - 1] != 0 then true
        else Parse(streams[|received|], limit).None?)
  }

  lemma {:induction false} ServeHistory<W>(ops: Ops<W>, w: W, s: string, limit: nat)
    returns (worlds: seq<W>, statuses: seq<int>, streams: seq<string>)
    ensures var (end, received) := Serve(ops, w, s, limit);
      && History(ops, received, worlds, statuses, streams, limit)
      && worlds[0] == w && worlds[|received|] == end && streams[0] == s
    decreases |s|
  {
    hide Parse;
    match Parse(s, limit) {
      case None =>
        worlds, statuses, streams := [w], [], [s];
      case Some((m, rest)) =>
        ParseConsumes(s, limit);
        var (w', status) := Dispatch(ops, w, m);
        if status != 0 {
          worlds, statuses, streams := [w, w'], [status], [s, rest];
        } else {
          worlds, statuses, streams := ServeHistory(ops, w', rest, limit);
          HistoryCons(ops, w, m, w', s, Serve(ops, w', rest, limit).1, worlds, statuses, streams, limit);
          worlds, statuses, streams := [w] + worlds, [0] + statuses, [s] + streams;
        }
    }
  }

  lemma HistoryCons<W>(ops: Ops<W>, w: W, m: Msg, w': W, s: string, received: seq<Msg>,
                       worlds: seq<W>, statuses: seq<int>, streams: seq<string>, limit: nat)
    requires History(ops, received, worlds, statuses, streams, limit)
    requires worlds[0] == w' && Parse(s, limit) == Some((m, streams[0])) && Handles(ops, w, m, w', 0)
    ensures History(ops, [m] + received, [w] + worlds, [0] + statuses, [s] + streams, limit)
  {
    hide Parse, Handles;
    var all, ws, ts, ss := [m] + received, [w] + worlds, [0] + statuses, [s] + streams;
    forall i | 0 <= i < |all|
      ensures Parse(ss[i], limit) == Some((all[i], ss[i + 1])) && Handles(ops, ws[i], all[i], ws[i + 1], ts[i])
      ensures i < |all| - 1 ==> ts[i] == 0
    {
      if i > 0 {
        assert all[i] == received[i - 1] && ss[i] == streams[i - 1] && ws[i] == worlds[i - 1];
        assert ts[i] == statuses[i - 1];
      }
    }
  }

  /** The loop of _hms_handle_endpoint */
  method HandleMessages<W>(stream: Stream, ops: Ops<W>, world: W) returns (w: W, ghost received: seq<Msg>)
    modifies stream
    ensures (w, received) == Serve(ops, world, old(stream.data), HERMES_MAX_HDR_SIZE)
  {
    hide Parse;
    ghost var s := stream.data;
    var handlerStatus := 0;
    w, received := world, [];
    assert forall more: seq<Msg> :: [] + more == more;
    while true
      invariant handlerStatus == 0
      invariant var (end, more) := Serve(ops, w, stream.data, HERMES_MAX_HDR_SIZE);
                (end, received + more) == Serve(ops, world, s, HERMES_MAX_HDR_SIZE)
      decreases |stream.data|
    {
      ghost var data := stream.data;
      var msg := ParseMessage(stream, HERMES_MAX_HDR_SIZE);
      if msg == null {
        assert received + [] == received;
        return;
      }
      ParseConsumes(data, HERMES_MAX_HDR_SIZE);
      var m := msg.ToMsg();
      ghost var before := received;
      received := received + [m];
      if ops.validate(m) {
        if ops.accepts(m) {
          var r := ops.handle(w, m);
          w, handlerStatus := r.0, r.1;
        } else {
          var r := ops.defaultHandle(w, m);
          w, handlerStatus := r.0, r.1;
        }
      }
      if handlerStatus != 0 {
        return;
      }
      assert forall more: seq<Msg> :: before + ([m] + more) == received + more;
    }
  }

  /** _hms_handle_endpoint */
  method HandleEndpoint<W>(stream: Stream, ops: Ops<W>, world: W)
    returns (w: W, ghost received: seq<Msg>,
             ghost worlds: seq<W>, ghost statuses: seq<int>, ghost streams: seq<string>)
    modifies stream
    ensures (w, received) == Serve(ops, world, old(stream.data), HERMES_MAX_HDR_SIZE)
    ensures History(ops, received, worlds, statuses, streams, HERMES_MAX_HDR_SIZE)
    ensures worlds[0] == world && worlds[|received|] == w && streams[0] == old(stream.data)
  {
    hide Serve;
    worlds, statuses, streams := ServeHistory(ops, world, stream.data, HERMES_MAX_HDR_SIZE);
    w, received := HandleMessages(stream, ops, world);
  }

  // ----- pipelining -----

  /** Handling the messages one after the other until a handler returns non-zero. */
  function Deliver<W>(ops: Ops<W>, w: W, msgs: seq<Msg>): (W, seq<Msg>)
    decreases |msgs|
  {
    if msgs == [] then (w, [])
    else
      var m := Canonical(msgs[0]);
      var (w', status) := Dispatch(ops, w, m);
      if status != 0 then (w', [m])
      else
        var (end, received) := Deliver(ops, w', msgs[1..]);
        (end, [m] + received)
  }

  /** Delivering hands the messages over one by one, each in the world that its
      predecessor left, until a handler returns non-zero or there are no more. */
  lemma {:induction false} DeliverIs<W>(ops: Ops<W>, w: W, msgs: seq<Msg>) returns (worlds: seq<W>, statuses: seq<int>)
    ensures var (end, received) := Deliver(ops, w, msgs);
      var n := |received|;
      && n <= |msgs| && |worlds| == n + 1 && |statuses| == n && worlds[0] == w && worlds[n] == end
      && (forall i :: 0 <= i < n ==>
            received[i] == Canonical(msgs[i]) && Handles(ops, worlds[i], received[i], worlds[i + 1], statuses[i]))
      && (forall i :: 0 <= i < n - 1 ==> statuses[i] == 0)
      && (n < |msgs| ==> n > 0 && statuses[n - 1] != 0)
    decreases |msgs|
  {
    hide Canonical;
    if msgs == [] {
      worlds, statuses := [w], [];
    } else {
      var (w', status) := Dispatch(ops, w, Canonical(msgs[0]));
      if status != 0 {
        worlds, statuses := [w, w'], [status];
      } else {
        worlds, statuses := DeliverIs(ops, w', msgs[1..]);
        worlds, statuses := [w] + worlds, [0] + statuses;
      }
    }
  }

  /** The format carries the message back and forth, apart from the size limit. */
  ghost predicate Sendable(m: Msg) {
    Printable(m) && !EarlyDot(m)
  }

  /** The messages in front of the first one whose header exceeds the limit. */
  function Fitting(msgs: seq<Msg>, limit: nat): (r: seq<Msg>)
    ensures r <= msgs
    ensures r == msgs <==> forall m :: m in msgs ==> |Print(m)| <= limit
  {
    if msgs == [] || |Print(msgs[0])| > limit then []
    else
      var rest := Fitting(msgs[1..], limit);
      assert msgs == [msgs[0]] + msgs[1..];
      [msgs[0]] + rest
  }

  lemma OversizeIsNotParsed(m: Msg, s: string, limit: nat)
    requires Sendable(m) && |Print(m)| > limit
    ensures Parse(Wire(m) + s, limit).None?
  {
    hide Printable, EarlyDot, Print;
    var rest := (if m.content.Some? then m.content.value else "") + s;
    assert Wire(m) + s == Print(m) + rest;
    WholeHeader(m, rest);
  }

  /** Messages sent back to back arrive one by one, in order, until a handler returns
      non-zero, a header exceeds the limit or the input ends. */
  lemma {:induction false} Pipelined<W>(ops: Ops<W>, w: W, msgs: seq<Msg>, tail: string, limit: nat)
    requires forall i :: 0 <= i < |msgs| ==> Sendable(msgs[i])
    requires Parse(tail, limit).None?
    ensures Serve(ops, w, Wires(msgs) + tail, limit) == Deliver(ops, w, Fitting(msgs, limit))
    decreases |msgs|
  {
    hide Parse, Wire, Canonical, Print;
    if msgs == [] {
      assert Wires(msgs) + tail == tail;
    } else {
      var rest := Wires(msgs[1..]) + tail;
      assert Wires(msgs) + tail == Wire(msgs[0]) + rest;
      if |Print(msgs[0])| > limit {
        OversizeIsNotParsed(msgs[0], rest, limit);
      } else {
        RoundTrip(msgs[0], rest, limit);
        assert Fitting(msgs, limit)[1..] == Fitting(msgs[1..], limit);
        var (w', status) := Dispatch(ops, w, Canonical(msgs[0]));
        if status == 0 {
          Pipelined(ops, w', msgs[1..], tail, limit);
        }
      }
    }
  }

  /** Whatever follows them in the stream, the messages arrive first. */
  lemma {:induction false} PipelinedFront<W>(ops: Ops<W>, w: W, msgs: seq<Msg>, tail: string, limit: nat)
    requires forall i :: 0 <= i < |msgs| ==> Sendable(msgs[i])
    ensures Deliver(ops, w, Fitting(msgs, limit)).1 <= Serve(ops, w, Wires(msgs) + tail, limit).1
    decreases |msgs|
  {
    hide Parse, Wire, Canonical, Print, Sendable;
    if msgs != [] && |Print(msgs[0])| <= limit {
      var rest := Wires(msgs[1..]) + tail;
      assert Wires(msgs) + tail == Wire(msgs[0]) + rest;
      SendableRoundTrip(msgs[0], rest, limit);
      assert Fitting(msgs, limit)[1..] == Fitting(msgs[1..], limit);
      var (w', status) := Dispatch(ops, w, Canonical(msgs[0]));
      if status == 0 {
        PipelinedFront(ops, w', msgs[1..], tail, limit);
      }
    }
  }

  lemma SendableRoundTrip(m: Msg, s: string, limit: nat)
    requires Sendable(m) && |Print(m)| <= limit
    ensures Parse(Wire(m) + s, limit) == Some((Canonical(m), s))
  {
    RoundTrip(m, s, limit);
  }

  // ----- a stream that breaks off -----

  lemma EmptyStreamEnds(limit: nat)
    ensures Parse("", limit).None?
  {
  }

  lemma HeaderAtPrefix(t: string, s: string, n: nat)
    requires HeaderAt(t, n)
    ensures HeaderAt(t + s, n)
  {
    forall i: nat | i <= |t|
      ensures Ends(t, i) <==> Ends(t + s, i)
    {
      EndsPrefix(t, s, i);
    }
  }

  lemma EndsPrefix(t: string, s: string, i: nat)
    requires i <= |t|
    ensures Ends(t, i) <==> Ends(t + s, i)
  {
    hide DotSeen;
    if 0 < i {
      DotSeenPrefix(t, s, i - 1);
    }
  }

  lemma DotSeenPrefix(t: string, s: string, i: nat)
    requires i <= |t|
    ensures DotSeen(t, i) <==> DotSeen(t + s, i)
  {
    forall k: nat | DotPending(t, i, k)
      ensures DotPending(t + s, i, k)
    {
    }
    forall k: nat | DotPending(t + s, i, k)
      ensures DotPending(t, i, k)
    {
      assert forall j :: k < j < i ==> t[j] == (t + s)[j];
    }
  }

  /** What has arrived of a message is not taken for a message until it is complete. */
  lemma PartIsNotParsed(m: Msg, t: string, limit: nat)
    requires Sendable(m) && t < Wire(m)
    ensures Parse(t, limit).None?
  {
    hide HeaderAt, Ends, Printable, EarlyDot, Print, ParseHeaderText, HeaderText;
    if HasHeader(t, limit) {
      var content := if m.content.Some? then m.content.value else "";
      var n := HeaderLength(t, limit);
      assert Wire(m) == t + Wire(m)[|t|..];
      HeaderAtPrefix(t, Wire(m)[|t|..], n);
      WholeHeader(m, content);
      HeaderAtUnique(Wire(m), n, |Print(m)|);
      assert n <= |t| by { HeaderAtBound(t, n); }
      assert t == Print(m) + t[n..];
      WholeHeader(m, t[n..]);
      HeaderBack(m);
      PrintableLength(m);
    }
  }

  lemma HeaderAtBound(t: string, n: nat)
    requires HeaderAt(t, n)
    ensures n <= |t|
  {
  }

  lemma PrintableLength(m: Msg)
    requires Printable(m)
    ensures m.contentLen == if m.content.Some? then |m.content.value| else 0
  {
  }

  /** The number of messages that have arrived whole. */
  lemma {:induction false} WholeMessages(msgs: seq<Msg>, t: string) returns (k: nat)
    requires t < Wires(msgs)
    ensures k < |msgs| && Wires(msgs[..k]) <= t < Wires(msgs[..k + 1])
  {
    hide Wire;
    WiresUpTo(msgs, 0);
    assert msgs[..0] == [];
    if |t| < |Wire(msgs[0])| {
      k := 0;
    } else {
      var first := Wire(msgs[0]);
      k := WholeMessages(msgs[1..], t[|first|..]);
      assert msgs[..k + 1][1..] == msgs[1..][..k] && msgs[..k + 2][1..] == msgs[1..][..k + 1];
      k := k + 1;
    }
  }

  lemma PrefixOfRest(a: string, b: string, c: string)
    requires a + b < a + c
    ensures b < c
  {
    assert forall i :: 0 <= i < |b| ==> b[i] == (a + b)[|a| + i] == (a + c)[|a| + i];
  }

  /** A stream that breaks off anywhere delivers exactly the messages that have arrived
      whole, up to a header that exceeds the limit or a handler that stops. */
  lemma CutPipeline<W>(ops: Ops<W>, w: W, msgs: seq<Msg>, t: string, limit: nat) returns (k: nat)
    requires forall i :: 0 <= i < |msgs| ==> Sendable(msgs[i])
    requires t < Wires(msgs)
    ensures k < |msgs| && Wires(msgs[..k]) <= t < Wires(msgs[..k + 1])
    ensures Serve(ops, w, t, limit) == Deliver(ops, w, Fitting(msgs[..k], limit))
  {
    hide Parse, Serve, Deliver, Sendable, Wire, Wires;
    k := WholeMessages(msgs, t);
    WiresUpTo(msgs, k);
    var part := t[|Wires(msgs[..k])|..];
    assert t == Wires(msgs[..k]) + part;
    assert part < Wire(msgs[k]) by { PrefixOfRest(Wires(msgs[..k]), part, Wire(msgs[k])); }
    PartIsNotParsed(msgs[k], part, limit);
    Pipelined(ops, w, msgs[..k], part, limit);
  }

  lemma SendableIsSafe(m: Msg)
    requires Sendable(m)
    ensures Safe(m) && m.verb.Some?
  {
    CoupledIsSafe(m);
  }

  /** Sender and receiver together, over a connection that splits sends and reads in any
      way: the messages in front of the first failed send arrive first, and nothing else
      if the connection stays down. */
  method Exchange<W>(socket: Socket, sizes: nat -> nat, msgs: seq<HmsMsg>, ops: Ops<W>, world: W)
    returns (w: W, ghost received: seq<Msg>, ghost whole: nat)
    requires socket.wire == "" && !socket.broken
    requires AllValid(msgs) && forall i :: 0 <= i < |msgs| ==> Sendable(msgs[i].Value())
    modifies socket
    ensures whole <= |msgs| && (whole == |msgs| <==> !socket.broken)
    ensures var delivered := Deliver(ops, world, Fitting(old(Values(msgs))[..whole], HERMES_MAX_HDR_SIZE));
      && delivered.1 <= received
      && (!socket.broken || old(socket.StaysDown()) ==> (w, received) == delivered)
  {
    hide Serve, Deliver, Fitting, Wires, Values, Parse, WordsOk, NamedOk, EarlyDot, Coupled, Safe, HmsMsg.Valid;
    EmptyStreamEnds(HERMES_MAX_HDR_SIZE);
    ghost var values := Values(msgs);
    forall i | 0 <= i < |msgs| ensures Safe(msgs[i].Value()) { SendableIsSafe(msgs[i].Value()); }
    whole := SendMsgs(socket, msgs);
    if old(socket.StaysDown()) && socket.broken {
      whole := CutPipeline(ops, world, values, socket.wire, HERMES_MAX_HDR_SIZE);
    } else if socket.broken {
      ghost var sent := Wires(values[..whole]);
      assert sent + socket.wire[|sent|..] == socket.wire;
      PipelinedFront(ops, world, values[..whole], socket.wire[|sent|..], HERMES_MAX_HDR_SIZE);
    } else {
      assert values[..whole] == values;
      Pipelined(ops, world, values, "", HERMES_MAX_HDR_SIZE);
      assert Wires(values) + "" == Wires(values);
    }
    var stream := new Stream(socket.wire, sizes);
    ghost var worlds, statuses, streams;
    w, received, worlds, statuses, streams := HandleEndpoint(stream, ops, world);
  }
}
