/** Messages as values: the ordered case-insensitive store of named headers and the
    coupling of the body with its Content-Length header. */
module HmsHeaders {
  import opened Common
  import opened HmsText

  const CONTENT_LENGTH: string := "Content-Length"
  const CONTENT_CHECKSUM: string := "Content-Checksum"

  datatype Header = Header(key: string, value: string)

  /** The contents of struct hms_msg; `content` is None for a null pointer. */
  datatype Msg = Msg(
    verb: Option<string>,
    headers: seq<string>,
    named: seq<Header>,
    content: Option<string>,
    contentLen: int)

  const EMPTY := Msg(None, [], [], None, 0)

  /** A failing hms_assert ends the process. */
  datatype Outcome<+T> = Done(value: T) | Aborted

  // ----- named headers -----

  /** Position of the first header with this key, or the number of headers. */
  function IndexOf(l: seq<Header>, key: string): (i: nat)
    ensures i <= |l|
    ensures i < |l| ==> SameKey(l[i].key, key)
    ensures forall j :: 0 <= j < i ==> !SameKey(l[j].key, key)
  {
    if l == [] || SameKey(l[0].key, key) then 0 else 1 + IndexOf(l[1..], key)
  }

  function Lookup(l: seq<Header>, key: string): Option<string> {
    var i := IndexOf(l, key);
    if i < |l| then Some(l[i].value) else None
  }

  /** Removes the first match only. */
  function DelNamed(l: seq<Header>, key: string): seq<Header> {
    var i := IndexOf(l, key);
    if i < |l| then l[..i] + l[i + 1..] else l
  }

  function AddNamed(l: seq<Header>, key: string, value: string): seq<Header> {
    DelNamed(l, key) + [Header(key, value)]
  }

  ghost predicate DistinctKeys(l: seq<Header>) {
    forall i, j :: 0 <= i < j < |l| ==> !SameKey(l[i].key, l[j].key)
  }

  lemma IndexOfIs(l: seq<Header>, key: string, i: nat)
    requires i < |l| && SameKey(l[i].key, key)
    requires forall j :: 0 <= j < i ==> !SameKey(l[j].key, key)
    ensures IndexOf(l, key) == i
  {
  }

  lemma IndexOfNone(l: seq<Header>, key: string)
    requires forall j :: 0 <= j < |l| ==> !SameKey(l[j].key, key)
    ensures IndexOf(l, key) == |l|
  {
  }

  /** With distinct keys the position of a match is the only one. */
  lemma OnlyMatch(l: seq<Header>, key: string, i: nat)
    requires DistinctKeys(l) && i < |l| && SameKey(l[i].key, key)
    ensures IndexOf(l, key) == i
  {
    IndexOfIs(l, key, i);
  }

  lemma DelNamedDistinct(l: seq<Header>, key: string)
    requires DistinctKeys(l)
    ensures DistinctKeys(DelNamed(l, key))
  {
    var d, k := DelNamed(l, key), IndexOf(l, key);
    forall i, j | 0 <= i < j < |d|
      ensures !SameKey(d[i].key, d[j].key)
    {
      assert d[i] == l[if i < k then i else i + 1] && d[j] == l[if j < k then j else j + 1];
    }
  }

  /** Deleting the first match removes the key and nothing else. */
  lemma DelNamedRefines(l: seq<Header>, key: string, other: string)
    requires DistinctKeys(l)
    ensures DistinctKeys(DelNamed(l, key))
    ensures Lookup(DelNamed(l, key), other) == if SameKey(other, key) then None else Lookup(l, other)
  {
    var d, i, k := DelNamed(l, key), IndexOf(l, key), IndexOf(l, other);
    DelNamedDistinct(l, key);
    if SameKey(other, key) {
      IndexOfNone(d, other);
    } else if k < |l| {
      OnlyMatch(d, other, if k < i then k else k - 1);
    } else {
      IndexOfNone(d, other);
    }
  }

  /** Adding makes the new value win, moves the key to the tail and keeps keys distinct. */
  lemma AddNamedRefines(l: seq<Header>, key: string, value: string, other: string)
    requires DistinctKeys(l)
    ensures var a := AddNamed(l, key, value);
      && DistinctKeys(a)
      && a[|a| - 1] == Header(key, value)
      && Lookup(a, other) == if SameKey(other, key) then Some(value) else Lookup(l, other)
  {
    var d, a := DelNamed(l, key), AddNamed(l, key, value);
    DelNamedRefines(l, key, other);
    DelNamedRefines(l, key, key);
    assert IndexOf(d, key) == |d|;
    var k := IndexOf(d, other);
    if k < |d| {
      OnlyMatch(a, other, k);
    } else if SameKey(other, key) {
      OnlyMatch(a, other, |d|);
    } else {
      IndexOfNone(a, other);
    }
  }

  /** The headers whose keys differ from this one, in order. */
  function Others(l: seq<Header>, key: string): (r: seq<Header>) {
    if l == [] then []
    else (if AlikeKeys(l[0].key, key) then [] else [l[0]]) + Others(l[1..], key)
  }

  lemma {:induction false} OthersAll(l: seq<Header>, key: string)
    requires forall i :: 0 <= i < |l| ==> !SameKey(l[i].key, key)
    ensures Others(l, key) == l
  {
    if l != [] {
      SameKeyIs(l[0].key, key);
      OthersAll(l[1..], key);
    }
  }

  lemma SameKeyChains(a: string, b: string, key: string)
    requires SameKey(a, key) && !SameKey(a, b)
    ensures !SameKey(b, key)
  {
  }

  /** Deleting a key leaves exactly the headers with other keys, in their order. */
  lemma {:induction false} DelNamedIsOthers(l: seq<Header>, key: string)
    requires DistinctKeys(l)
    ensures DelNamed(l, key) == Others(l, key)
  {
    hide SameKey;
    if l != [] {
      SameKeyIs(l[0].key, key);
      assert DistinctKeys(l[1..]);
      if SameKey(l[0].key, key) {
        forall i | 0 <= i < |l[1..]|
          ensures !SameKey(l[1..][i].key, key)
        {
          SameKeyChains(l[0].key, l[i + 1].key, key);
        }
        OthersAll(l[1..], key);
        assert l[..0] + l[1..] == l[1..];
      } else {
        DelNamedIsOthers(l[1..], key);
        DelNamedCons(l, key);
      }
    }
  }

  lemma DelNamedCons(l: seq<Header>, key: string)
    requires l != [] && !SameKey(l[0].key, key)
    ensures DelNamed(l, key) == [l[0]] + DelNamed(l[1..], key)
  {
    var i := IndexOf(l[1..], key);
    assert IndexOf(l, key) == i + 1;
    assert [l[0]] + l[1..] == l;
    if i < |l[1..]| {
      assert l[..i + 1] + l[i + 2..] == [l[0]] + (l[1..][..i] + l[1..][i + 1..]);
    }
  }

  /** What is added under one spelling of a key is found, replaced and deleted under any
      other, and only under those. */
  lemma StoreIgnoresCase(l: seq<Header>, key: string, value: string, other: string, again: string)
    requires DistinctKeys(l)
    ensures var a := AddNamed(l, key, value);
      && Lookup(a, other) == (if AlikeKeys(other, key) then Some(value) else Lookup(l, other))
      && (AlikeKeys(other, key) ==>
            && AddNamed(a, other, again) == Others(l, key) + [Header(other, again)]
            && DelNamed(a, other) == Others(l, key))
  {
    hide SameKey;
    var a := AddNamed(l, key, value);
    SameKeyIs(other, key);
    AddNamedRefines(l, key, value, other);
    if AlikeKeys(other, key) {
      DelNamedIsOthers(l, key);
      DelNamedRefines(l, key, key);
      DelOfAdded(l, key, value, other);
    }
  }

  lemma DelOfAdded(l: seq<Header>, key: string, value: string, other: string)
    requires DistinctKeys(l) && SameKey(other, key)
    ensures DelNamed(AddNamed(l, key, value), other) == DelNamed(l, key)
  {
    var d, a := DelNamed(l, key), AddNamed(l, key, value);
    AddNamedRefines(l, key, value, other);
    OnlyMatch(a, other, |d|);
    assert a[..|d|] == d && a[|d| + 1..] == [];
  }

  // ----- unnamed headers -----

  function DelAt(l: seq<string>, i: nat): seq<string>
    requires i < |l|
  {
    l[..i] + l[i + 1..]
  }

  // ----- body -----

  /** The body exists exactly if there is a Content-Length header, and its value, the
      field content_len and the length of the body agree. */
  ghost predicate Coupled(m: Msg) {
    && DistinctKeys(m.named)
    && match m.content
       case None => m.contentLen == 0 && Lookup(m.named, CONTENT_LENGTH).None?
       case Some(body) =>
         && m.contentLen == |body| && 0 < |body| <= INT_MAX
         && Lookup(m.named, CONTENT_LENGTH).Some?
         && Atoi(Lookup(m.named, CONTENT_LENGTH).value) == |body|
  }

  function GetBodySize(m: Msg): Outcome<int> {
    match Lookup(m.named, CONTENT_LENGTH)
    case Some(v) => if m.contentLen == Atoi(v) then Done(m.contentLen) else Aborted
    case None => if m.contentLen == 0 then Done(0) else Aborted
  }

  function GetBody(m: Msg): Outcome<Option<string>> {
    match m.content
    case None => Done(None)
    case Some(body) =>
      match Lookup(m.named, CONTENT_LENGTH)
      case Some(v) => if m.contentLen == Atoi(v) then Done(Some(body)) else Aborted
      case None => Aborted
  }

  function DelBody(m: Msg): Outcome<Msg> {
    if m.content.None? then Done(m)
    else
      match Lookup(m.named, CONTENT_LENGTH)
      case Some(v) =>
        if m.contentLen == Atoi(v) then
          Done(m.(named := DelNamed(DelNamed(m.named, CONTENT_LENGTH), CONTENT_CHECKSUM),
                  content := None, contentLen := 0))
        else Aborted
      case None => Aborted
  }

  function SetBody(m: Msg, data: string): Outcome<Msg> {
    if |data| == 0 then Aborted
    else
      match DelBody(m)
      case Aborted => Aborted
      case Done(d) =>
        if d.content.Some? || d.contentLen != 0 then Aborted
        else Done(d.(named := AddNamed(d.named, CONTENT_LENGTH, Decimal(|data|)),
                     content := Some(data), contentLen := |data|))
  }

  // ----- every sequence of public operations -----

  datatype Op =
    | SetVerbOp(verb: string)
    | AddHeaderOp(value: string)
    | DelHeaderOp(index: int)
    | AddNamedOp(key: string, value: string)
    | DelNamedOp(key: string)
    | SetBodyOp(data: string)
    | DelBodyOp
    | GetBodySizeOp
    | GetBodyOp

  function ApplyOp(m: Msg, op: Op): Outcome<Msg> {
    match op
    case SetVerbOp(verb) => Done(m.(verb := Some(verb)))
    case AddHeaderOp(value) => Done(m.(headers := m.headers + [value]))
    case DelHeaderOp(i) => Done(if 0 <= i < |m.headers| then m.(headers := DelAt(m.headers, i)) else m)
    case AddNamedOp(key, value) => Done(m.(named := AddNamed(m.named, key, value)))
    case DelNamedOp(key) => Done(m.(named := DelNamed(m.named, key)))
    case SetBodyOp(data) => SetBody(m, data)
    case DelBodyOp => DelBody(m)
    case GetBodySizeOp => if GetBodySize(m).Done? then Done(m) else Aborted
    case GetBodyOp => if GetBody(m).Done? then Done(m) else Aborted
  }

  function ApplyOps(m: Msg, ops: seq<Op>): Outcome<Msg>
    decreases |ops|
  {
    if ops == [] then Done(m)
    else
      match ApplyOp(m, ops[0])
      case Aborted => Aborted
      case Done(m') => ApplyOps(m', ops[1..])
  }

  /** What the API asks of its callers: bodies are not empty and fit an int. */
  predicate Allowed(op: Op) {
    op.SetBodyOp? ==> 0 < |op.data| <= INT_MAX
  }

  /** The operation bypasses the body functions. */
  predicate Bypasses(op: Op) {
    (op.AddNamedOp? || op.DelNamedOp?) && SameKey(op.key, CONTENT_LENGTH)
  }

  /** What a caller does who leaves Content-Length to the body functions. */
  predicate Proper(ops: seq<Op>) {
    forall i :: 0 <= i < |ops| ==> Allowed(ops[i]) && !Bypasses(ops[i])
  }

  lemma LengthIsNotChecksum()
    ensures !SameKey(CONTENT_LENGTH, CONTENT_CHECKSUM)
  {
    assert |Lower(CONTENT_LENGTH)| != |Lower(CONTENT_CHECKSUM)|;
  }

  lemma DelBodyKeepsCoupling(m: Msg)
    requires Coupled(m)
    ensures DelBody(m).Done? && Coupled(DelBody(m).value) && DelBody(m).value.content.None?
  {
    var named := DelNamed(m.named, CONTENT_LENGTH);
    DelNamedRefines(m.named, CONTENT_LENGTH, CONTENT_LENGTH);
    DelNamedRefines(named, CONTENT_CHECKSUM, CONTENT_LENGTH);
    LengthIsNotChecksum();
  }

  lemma SetBodyKeepsCoupling(m: Msg, data: string)
    requires Coupled(m) && 0 < |data| <= INT_MAX
    ensures SetBody(m, data).Done? && Coupled(SetBody(m, data).value)
    ensures SetBody(m, data).value.content == Some(data)
  {
    DelBodyKeepsCoupling(m);
    AddNamedRefines(DelBody(m).value.named, CONTENT_LENGTH, Decimal(|data|), CONTENT_LENGTH);
    AtoiDecimal(|data|);
  }

  /** A direct change of Content-Length that the coupling survives. */
  predicate KeepsCoupling(m: Msg, op: Op) {
    Bypasses(op) ==> if op.AddNamedOp? then m.content.Some? && Atoi(op.value) == m.contentLen else m.content.None?
  }

  lemma AddKeepsCoupling(m: Msg, key: string, value: string)
    requires Coupled(m)
    ensures Coupled(m.(named := AddNamed(m.named, key, value))) <==> KeepsCoupling(m, AddNamedOp(key, value))
  {
    hide AddNamed, DelNamed, DistinctKeys, Lookup, Atoi, SameKey;
    AddNamedRefines(m.named, key, value, CONTENT_LENGTH);
    SameKeySymmetric(key, CONTENT_LENGTH);
  }

  lemma DelKeepsCoupling(m: Msg, key: string)
    requires Coupled(m)
    ensures Coupled(m.(named := DelNamed(m.named, key))) <==> KeepsCoupling(m, DelNamedOp(key))
  {
    hide AddNamed, DelNamed, DistinctKeys, Lookup, Atoi, SameKey;
    DelNamedRefines(m.named, key, CONTENT_LENGTH);
    SameKeySymmetric(key, CONTENT_LENGTH);
  }

  lemma CoupledGettersPass(m: Msg)
    requires Coupled(m)
    ensures GetBodySize(m).Done? && GetBody(m).Done?
  {
  }

  /** Exactly when an operation keeps a coupled message coupled: always, unless it
      handles Content-Length as an ordinary header and makes it lie about the body. */
  lemma OpKeepsCoupling(m: Msg, op: Op)
    requires Coupled(m) && Allowed(op)
    ensures ApplyOp(m, op).Done?
    ensures Coupled(ApplyOp(m, op).value) <==> KeepsCoupling(m, op)
  {
    hide AddNamed, DelNamed, DistinctKeys, Lookup, Atoi, SameKey, SetBody, DelBody, GetBodySize, GetBody;
    match op {
      case AddNamedOp(key, value) => AddKeepsCoupling(m, key, value);
      case DelNamedOp(key) => DelKeepsCoupling(m, key);
      case SetBodyOp(data) => SetBodyKeepsCoupling(m, data);
      case DelBodyOp => DelBodyKeepsCoupling(m);
      case GetBodySizeOp => CoupledGettersPass(m);
      case GetBodyOp => CoupledGettersPass(m);
      case _ =>
    }
  }

  /** No body assertion fires, whatever public operations build up the message. */
  lemma {:induction false} OpsNeverAbort(m: Msg, ops: seq<Op>)
    requires Coupled(m) && Proper(ops)
    ensures ApplyOps(m, ops).Done? && Coupled(ApplyOps(m, ops).value)
    decreases |ops|
  {
    hide ApplyOp, Coupled;
    if ops != [] {
      OpKeepsCoupling(m, ops[0]);
      assert Proper(ops[1..]);
      OpsNeverAbort(ApplyOp(m, ops[0]).value, ops[1..]);
    }
  }

  lemma EmptyIsCoupled()
    ensures Coupled(EMPTY)
  {
  }

  // ----- exactly when a body assertion can fire -----

  /** The body and content_len agree, whatever the headers say. */
  ghost predicate Consistent(m: Msg) {
    && DistinctKeys(m.named)
    && match m.content
       case None => m.contentLen == 0
       case Some(body) => m.contentLen == |body| && 0 < |body| <= INT_MAX
  }

  /** Content-Length reads as content_len. Without a body it may be absent. */
  ghost predicate Safe(m: Msg) {
    && Consistent(m)
    && match Lookup(m.named, CONTENT_LENGTH)
       case None => m.content.None?
       case Some(v) => Atoi(v) == m.contentLen
  }

  lemma CoupledIsSafe(m: Msg)
    requires Coupled(m)
    ensures Safe(m)
  {
  }

  /** The header is about to be handled behind the back of the body functions, and
      does not say what content_len says. */
  predicate Lies(m: Msg, op: Op) {
    Bypasses(op) && if op.AddNamedOp? then Atoi(op.value) != m.contentLen else m.content.Some?
  }

  /** The getters find nothing wrong. */
  predicate GettersPass(m: Msg) {
    GetBodySize(m).Done? && GetBody(m).Done?
  }

  lemma SafeIsGettersPass(m: Msg)
    requires Consistent(m)
    ensures Safe(m) <==> GettersPass(m)
  {
  }

  lemma DelBodySafe(m: Msg)
    requires Safe(m)
    ensures DelBody(m).Done? && Safe(DelBody(m).value) && DelBody(m).value.content.None?
  {
    if m.content.Some? {
      DelBodyKeepsCoupling(m);
    }
  }

  lemma SetBodySafe(m: Msg, data: string)
    requires Safe(m) && 0 < |data| <= INT_MAX
    ensures SetBody(m, data).Done? && Safe(SetBody(m, data).value)
  {
    hide Atoi, Decimal, AddNamed, DistinctKeys, DelBody;
    DelBodySafe(m);
    AddNamedRefines(DelBody(m).value.named, CONTENT_LENGTH, Decimal(|data|), CONTENT_LENGTH);
    AtoiDecimal(|data|);
  }

  lemma AddKeepsSafety(m: Msg, key: string, value: string)
    requires Safe(m)
    ensures Safe(m.(named := AddNamed(m.named, key, value))) <==> !Lies(m, AddNamedOp(key, value))
  {
    hide AddNamed, DelNamed, DistinctKeys, Lookup, Atoi, SameKey;
    AddNamedRefines(m.named, key, value, CONTENT_LENGTH);
    SameKeySymmetric(key, CONTENT_LENGTH);
  }

  lemma DelKeepsSafety(m: Msg, key: string)
    requires Safe(m)
    ensures Safe(m.(named := DelNamed(m.named, key))) <==> !Lies(m, DelNamedOp(key))
  {
    hide AddNamed, DelNamed, DistinctKeys, Lookup, Atoi, SameKey;
    DelNamedRefines(m.named, key, CONTENT_LENGTH);
    SameKeySymmetric(key, CONTENT_LENGTH);
  }

  lemma SameKeySymmetric(a: string, b: string)
    ensures SameKey(a, b) <==> SameKey(b, a)
  {
  }

  /** On a safe message no operation fails, and it stays safe unless the operation
      makes Content-Length lie. */
  lemma OpKeepsSafety(m: Msg, op: Op)
    requires Safe(m) && Allowed(op)
    ensures ApplyOp(m, op).Done?
    ensures Safe(ApplyOp(m, op).value) <==> !Lies(m, op)
  {
    hide AddNamed, DelNamed, DistinctKeys, Lookup, Atoi, SameKey, SetBody, DelBody, GetBodySize, GetBody;
    match op {
      case AddNamedOp(key, value) => AddKeepsSafety(m, key, value);
      case DelNamedOp(key) => DelKeepsSafety(m, key);
      case SetBodyOp(data) => SetBodySafe(m, data);
      case DelBodyOp => DelBodySafe(m);
      case GetBodySizeOp => SafeIsGettersPass(m);
      case GetBodyOp => SafeIsGettersPass(m);
      case _ =>
    }
  }

  lemma {:induction false} SafeOps(m: Msg, ops: seq<Op>)
    requires Safe(m) && Proper(ops)
    ensures ApplyOps(m, ops).Done? && Safe(ApplyOps(m, ops).value)
    decreases |ops|
  {
    hide ApplyOp, Safe;
    if ops != [] {
      OpKeepsSafety(m, ops[0]);
      assert Proper(ops[1..]);
      SafeOps(ApplyOp(m, ops[0]).value, ops[1..]);
    }
  }

  /** An assertion fires under some later operations exactly on a message that is not safe. */
  lemma NeverAborts(m: Msg)
    requires Consistent(m)
    ensures (forall ops :: Proper(ops) ==> ApplyOps(m, ops).Done?) <==> Safe(m)
  {
    hide Safe, Consistent, GetBodySize, GetBody;
    if Safe(m) {
      forall ops | Proper(ops)
        ensures ApplyOps(m, ops).Done?
      {
        SafeOps(m, ops);
      }
    } else {
      SafeIsGettersPass(m);
      var ops := [GetBodySizeOp, GetBodyOp];
      assert Proper(ops) && ops[1..] == [GetBodyOp] && ops[1..][1..] == [];
      assert ApplyOps(m, ops).Aborted?;
    }
  }

  /** Every message that public operations build up, in any way, is consistent. */
  lemma {:induction false} OpsKeepConsistency(m: Msg, ops: seq<Op>)
    requires Consistent(m) && forall i :: 0 <= i < |ops| ==> Allowed(ops[i])
    ensures ApplyOps(m, ops).Done? ==> Consistent(ApplyOps(m, ops).value)
    decreases |ops|
  {
    if ops != [] && ApplyOp(m, ops[0]).Done? {
      OpKeepsConsistency(m, ops[0]);
      OpsKeepConsistency(ApplyOp(m, ops[0]).value, ops[1..]);
    }
  }

  lemma OpKeepsConsistency(m: Msg, op: Op)
    requires Consistent(m) && Allowed(op)
    ensures ApplyOp(m, op).Done? ==> Consistent(ApplyOp(m, op).value)
  {
    hide DistinctKeys, AddNamed, DelNamed, Lookup, Decimal;
    var l := m.named;
    match op {
      case AddNamedOp(key, value) => AddNamedRefines(l, key, value, key);
      case DelNamedOp(key) => DelNamedDistinct(l, key);
      case SetBodyOp(data) => SetBodyDistinct(m, data);
      case DelBodyOp => DelBodyDistinct(m);
      case _ =>
    }
  }

  lemma DelBodyDistinct(m: Msg)
    requires DistinctKeys(m.named)
    ensures DelBody(m).Done? ==> DistinctKeys(DelBody(m).value.named)
  {
    DelNamedDistinct(m.named, CONTENT_LENGTH);
    DelNamedDistinct(DelNamed(m.named, CONTENT_LENGTH), CONTENT_CHECKSUM);
  }

  lemma SetBodyDistinct(m: Msg, data: string)
    requires DistinctKeys(m.named)
    ensures SetBody(m, data).Done? ==> DistinctKeys(SetBody(m, data).value.named)
  {
    hide DistinctKeys, AddNamed, Decimal, DelBody;
    DelBodyDistinct(m);
    if SetBody(m, data).Done? {
      AddNamedRefines(DelBody(m).value.named, CONTENT_LENGTH, Decimal(|data|), CONTENT_LENGTH);
    }
  }

  /** From hms_msg_create on: however a message was built, later proper operations can
      fail exactly if its Content-Length lies; one built by proper operations cannot. */
  lemma BuiltMessages(ops: seq<Op>)
    requires forall i :: 0 <= i < |ops| ==> Allowed(ops[i])
    ensures match ApplyOps(EMPTY, ops)
            case Done(m) => (forall more :: Proper(more) ==> ApplyOps(m, more).Done?) <==> Safe(m)
            case Aborted => !Proper(ops)
    ensures Proper(ops) ==> ApplyOps(EMPTY, ops).Done? && Coupled(ApplyOps(EMPTY, ops).value)
  {
    EmptyIsCoupled();
    OpsKeepConsistency(EMPTY, ops);
    if Proper(ops) {
      OpsNeverAbort(EMPTY, ops);
    }
    if ApplyOps(EMPTY, ops).Done? {
      NeverAborts(ApplyOps(EMPTY, ops).value);
    }
  }

  /** A Content-Length without a body makes the next getter fail; one of 0 does not. */
  lemma LyingLengthAborts()
    ensures ApplyOps(EMPTY, [AddNamedOp(CONTENT_LENGTH, "5"), GetBodySizeOp]).Aborted?
    ensures var zero := ApplyOp(EMPTY, AddNamedOp(CONTENT_LENGTH, "0")).value; Safe(zero) && !Coupled(zero)
  {
    var five := AddNamedOp(CONTENT_LENGTH, "5");
    assert Decimal(5) == "5" && Decimal(0) == "0";
    AtoiDecimal(5);
    AtoiDecimal(0);
    OpKeepsSafety(EMPTY, five);
    var m := ApplyOp(EMPTY, five).value;
    AddNamedRefines([], CONTENT_LENGTH, "5", CONTENT_LENGTH);
    AddNamedRefines([], CONTENT_LENGTH, "0", CONTENT_LENGTH);
    var ops := [five, GetBodySizeOp];
    assert ops[1..] == [GetBodySizeOp] && ApplyOp(m, GetBodySizeOp).Aborted?;
    OpKeepsSafety(EMPTY, AddNamedOp(CONTENT_LENGTH, "0"));
  }

  /** Exactly when each operation on a body ends the process. */
  lemma AssertionsAre(m: Msg, data: string)
    requires Consistent(m)
    ensures GetBodySize(m).Aborted? <==> !Safe(m)
    ensures GetBody(m).Aborted? <==> m.content.Some? && !Safe(m)
    ensures DelBody(m).Aborted? <==> m.content.Some? && !Safe(m)
    ensures SetBody(m, data).Aborted? <==> data == "" || (m.content.Some? && !Safe(m))
  {
    hide Atoi, DistinctKeys;
  }

  // ----- what setting and deleting a body do -----

  /** Deleting a body leaves the verb, the unnamed headers and every other named header
      as they are; without a body nothing changes. */
  lemma DelBodyIs(m: Msg)
    requires Safe(m)
    ensures DelBody(m) == Done(
      if m.content.None? then m
      else Msg(m.verb, m.headers, Others(Others(m.named, "Content-Length"), "Content-Checksum"), None, 0))
  {
    hide Atoi, AddNamed, DistinctKeys, Others, SameKey;
    if m.content.Some? {
      DelNamedIsOthers(m.named, CONTENT_LENGTH);
      DelNamedDistinct(m.named, CONTENT_LENGTH);
      DelNamedIsOthers(DelNamed(m.named, CONTENT_LENGTH), CONTENT_CHECKSUM);
    }
  }

  lemma {:induction false} OthersMembers(l: seq<Header>, key: string)
    ensures forall h :: h in Others(l, key) ==> h in l && !AlikeKeys(h.key, key)
  {
    if l != [] {
      OthersMembers(l[1..], key);
    }
  }

  lemma NoneLeft(l: seq<Header>, key: string)
    requires forall h :: h in l ==> !AlikeKeys(h.key, key)
    ensures DelNamed(l, key) == l
  {
    hide AlikeKeys, SameKey;
    forall i | 0 <= i < |l|
      ensures !SameKey(l[i].key, key)
    {
      assert l[i] in l;
      SameKeyIs(l[i].key, key);
    }
    IndexOfNone(l, key);
  }

  /** Setting a body replaces the old one, together with its checksum, and moves
      Content-Length to the end; everything else stays as it is. */
  lemma SetBodyIs(m: Msg, data: string)
    requires Safe(m) && 0 < |data| <= INT_MAX
    ensures var rest := Others(m.named, "Content-Length");
      var kept := if m.content.None? then rest else Others(rest, "Content-Checksum");
      SetBody(m, data) ==
      Done(Msg(m.verb, m.headers, kept + [Header("Content-Length", Decimal(|data|))], Some(data), |data|))
  {
    hide Atoi, Decimal, Others, SameKey, AlikeKeys, DelBody;
    DelBodyIs(m);
    DelBodySafe(m);
    var rest := Others(m.named, CONTENT_LENGTH);
    if m.content.Some? {
      OthersMembers(m.named, CONTENT_LENGTH);
      OthersMembers(rest, CONTENT_CHECKSUM);
      NoneLeft(Others(rest, CONTENT_CHECKSUM), CONTENT_LENGTH);
    } else {
      DelNamedIsOthers(m.named, CONTENT_LENGTH);
    }
  }

  /** The getters on a safe message */
  lemma GettersAre(m: Msg)
    requires Safe(m)
    ensures GetBodySize(m) == Done(if m.content.Some? then |m.content.value| else 0)
    ensures GetBody(m) == Done(m.content) && (m.content.Some? ==> m.content.value != "")
  {
  }

  // ----- printing -----

  function PrintWords(words: seq<string>): string {
    if words == [] then "" else " " + words[0] + PrintWords(words[1..])
  }

  function PrintNamed(l: seq<Header>): string {
    if l == [] then "" else l[0].key + ":" + l[0].value + "\n" + PrintNamed(l[1..])
  }

  function VerbText(m: Msg): string {
    if m.verb.Some? then m.verb.value else ""
  }

  /** The bytes that hms_msg_print_header writes. */
  function Print(m: Msg): string {
    VerbText(m) + PrintWords(m.headers) + "\n" + PrintNamed(m.named) + ".\n"
  }

  /** The bytes of a message on the wire. */
  function Wire(m: Msg): string {
    Print(m) + (if m.content.Some? then m.content.value else "")
  }
}
