/** Walking over a hash table: hashtab_map, hashtab_stat and the resumable
    hashtab_iterate all go through the slots in order, and through each chain. */
module HashIterate {
  import opened Common
  import opened HashChain
  import opened HashTable
  import opened HashHeap

  // ----- positions in the flattened table -----

  /** How many elements come before place j of slot s. */
  function Rank<T>(t: seq<seq<T>>, s: nat, j: nat): nat
    requires s <= |t|
  {
    |Flatten(t[..s])| + j
  }

  lemma {:induction false} FlattenAppend<T>(a: seq<seq<T>>, c: seq<T>)
    ensures Flatten(a + [c]) == Flatten(a) + c
  {
    if a == [] {
      assert Flatten([c]) == c + Flatten([c][1..]);
      assert [] + [c] == [c];
    } else {
      assert (a + [c])[1..] == a[1..] + [c];
      FlattenAppend(a[1..], c);
    }
  }

  lemma {:induction false} FlattenSplit<T>(a: seq<seq<T>>, b: seq<seq<T>>)
    ensures Flatten(a + b) == Flatten(a) + Flatten(b)
  {
    if a == [] {
      assert a + b == b;
    } else {
      assert (a + b)[1..] == a[1..] + b;
      FlattenSplit(a[1..], b);
    }
  }

  lemma RankNextSlot<T>(t: seq<seq<T>>, s: nat)
    requires s < |t|
    ensures Rank(t, s + 1, 0) == Rank(t, s, |t[s]|) <= |Flatten(t)|
    ensures Flatten(t[..s + 1]) == Flatten(t[..s]) + t[s]
    ensures forall j :: 0 <= j < |t[s]| ==> Rank(t, s, j) < |Flatten(t)| && Flatten(t)[Rank(t, s, j)] == t[s][j]
  {
    assert t[..s + 1] == t[..s] + [t[s]];
    FlattenAppend(t[..s], t[s]);
    assert t == t[..s + 1] + t[s + 1..];
    FlattenSplit(t[..s + 1], t[s + 1..]);
  }

  lemma RankEnd<T>(t: seq<seq<T>>)
    ensures Rank(t, |t|, 0) == |Flatten(t)|
  {
    assert t[..|t|] == t;
  }

  // ----- the iterator -----

  class HashIterator<K(!new), V> {
    var slotId: int
    var nodePtr: Node?<K, V>

    constructor ()
      ensures slotId == 0 && nodePtr == null
    {
      slotId, nodePtr := 0, null;
    }
  }

  /** The iterator stands at the element with rank p. */
  ghost predicate StandsAt<K(!new), V>(it: HashIterator<K, V>, chains: seq<seq<Node<K, V>>>, p: nat)
    reads it
  {
    && 0 <= it.slotId < |chains|
    && exists j: nat :: StandsAtPlace(it, chains, p, j)
  }

  ghost predicate StandsAtPlace<K(!new), V>(it: HashIterator<K, V>, chains: seq<seq<Node<K, V>>>, p: nat, j: nat)
    reads it
  {
    && 0 <= it.slotId < |chains| && j < |chains[it.slotId]|
    && it.nodePtr == chains[it.slotId][j] && p == Rank(chains, it.slotId, j)
  }

  lemma SlotLinked<K(!new), V>(h: HashTab<K, V>, s: nat)
    requires h.Valid() && s < |h.chains|
    ensures h.htable.Length == |h.chains| && Linked(h.htable[s], h.chains[s])
  {
  }

  /** The element with rank k is in front of place j of slot `level`, or behind that slot. */
  ghost predicate Ahead<K(!new), V>(chains: seq<seq<Node<K, V>>>, level: nat, cur: Node?<K, V>, j: nat, k: nat) {
    && level <= |chains|
    && (if level < |chains| then j <= |chains[level]| && cur == NodeAt(chains[level], j) else j == 0)
    && k == Rank(chains, level, j)
  }

  lemma AheadHere<K(!new), V>(chains: seq<seq<Node<K, V>>>, level: nat, cur: Node?<K, V>, j: nat, k: nat)
    requires Ahead(chains, level, cur, j, k) && level < |chains|
    ensures if cur != null then j < |chains[level]| && k < |Flatten(chains)| && cur == Flatten(chains)[k]
            else k == Rank(chains, level + 1, 0)
  {
    RankNextSlot(chains, level);
  }

  /** The search of hashtab_iterate for the next node, slot by slot. */
  method FindNext<K(!new), V>(h: HashTab<K, V>, it: HashIterator<K, V>, start: Node?<K, V>,
                              ghost from: nat, ghost k: nat)
    returns (found: bool)
    requires h.Valid() && h.ops.size <= INT_MAX
    requires 0 <= it.slotId < |h.chains| && Ahead(h.chains, it.slotId, start, from, k)
    modifies it
    ensures found <==> k < |Flatten(h.chains)|
    ensures found ==> StandsAt(it, h.chains, k) && it.nodePtr == Flatten(h.chains)[k]
    ensures !found ==> k == |Flatten(h.chains)|
  {
    hide Flatten, Lawful, WellFormed, Total, Linked, Rank;
    SlotLinked(h, 0);
    ghost var j: nat := from;
    var cur, level := start, it.slotId;
    while level < h.htable.Length
      invariant h.Valid() && h.chains == old(h.chains)
      invariant 0 <= level <= |h.chains| && Ahead(h.chains, level, cur, j, k)
    {
      AheadHere(h.chains, level, cur, j, k);
      if cur != null {
        it.slotId := level;
        it.nodePtr := cur;
        assert StandsAtPlace(it, h.chains, k, j);
        return true;
      }
      level := level + 1;
      j := 0;
      if level < h.htable.Length {
        SlotLinked(h, level);
        FirstOf(h.htable[level], h.chains[level]);
        cur := h.htable[level];
      } else {
        cur := null;
      }
    }
    RankEnd(h.chains);
    found := false;
  }

  lemma RankStart<T>(t: seq<seq<T>>)
    ensures Rank(t, 0, 0) == 0
  {
    assert t[..0] == [];
  }

  /** hashtab_iterate: from the start for NULL, otherwise on from rank p; NULL at the end. */
  method Iterate<K(!new), V>(h: HashTab<K, V>, given: HashIterator?<K, V>, ghost p: nat)
    returns (r: HashIterator?<K, V>)
    requires h.Valid() && h.ops.size <= INT_MAX
    requires given != null ==> StandsAt(given, h.chains, p)
    modifies given
    ensures var k := if given == null then 0 else p + 1;
      && (r == null <==> k == |Flatten(h.chains)|)
      && (r != null ==> StandsAt(r, h.chains, k) && k < |Flatten(h.chains)| && r.nodePtr == Flatten(h.chains)[k])
    ensures r == null || fresh(r) || r == given
  {
    hide Flatten, Lawful, WellFormed, Total, Linked;
    var it, cur := given, null;
    ghost var j: nat := 0;
    ghost var k := if given == null then 0 else p + 1;
    if it == null {
      it := new HashIterator();
      SlotLinked(h, 0);
      RankStart(h.chains);
      cur := h.htable[0];
    } else {
      j :| StandsAtPlace(it, h.chains, p, j);
      SlotLinked(h, it.slotId);
      cur := it.nodePtr.next;
      j := j + 1;
    }
    var found := FindNext(h, it, cur, j, k);
    r := if found then it else null;
  }

  lemma {:induction false} FlattenEntries<K, V>(cs: seq<seq<Node<K, V>>>)
    ensures Entries(Flatten(cs)) == Flatten(TableOf(cs))
  {
    if cs != [] {
      assert TableOf(cs)[1..] == TableOf(cs[1..]);
      FlattenEntries(cs[1..]);
    }
  }

  /** Repeated calls from NULL visit every entry exactly once, slot by slot. */
  method VisitAll<K(!new), V>(h: HashTab<K, V>) returns (visited: seq<Entry<K, V>>)
    requires h.Valid() && h.ops.size <= INT_MAX
    ensures visited == Flatten(h.Table()) && |visited| == h.nel
  {
    hide Flatten, Lawful, WellFormed, Linked, StandsAt, Total;
    ghost var all, p := Flatten(h.chains), 0;
    visited := [];
    var it := Iterate(h, null, 0);
    while it != null
      invariant h.Valid() && p <= |all| && visited == Entries(all[..p])
      invariant it == null <==> p == |all|
      invariant it != null ==> fresh(it) && StandsAt(it, h.chains, p) && it.nodePtr == all[p]
      decreases |all| - p
    {
      assert all[..p + 1] == all[..p] + [all[p]];
      visited := visited + [Entry(it.nodePtr.key, it.nodePtr.datum)];
      it := Iterate(h, it, p);
      p := p + 1;
    }
    assert all[..|all|] == all;
    FlattenEntries(h.chains);
    FlattenTotal(h.Table());
  }

  // ----- hashtab_map -----

  /** The callback returned 0 for all of these entries. */
  predicate AllZero<K, V>(apply: (K, V) -> int, es: seq<Entry<K, V>>) {
    forall i :: 0 <= i < |es| ==> apply(es[i].key, es[i].datum) == 0
  }

  /** `visited` is the prefix of all entries up to the first one for which the callback
      does not return 0. */
  ghost predicate MapResult<K, V>(apply: (K, V) -> int, all: seq<Entry<K, V>>, visited: seq<Entry<K, V>>, ret: int) {
    && visited <= all
    && if ret == 0 then visited == all && AllZero(apply, all)
       else
         && visited != []
         && apply(visited[|visited| - 1].key, visited[|visited| - 1].datum) == ret
         && AllZero(apply, visited[..|visited| - 1])
  }

  /** The inner loop of hashtab_map: one chain */
  method MapChain<K(!new), V>(first: Node?<K, V>, ghost c: seq<Node<K, V>>, apply: (K, V) -> int)
    returns (ret: int, visited: seq<Entry<K, V>>)
    requires Linked(first, c)
    ensures MapResult(apply, Entries(c), visited, ret)
  {
    ghost var es := Entries(c);
    var cur := first;
    visited := [];
    while cur != null
      invariant |visited| <= |c| && cur == NodeAt(c, |visited|)
      invariant visited == es[..|visited|] && AllZero(apply, visited)
      decreases |c| - |visited|
    {
      ghost var seen := visited;
      ret := apply(cur.key, cur.datum);
      visited := visited + [Entry(cur.key, cur.datum)];
      assert visited[..|visited| - 1] == seen;
      if ret != 0 {
        return;
      }
      cur := cur.next;
    }
    ret := 0;
  }

  /** Going on behind entries that all returned 0 */
  lemma MapOn<K, V>(apply: (K, V) -> int, before: seq<Entry<K, V>>, es: seq<Entry<K, V>>, rest: seq<Entry<K, V>>,
                    visited: seq<Entry<K, V>>, ret: int)
    requires AllZero(apply, before) && MapResult(apply, es, visited, ret)
    ensures ret != 0 ==> MapResult(apply, before + es + rest, before + visited, ret)
    ensures ret == 0 ==> AllZero(apply, before + es) && visited == es
  {
    if ret != 0 {
      assert before + visited <= before + es + rest;
      assert (before + visited)[..|before + visited| - 1] == before + visited[..|visited| - 1];
    }
  }

  method MapAll<K(!new), V>(h: HashTab<K, V>, apply: (K, V) -> int) returns (ret: int, visited: seq<Entry<K, V>>)
    requires h.Valid()
    ensures MapResult(apply, Flatten(h.Table()), visited, ret)
    ensures ret == 0 <==> visited == Flatten(h.Table()) && forall e :: e in visited ==> apply(e.key, e.datum) == 0
    ensures ret != 0 ==> visited != [] && (var e := visited[|visited| - 1]; apply(e.key, e.datum) == ret)
    ensures forall i :: 0 <= i < |visited| - 1 ==> apply(visited[i].key, visited[i].datum) == 0
  {
    hide Lawful, WellFormed, Flatten, Total, Linked, MapResult, AllZero;
    ghost var t := h.Table();
    var i := 0;
    visited := [];
    NoSlots(t);
    NothingMapped(apply);
    while i < h.htable.Length
      invariant 0 <= i <= |t| && visited == Flatten(t[..i]) && AllZero(apply, visited)
    {
      SlotLinked(h, i);
      var part;
      ret, part := MapChain(h.htable[i], h.chains[i], apply);
      ghost var rest := SlotPrefix(t, i);
      MapOn(apply, visited, t[i], rest, part, ret);
      visited := visited + part;
      if ret != 0 {
        MapResultIs(apply, Flatten(t), visited, ret);
        return;
      }
      RankNextSlot(t, i);
      i := i + 1;
    }
    ret := 0;
    assert t[..|t|] == t;
    MappedAll(apply, visited);
    MapResultIs(apply, Flatten(t), visited, ret);
  }

  lemma MapResultIs<K, V>(apply: (K, V) -> int, all: seq<Entry<K, V>>, visited: seq<Entry<K, V>>, ret: int)
    requires MapResult(apply, all, visited, ret)
    ensures ret == 0 <==> visited == all && forall e :: e in visited ==> apply(e.key, e.datum) == 0
    ensures ret != 0 ==> visited != [] && (var e := visited[|visited| - 1]; apply(e.key, e.datum) == ret)
    ensures forall i :: 0 <= i < |visited| - 1 ==> apply(visited[i].key, visited[i].datum) == 0
  {
    if ret == 0 {
      forall e | e in visited
        ensures apply(e.key, e.datum) == 0
      {
        var i :| 0 <= i < |visited| && visited[i] == e;
      }
    } else {
      assert visited[|visited| - 1] in visited;
    }
  }

  lemma NothingMapped<K, V>(apply: (K, V) -> int)
    ensures AllZero(apply, [])
  {
  }

  lemma MappedAll<K, V>(apply: (K, V) -> int, es: seq<Entry<K, V>>)
    requires AllZero(apply, es)
    ensures MapResult(apply, es, es, 0)
  {
  }

  lemma NoSlots<T>(t: seq<seq<T>>)
    ensures Flatten(t[..0]) == []
  {
  }

  lemma SlotPrefix<T>(t: seq<seq<T>>, s: nat) returns (rest: seq<T>)
    requires s < |t|
    ensures Flatten(t) == Flatten(t[..s]) + t[s] + rest
  {
    assert t == t[..s + 1] + t[s + 1..];
    FlattenSplit(t[..s + 1], t[s + 1..]);
    RankNextSlot(t, s);
    rest := Flatten(t[s + 1..]);
  }

  // ----- hashtab_stat -----

  /** The slots below n that are in use */
  ghost function UsedSlots<T>(t: seq<seq<T>>, n: nat): set<nat>
    requires n <= |t|
  {
    set s: nat | s < n && t[s] != []
  }

  ghost predicate IsLongest<T>(t: seq<seq<T>>, n: nat, len: nat)
    requires n <= |t|
  {
    && (forall s :: 0 <= s < n ==> |t[s]| <= len)
    && (len == 0 || exists s :: 0 <= s < n && |t[s]| == len)
  }

  /** The inner loop of hashtab_stat */
  method ChainLength<K(!new), V>(first: Node?<K, V>, ghost c: seq<Node<K, V>>) returns (len: nat)
    requires Linked(first, c)
    ensures len == |c|
  {
    var cur := first;
    len := 0;
    while cur != null
      invariant len <= |c| && cur == NodeAt(c, len)
      decreases |c| - len
    {
      len := len + 1;
      cur := cur.next;
    }
  }

  lemma StatStep<T>(t: seq<seq<T>>, i: nat, max: nat)
    requires i < |t| && IsLongest(t, i, max)
    ensures |UsedSlots(t, i + 1)| == |UsedSlots(t, i)| + (if t[i] == [] then 0 else 1)
    ensures IsLongest(t, i + 1, if |t[i]| > max then |t[i]| else max)
  {
    assert UsedSlots(t, i + 1) == if t[i] == [] then UsedSlots(t, i) else UsedSlots(t, i) + {i};
  }

  method Stat<K(!new), V>(h: HashTab<K, V>) returns (slotsUsed: nat, maxChainLen: nat)
    requires h.Valid()
    ensures slotsUsed == |UsedSlots(h.Table(), |h.Table()|)|
    ensures IsLongest(h.Table(), |h.Table()|, maxChainLen)
  {
    hide Lawful, WellFormed, Total, Linked, IsLongest;
    ghost var t := h.Table();
    var i := 0;
    slotsUsed, maxChainLen := 0, 0;
    StatStart(t);
    while i < h.htable.Length
      invariant 0 <= i <= |t| && slotsUsed == |UsedSlots(t, i)| && IsLongest(t, i, maxChainLen)
    {
      SlotLinked(h, i);
      FirstOf(h.htable[i], h.chains[i]);
      StatStep(t, i, maxChainLen);
      if h.htable[i] != null {
        slotsUsed := slotsUsed + 1;
        var chainLen := ChainLength(h.htable[i], h.chains[i]);
        if chainLen > maxChainLen {
          maxChainLen := chainLen;
        }
      }
      i := i + 1;
    }
  }

  lemma StatStart<T>(t: seq<seq<T>>)
    ensures UsedSlots(t, 0) == {} && IsLongest(t, 0, 0)
  {
  }
}
