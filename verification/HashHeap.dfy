/** The hash table on the heap: an array of slots, each the head of a singly linked
    chain of nodes, and the resumable iterator over it. */
module HashHeap {
  import opened Common
  import opened HashChain
  import opened HashTable

  class Node<K, V> {
    const key: K
    const datum: V
    var next: Node?<K, V>

    constructor (key: K, datum: V, next: Node?<K, V>)
      ensures this.key == key && this.datum == datum && this.next == next
    {
      this.key, this.datum, this.next := key, datum, next;
    }
  }

  ghost function NodeAt<K, V>(c: seq<Node<K, V>>, i: nat): Node?<K, V> {
    if i < |c| then c[i] else null
  }

  /** The chain that starts at `first` runs through the nodes c. */
  ghost predicate Linked<K, V>(first: Node?<K, V>, c: seq<Node<K, V>>)
    reads c
  {
    first == NodeAt(c, 0) && forall i :: 0 <= i < |c| ==> c[i].next == NodeAt(c, i + 1)
  }

  lemma FirstOf<K, V>(first: Node?<K, V>, c: seq<Node<K, V>>)
    requires Linked(first, c)
    ensures first == NodeAt(c, 0)
  {
  }

  ghost function Entries<K, V>(c: seq<Node<K, V>>): (r: Chain<K, V>)
    ensures |r| == |c|
  {
    seq(|c|, i requires 0 <= i < |c| => Entry(c[i].key, c[i].datum))
  }

  ghost function TableOf<K, V>(cs: seq<seq<Node<K, V>>>): (t: Table<K, V>)
    ensures |t| == |cs|
  {
    seq(|cs|, s requires 0 <= s < |cs| => Entries(cs[s]))
  }

  lemma HashInRange<K(!new)>(o: Ops<K>, key: K)
    requires Lawful(o)
    ensures o.hash(key) < o.size
  {
  }

  /** A new node takes over the successor of `prev` and becomes its successor. */
  method InsertBehind<K, V>(prev: Node<K, V>, key: K, datum: V,
                            ghost first: Node?<K, V>, ghost c: seq<Node<K, V>>, ghost i: nat)
    returns (node: Node<K, V>)
    requires Linked(first, c) && 0 < i <= |c| && prev == c[i - 1]
    requires forall j :: 0 <= j < |c| && c[j] == prev ==> j == i - 1
    modifies prev
    ensures fresh(node) && node.key == key && node.datum == datum
    ensures Linked(first, c[..i] + [node] + c[i..])
  {
    node := new Node(key, datum, prev.next);
    prev.next := node;
  }

  lemma InFront<K, V>(node: Node<K, V>, c: seq<Node<K, V>>)
    requires Linked(node.next, c)
    ensures Linked(node, c[..0] + [node] + c[0..])
  {
  }

  /** The first node leaves the chain; the result is the new first node. */
  method RemoveFirst<K, V>(cur: Node<K, V>, ghost c: seq<Node<K, V>>) returns (first: Node?<K, V>)
    requires c != [] && cur == c[0] && Linked(cur, c)
    requires forall j :: 0 <= j < |c| && c[j] == cur ==> j == 0
    modifies cur
    ensures Linked(first, c[..0] + c[1..])
  {
    first := cur.next;
    cur.next := null;
  }

  /** `prev` takes over the successor of `cur`, which leaves the chain without one. */
  method RemoveBehind<K, V>(prev: Node<K, V>, cur: Node<K, V>,
                            ghost first: Node?<K, V>, ghost c: seq<Node<K, V>>, ghost i: nat)
    requires Linked(first, c) && 0 < i < |c| && prev == c[i - 1] && cur == c[i]
    requires forall j :: 0 <= j < |c| ==> (c[j] == prev ==> j == i - 1) && (c[j] == cur ==> j == i)
    modifies prev, cur
    ensures Linked(first, c[..i] + c[i + 1..])
  {
    prev.next := cur.next;
    cur.next := null;
  }

  class HashTab<K(!new), V> {
    const ops: Ops<K>
    const htable: array<Node?<K, V>>
    var nel: nat
    ghost var chains: seq<seq<Node<K, V>>>

    ghost function Nodes(): set<Node<K, V>>
      reads `chains
    {
      set s, i | 0 <= s < |chains| && 0 <= i < |chains[s]| :: chains[s][i]
    }

    ghost function Table(): (t: Table<K, V>)
      reads `chains
      ensures |t| == |chains|
    {
      TableOf(chains)
    }

    /** Every slot holds its chain. */
    ghost predicate Shape()
      reads `chains, htable, Nodes()
    {
      && htable.Length == ops.size == |chains| && ops.size > 0
      && forall s {:trigger chains[s]} :: 0 <= s < |chains| ==>
           (forall i :: 0 <= i < |chains[s]| ==> chains[s][i] in Nodes()) && Linked(htable[s], chains[s])
    }

    ghost predicate Valid()
      reads this, htable, Nodes()
    {
      Shape() && Lawful(ops) && WellFormed(ops, Table()) && nel == Total(Table())
    }

    /** hashtab_create */
    constructor (ops: Ops<K>)
      requires Lawful(ops) && ops.size > 0
      ensures Valid() && this.ops == ops && fresh(htable)
      ensures Refines(ops, Table(), MapState(k => None, 0)) && Nodes() == {}
    {
      this.ops := ops;
      htable := new Node?<K, V>[ops.size](_ => null);
      nel := 0;
      chains := seq(ops.size, _ => []);
      new;
      EmptyRefines(ops, Table());
    }

    lemma SlotOf(key: K)
      requires Valid()
      ensures ops.hash(key) < |chains| == htable.Length
      ensures Linked(htable[ops.hash(key)], chains[ops.hash(key)])
    {
      HashInRange(ops, key);
    }

    /** The loop shared by hashtab_search and hashtab_insert: walks past all smaller keys. */
    method Walk(key: K) returns (prev: Node?<K, V>, cur: Node?<K, V>, ghost i: nat)
      requires Valid()
      ensures ops.hash(key) < |chains| && i <= |chains[ops.hash(key)]|
      ensures cur == NodeAt(chains[ops.hash(key)], i)
      ensures prev == if i == 0 then null else chains[ops.hash(key)][i - 1]
      ensures i == Stop(ops, Entries(chains[ops.hash(key)]), key)
    {
      hide Valid, Stop;
      SlotOf(key);
      var hvalue := ops.hash(key);
      ghost var c := chains[hvalue];
      i := 0;
      prev := null;
      cur := htable[hvalue];
      while cur != null && ops.cmp(key, cur.key) > 0
        invariant i <= |c| && cur == NodeAt(c, i) && prev == if i == 0 then null else c[i - 1]
        invariant forall j :: 0 <= j < i ==> ops.cmp(key, c[j].key) > 0
        decreases |c| - i
      {
        prev := cur;
        cur := cur.next;
        i := i + 1;
      }
      StopIs(ops, Entries(c), key, i);
    }

    /** hashtab_search */
    method Search(key: K) returns (datum: Option<V>)
      requires Valid()
      ensures ops.hash(key) < |Table()|
      ensures (Table(), Datum(datum)) == TableStep(ops, Table(), SearchOp(key))
    {
      hide Valid, Stop, Linked;
      ghost var i;
      var prev, cur;
      prev, cur, i := Walk(key);
      if cur == null || ops.cmp(key, cur.key) != 0 {
        return None;
      }
      datum := Some(cur.datum);
    }

    /** No node is at two places. */
    ghost predicate Apart()
      reads `chains
    {
      forall s, i, u, j :: 0 <= s < |chains| && 0 <= i < |chains[s]| && 0 <= u < |chains| && 0 <= j < |chains[u]| ==>
        (chains[s][i] == chains[u][j] ==> s == u && i == j)
    }

    /** The key of a node tells its slot, and its place in a sorted chain. */
    lemma NodesApart()
      requires Valid()
      ensures Apart()
    {
      forall s, i, u, j | 0 <= s < |chains| && 0 <= i < |chains[s]| && 0 <= u < |chains| && 0 <= j < |chains[u]| &&
        chains[s][i] == chains[u][j]
        ensures s == u && i == j
      {
        OwnSlot(s, i, u, j);
      }
    }

    lemma OwnSlot(s: nat, i: nat, u: nat, j: nat)
      requires Valid() && s < |chains| && i < |chains[s]| && u < |chains| && j < |chains[u]|
      requires chains[s][i] == chains[u][j]
      ensures s == u && i == j
    {
      hide Total;
      var t := Table();
      assert t[s][i] == Entry(chains[s][i].key, chains[s][i].datum) && t[u][j] == t[s][i];
      assert ops.hash(t[s][i].key) == s && ops.hash(t[u][j].key) == u;
      var key := t[s][i].key;
      assert Sorted(ops, t[s]);
      assert ops.cmp(key, key) == 0;
    }

    lemma OnlyHere(s: nat, i: nat)
      requires Apart() && s < |chains| && i < |chains[s]|
      ensures forall u {:trigger chains[u]} :: 0 <= u < |chains| && u != s ==> chains[s][i] !in chains[u]
      ensures forall j :: 0 <= j < |chains[s]| && chains[s][j] == chains[s][i] ==> j == i
    {
    }

    /** Puts a chain into a slot once its nodes are linked and the others are untouched. */
    ghost method SetChain(s: nat, c: seq<Node<K, V>>)
      requires s < |chains| == htable.Length == ops.size
      requires Linked(htable[s], c)
      requires forall u {:trigger chains[u]} :: 0 <= u < |chains| && u != s ==> Linked(htable[u], chains[u])
      modifies this`chains
      ensures Shape() && chains == old(chains)[s := c]
      ensures Table() == old(Table())[s := Entries(c)]
      ensures forall n :: n in Nodes() ==> n in old(Nodes()) || n in c
    {
      hide Linked;
      chains := chains[s := c];
      assert forall u, i :: 0 <= u < |chains| && 0 <= i < |chains[u]| ==> chains[u][i] in Nodes();
    }

    /** The new node goes between `prev` and its successor, or to the front of the slot. */
    method LinkIn(hvalue: nat, ghost i: nat, key: K, datum: V, prev: Node?<K, V>)
      requires Shape() && Apart() && hvalue < |chains| && i <= |chains[hvalue]|
      requires prev == if i == 0 then null else chains[hvalue][i - 1]
      modifies this`chains, htable, Nodes()
      ensures Shape()
      ensures Table() == old(Table())[hvalue :=
                old(Table()[hvalue])[..i] + [Entry(key, datum)] + old(Table()[hvalue])[i..]]
      ensures forall n :: n in Nodes() ==> n in old(Nodes()) || fresh(n)
    {
      hide Nodes, Apart, Linked;
      ghost var c := chains[hvalue];
      assert Linked(htable[hvalue], c);
      assert forall u {:trigger chains[u]} :: 0 <= u < |chains| ==> Linked(htable[u], chains[u]);
      var node;
      if prev != null {
        OnlyHere(hvalue, i - 1);
        node := InsertBehind(prev, key, datum, htable[hvalue], c, i);
      } else {
        node := new Node(key, datum, htable[hvalue]);
        htable[hvalue] := node;
        InFront(node, c);
      }
      ghost var d := c[..i] + [node] + c[i..];
      assert Entries(d) == Entries(c)[..i] + [Entry(key, datum)] + Entries(c)[i..];
      SetChain(hvalue, d);
    }

    /** hashtab_insert */
    method Insert(key: K, datum: V) returns (status: InsertStatus)
      requires Valid()
      modifies this, htable, Nodes()
      ensures Valid() && ops.hash(key) < |Table()|
      ensures (Table(), Status(status)) == TableStep(ops, old(Table()), InsertOp(Entry(key, datum)))
      ensures forall n :: n in Nodes() ==> n in old(Nodes()) || fresh(n)
    {
      hide Lawful, WellFormed, Total, Stop, Linked, Nodes, Apart, Sorted;
      HashInRange(ops, key);
      if nel == HASHTAB_MAX_NODES {
        return Invalid;
      }
      var hvalue := ops.hash(key);
      ghost var i;
      var prev, cur;
      prev, cur, i := Walk(key);
      if cur != null && ops.cmp(key, cur.key) == 0 {
        return AlreadyExists;
      }
      InsertRefines(ops, Table(), Entry(key, datum));
      NodesApart();
      LinkIn(hvalue, i, key, datum, prev);
      nel := nel + 1;
      status := Inserted;
    }

    /** The node leaves its chain: its predecessor, or the slot, takes over its successor. */
    method LinkOut(hvalue: nat, ghost i: nat, prev: Node?<K, V>, cur: Node<K, V>)
      requires Shape() && Apart() && hvalue < |chains| && i < |chains[hvalue]|
      requires cur == chains[hvalue][i] && prev == if i == 0 then null else chains[hvalue][i - 1]
      modifies this`chains, htable, Nodes()
      ensures Shape()
      ensures Table() == old(Table())[hvalue := old(Table()[hvalue])[..i] + old(Table()[hvalue])[i + 1..]]
      ensures forall n :: n in Nodes() ==> n in old(Nodes()) || fresh(n)
    {
      hide Nodes, Apart, Linked;
      ghost var c := chains[hvalue];
      OnlyHere(hvalue, i);
      assert Linked(htable[hvalue], c);
      assert forall u {:trigger chains[u]} :: 0 <= u < |chains| ==> Linked(htable[u], chains[u]);
      if prev != null {
        OnlyHere(hvalue, i - 1);
        RemoveBehind(prev, cur, htable[hvalue], c, i);
      } else {
        FirstOf(htable[hvalue], c);
        htable[hvalue] := RemoveFirst(cur, c);
      }
      ghost var d := c[..i] + c[i + 1..];
      assert Entries(d) == Entries(c)[..i] + Entries(c)[i + 1..];
      SetChain(hvalue, d);
    }

    /** hashtab_delete; it compares with every node of the chain until one is equal. */
    method Delete(key: K) returns (datum: Option<V>)
      requires Valid()
      modifies this, htable, Nodes()
      ensures Valid() && ops.hash(key) < |Table()|
      ensures (Table(), Datum(datum)) == TableStep(ops, old(Table()), DeleteOp(key))
      ensures forall n :: n in Nodes() ==> n in old(Nodes()) || fresh(n)
    {
      hide Lawful, WellFormed, Total, IndexOf, Find, Linked, Nodes, Apart, Sorted;
      SlotOf(key);
      NodesApart();
      var hvalue := ops.hash(key);
      ghost var t := Table();
      DeleteRefines(ops, t, key);
      DeleteCounts(ops, t, key);
      var prev, cur;
      ghost var i;
      prev, cur, i := WalkToEqual(key);
      if cur == null {
        return None;
      }
      LinkOut(hvalue, i, prev, cur);
      nel := nel - 1;
      datum := Some(cur.datum);
    }

    /** The search of hashtab_delete: the first node is tested before the loop. */
    method WalkToEqual(key: K) returns (prev: Node?<K, V>, cur: Node?<K, V>, ghost i: nat)
      requires Valid()
      ensures ops.hash(key) < |chains| && i <= |chains[ops.hash(key)]|
      ensures cur == NodeAt(chains[ops.hash(key)], i)
      ensures prev == if i == 0 then null else chains[ops.hash(key)][i - 1]
      ensures i == IndexOf(ops, Entries(chains[ops.hash(key)]), key)
    {
      hide Valid, IndexOf;
      SlotOf(key);
      var hvalue := ops.hash(key);
      ghost var c := chains[hvalue];
      cur := htable[hvalue];
      i := 0;
      prev := null;
      if cur != null && ops.cmp(key, cur.key) != 0 {
        prev := cur;
        cur := cur.next;
        i := 1;
        while cur != null && ops.cmp(key, cur.key) != 0
          invariant 0 < i <= |c| && cur == NodeAt(c, i) && prev == c[i - 1]
          invariant forall j :: 0 <= j < i ==> ops.cmp(key, c[j].key) != 0
          decreases |c| - i
        {
          prev := cur;
          cur := cur.next;
          i := i + 1;
        }
      }
      IndexOfIs(ops, Entries(c), key, i);
    }
  }

  // ----- every sequence of operations on the heap -----

  /** One operation on the linked chains. */
  method Perform<K(!new), V>(h: HashTab<K, V>, op: Op<K, V>) returns (r: Result<V>)
    requires h.Valid()
    modifies h, h.htable, h.Nodes()
    ensures h.Valid() && h.ops.hash(KeyOf(op)) < |h.Table()|
    ensures (h.Table(), r) == TableStep(h.ops, old(h.Table()), op)
    ensures forall n :: n in h.Nodes() ==> n in old(h.Nodes()) || fresh(n)
  {
    match op {
      case InsertOp(e) =>
        var status := h.Insert(e.key, e.datum);
        r := Status(status);
      case DeleteOp(key) =>
        var datum := h.Delete(key);
        r := Datum(datum);
      case SearchOp(key) =>
        var datum := h.Search(key);
        r := Datum(datum);
    }
  }

  /** Under every sequence of inserts, deletes and searches the linked chains answer as
      the map does. */
  method PerformAll<K(!new), V>(h: HashTab<K, V>, ops: seq<Op<K, V>>, ghost m: MapState<K, V>)
    returns (results: seq<Result<V>>)
    requires h.Valid() && Refines(h.ops, h.Table(), m)
    modifies h, h.htable, h.Nodes()
    ensures h.Valid() && results == RunMap(h.ops, m, ops)
    ensures forall n :: n in h.Nodes() ==> n in old(h.Nodes()) || fresh(n)
  {
    hide Refines, TableStep, MapStep;
    results := [];
    ghost var now := m;
    var i := 0;
    assert ops[0..] == ops;
    while i < |ops|
      invariant 0 <= i <= |ops| && h.Valid() && Refines(h.ops, h.Table(), now)
      invariant forall n :: n in h.Nodes() ==> n in old(h.Nodes()) || fresh(n)
      invariant results + RunMap(h.ops, now, ops[i..]) == RunMap(h.ops, m, ops)
    {
      StepRefines(h.ops, h.Table(), now, ops[i]);
      assert ops[i..][0] == ops[i] && ops[i..][1..] == ops[i + 1..];
      ghost var (next, q) := MapStep(h.ops, now, ops[i]);
      assert results + ([q] + RunMap(h.ops, next, ops[i + 1..])) == (results + [q]) + RunMap(h.ops, next, ops[i + 1..]);
      var r := Perform(h, ops[i]);
      results := results + [r];
      now := next;
      i := i + 1;
    }
  }

  /** A table from hashtab_create answers as a map that is empty at first. */
  method CreateAndPerform<K(!new), V>(o: Ops<K>, ops: seq<Op<K, V>>) returns (results: seq<Result<V>>)
    requires Lawful(o) && o.size > 0
    ensures results == RunMap(o, MapState(k => None, 0), ops)
  {
    var h := new HashTab<K, V>(o);
    results := PerformAll(h, ops, MapState(k => None, 0));
  }

  /** An absent key leaves the chain as it is, a present one is found. */
  lemma DeleteCounts<K(!new), V>(o: Ops<K>, t: Table<K, V>, key: K)
    requires Lawful(o) && WellFormed(o, t)
    ensures o.hash(key) < |t|
    ensures var c := t[o.hash(key)];
      && (HashTable.Search(o, t, key).Some? <==> IndexOf(o, c, key) < |c|)
      && (IndexOf(o, c, key) == |c| ==> t[o.hash(key) := HashChain.Delete(o, c, key)] == t)
  {
    FindAgrees(o, t[o.hash(key)], key);
  }
}
