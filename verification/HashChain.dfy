/** The hash table as a value: one sorted chain of entries per slot. Searching stops
    at the first key that is not smaller; this agrees with a map because insert and
    delete keep the chains sorted. */
module HashChain {
  import opened Common

  datatype Entry<K, V> = Entry(key: K, datum: V)

  type Chain<K, V> = seq<Entry<K, V>>

  /** hash_value and keycmp of a table, and its number of slots. */
  datatype Ops<!K> = Ops(size: nat, hash: K -> nat, cmp: (K, K) -> int)

  /** keycmp is a total order up to its own equality, and equal keys hash equally. */
  ghost predicate Lawful<K(!new)>(o: Ops<K>) {
    && (forall a :: o.hash(a) < o.size)
    && (forall a :: o.cmp(a, a) == 0)
    && (forall a, b :: o.cmp(a, b) > 0 <==> o.cmp(b, a) < 0)
    && (forall a, b, c :: o.cmp(a, b) < 0 && o.cmp(b, c) < 0 ==> o.cmp(a, c) < 0)
    && (forall a, b, c :: o.cmp(a, b) == 0 ==> (o.cmp(a, c) < 0 <==> o.cmp(b, c) < 0))
    && (forall a, b, c :: o.cmp(a, b) == 0 && o.cmp(a, c) == 0 ==> o.cmp(b, c) == 0)
    && (forall a, b :: o.cmp(a, b) == 0 ==> o.hash(a) == o.hash(b))
  }

  lemma Flip<K(!new)>(o: Ops<K>, a: K, b: K)
    requires Lawful(o)
    ensures (o.cmp(a, b) > 0 <==> o.cmp(b, a) < 0) && (o.cmp(a, b) == 0 <==> o.cmp(b, a) == 0)
  {
    assert o.cmp(a, b) > 0 <==> o.cmp(b, a) < 0;
    assert o.cmp(b, a) > 0 <==> o.cmp(a, b) < 0;
  }

  lemma Transitive<K(!new)>(o: Ops<K>, a: K, b: K, c: K)
    requires Lawful(o) && o.cmp(a, b) < 0 && o.cmp(b, c) < 0
    ensures o.cmp(a, c) < 0
  {
  }

  lemma Substitute<K(!new)>(o: Ops<K>, a: K, b: K, c: K)
    requires Lawful(o) && o.cmp(a, b) == 0
    ensures (o.cmp(a, c) < 0 <==> o.cmp(b, c) < 0) && (o.cmp(a, c) == 0 <==> o.cmp(b, c) == 0)
    ensures o.hash(a) == o.hash(b)
  {
    Flip(o, a, b);
  }

  ghost predicate Sorted<K, V>(o: Ops<K>, c: Chain<K, V>) {
    forall i, j :: 0 <= i < j < |c| ==> o.cmp(c[i].key, c[j].key) < 0
  }

  // ----- one chain -----

  /** Where the walk past all smaller keys stops. */
  function Stop<K, V>(o: Ops<K>, c: Chain<K, V>, key: K): (p: nat)
    ensures p <= |c|
    ensures forall i :: 0 <= i < p ==> o.cmp(key, c[i].key) > 0
    ensures p < |c| ==> o.cmp(key, c[p].key) <= 0
  {
    if c == [] || o.cmp(key, c[0].key) <= 0 then 0 else 1 + Stop(o, c[1..], key)
  }

  /** Position of the first entry with an equal key, or the length of the chain. */
  function IndexOf<K, V>(o: Ops<K>, c: Chain<K, V>, key: K): (p: nat)
    ensures p <= |c|
    ensures forall i :: 0 <= i < p ==> o.cmp(key, c[i].key) != 0
    ensures p < |c| ==> o.cmp(key, c[p].key) == 0
  {
    if c == [] || o.cmp(key, c[0].key) == 0 then 0 else 1 + IndexOf(o, c[1..], key)
  }

  function Find<K, V>(o: Ops<K>, c: Chain<K, V>, key: K): Option<V> {
    var p := Stop(o, c, key);
    if p < |c| && o.cmp(key, c[p].key) == 0 then Some(c[p].datum) else None
  }

  function Insert<K, V>(o: Ops<K>, c: Chain<K, V>, e: Entry<K, V>): Chain<K, V> {
    var p := Stop(o, c, e.key);
    c[..p] + [e] + c[p..]
  }

  function Delete<K, V>(o: Ops<K>, c: Chain<K, V>, key: K): Chain<K, V> {
    var p := IndexOf(o, c, key);
    if p < |c| then c[..p] + c[p + 1..] else c
  }

  lemma StopIs<K, V>(o: Ops<K>, c: Chain<K, V>, key: K, p: nat)
    requires p <= |c| && (forall i :: 0 <= i < p ==> o.cmp(key, c[i].key) > 0)
    requires p < |c| ==> o.cmp(key, c[p].key) <= 0
    ensures Stop(o, c, key) == p
  {
  }

  lemma IndexOfIs<K, V>(o: Ops<K>, c: Chain<K, V>, key: K, p: nat)
    requires p <= |c| && (forall i :: 0 <= i < p ==> o.cmp(key, c[i].key) != 0)
    requires p < |c| ==> o.cmp(key, c[p].key) == 0
    ensures IndexOf(o, c, key) == p
  {
  }

  /** In a sorted chain the early exit never misses an entry. */
  lemma EarlyExit<K(!new), V>(o: Ops<K>, c: Chain<K, V>, key: K, i: nat)
    requires Lawful(o) && Sorted(o, c) && i < |c| && o.cmp(key, c[i].key) == 0
    ensures Stop(o, c, key) == i && IndexOf(o, c, key) == i
  {
    hide Lawful;
    forall j | 0 <= j < i
      ensures o.cmp(key, c[j].key) > 0
    {
      Substitute(o, key, c[i].key, c[j].key);
      Flip(o, c[j].key, c[i].key);
      Flip(o, c[j].key, key);
    }
    StopIs(o, c, key, i);
    IndexOfIs(o, c, key, i);
  }

  /** Early-exit search finds exactly the entries that are there. */
  lemma FindAgrees<K(!new), V>(o: Ops<K>, c: Chain<K, V>, key: K)
    requires Lawful(o) && Sorted(o, c)
    ensures Find(o, c, key) == (var i := IndexOf(o, c, key); if i < |c| then Some(c[i].datum) else None)
  {
    var i, p := IndexOf(o, c, key), Stop(o, c, key);
    if i < |c| {
      EarlyExit(o, c, key, i);
    }
  }

  /** Everything before the place of insertion is smaller, everything behind it larger. */
  lemma StopSplits<K(!new), V>(o: Ops<K>, c: Chain<K, V>, key: K, i: nat)
    requires Lawful(o) && Sorted(o, c) && Find(o, c, key).None? && i < |c|
    ensures if i < Stop(o, c, key) then o.cmp(c[i].key, key) < 0 else o.cmp(key, c[i].key) < 0
  {
    hide Lawful;
    var p := Stop(o, c, key);
    Flip(o, key, c[i].key);
    if i > p {
      Transitive(o, key, c[p].key, c[i].key);
    }
  }

  lemma InsertSorted<K(!new), V>(o: Ops<K>, c: Chain<K, V>, e: Entry<K, V>)
    requires Lawful(o) && Sorted(o, c) && Find(o, c, e.key).None?
    ensures Sorted(o, Insert(o, c, e))
  {
    hide Lawful, Stop, Find;
    var p, r := Stop(o, c, e.key), Insert(o, c, e);
    forall i, j | 0 <= i < j < |r|
      ensures o.cmp(r[i].key, r[j].key) < 0
    {
      if i == p {
        StopSplits(o, c, e.key, j - 1);
      } else if j == p {
        StopSplits(o, c, e.key, i);
      }
    }
  }

  lemma DeleteSorted<K, V>(o: Ops<K>, c: Chain<K, V>, key: K)
    requires Sorted(o, c)
    ensures Sorted(o, Delete(o, c, key))
  {
    var p, r := IndexOf(o, c, key), Delete(o, c, key);
    assert forall i :: 0 <= i < |r| ==> r[i] == if p < |c| && i >= p then c[i + 1] else c[i];
  }

  /** A sorted chain gives Some(d) for a key exactly if one of its entries does. */
  lemma FindByEntry<K(!new), V>(o: Ops<K>, c: Chain<K, V>, key: K, i: nat)
    requires Lawful(o) && Sorted(o, c) && i < |c| && o.cmp(key, c[i].key) == 0
    ensures Find(o, c, key) == Some(c[i].datum)
  {
    EarlyExit(o, c, key, i);
  }

  lemma FindNothing<K, V>(o: Ops<K>, c: Chain<K, V>, key: K)
    requires forall i :: 0 <= i < |c| ==> o.cmp(key, c[i].key) != 0
    ensures Find(o, c, key).None?
  {
  }

  lemma FindInserted<K(!new), V>(o: Ops<K>, c: Chain<K, V>, e: Entry<K, V>, key: K)
    requires Lawful(o) && Sorted(o, c) && Find(o, c, e.key).None?
    ensures Find(o, Insert(o, c, e), key) == if o.cmp(key, e.key) == 0 then Some(e.datum) else Find(o, c, key)
  {
    hide Lawful, Stop, Find, Sorted, IndexOf;
    var p, r, i := Stop(o, c, e.key), Insert(o, c, e), IndexOf(o, c, key);
    InsertSorted(o, c, e);
    FindAgrees(o, c, key);
    if o.cmp(key, e.key) == 0 {
      FindByEntry(o, r, key, p);
    } else if i < |c| {
      FindByEntry(o, r, key, if i < p then i else i + 1);
    } else {
      FindNothing(o, r, key);
    }
  }

  /** With equal keys only one entry can match. */
  lemma OnlyMatch<K(!new), V>(o: Ops<K>, c: Chain<K, V>, gone: K, key: K, j: nat)
    requires Lawful(o) && Sorted(o, c) && o.cmp(key, gone) == 0
    requires j < |c| && o.cmp(key, c[j].key) == 0
    ensures IndexOf(o, c, gone) == j
  {
    hide Lawful, Sorted, IndexOf, Stop;
    Substitute(o, key, gone, c[j].key);
    EarlyExit(o, c, gone, j);
  }

  lemma FindDeleted<K(!new), V>(o: Ops<K>, c: Chain<K, V>, gone: K, key: K)
    requires Lawful(o) && Sorted(o, c)
    ensures Find(o, Delete(o, c, gone), key) == if o.cmp(key, gone) == 0 then None else Find(o, c, key)
  {
    hide Lawful, Stop, Find, Sorted, IndexOf;
    var p, r, i := IndexOf(o, c, gone), Delete(o, c, gone), IndexOf(o, c, key);
    DeleteSorted(o, c, gone);
    FindAgrees(o, c, key);
    if o.cmp(key, gone) == 0 {
      forall j | 0 <= j < |r|
        ensures o.cmp(key, r[j].key) != 0
      {
        var at := if p < |c| && j >= p then j + 1 else j;
        if o.cmp(key, c[at].key) == 0 {
          OnlyMatch(o, c, gone, key, at);
        }
      }
      FindNothing(o, r, key);
    } else if i < |c| {
      if i == p {
        MatchesBoth(o, gone, key, c[i].key);
      }
      FindByEntry(o, r, key, if i < p then i else i - 1);
    } else {
      FindNothing(o, r, key);
    }
  }

  lemma MatchesBoth<K(!new)>(o: Ops<K>, a: K, b: K, c: K)
    requires Lawful(o) && o.cmp(a, c) == 0 && o.cmp(b, c) == 0
    ensures o.cmp(b, a) == 0
  {
    hide Lawful;
    Substitute(o, b, c, a);
    Flip(o, a, c);
  }
}
