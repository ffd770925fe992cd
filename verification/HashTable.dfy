/** The table of src/hashtab/hashtable.c as a value: a sequence of the chains of
    HashChain, one for each slot, whose operations refine those of a finite map. */
module HashTable {
  import opened Common
  import opened HashChain

  type Table<K, V> = seq<Chain<K, V>>

  const HASHTAB_MAX_NODES: nat := 0xffff_ffff

  datatype InsertStatus = Inserted | AlreadyExists | Invalid

  // ----- the table as a value -----

  /** Every chain is sorted and holds only keys of its own slot. */
  ghost predicate WellFormed<K(!new), V>(o: Ops<K>, t: Table<K, V>) {
    && |t| == o.size
    && forall s :: 0 <= s < |t| ==>
         Sorted(o, t[s]) && forall i :: 0 <= i < |t[s]| ==> o.hash(t[s][i].key) == s
  }

  function Total<K, V>(t: Table<K, V>): nat {
    if t == [] then 0 else |t[0]| + Total(t[1..])
  }

  /** All entries, slot by slot */
  function Flatten<T>(t: seq<seq<T>>): seq<T> {
    if t == [] then [] else t[0] + Flatten(t[1..])
  }

  function Search<K, V>(o: Ops<K>, t: Table<K, V>, key: K): Option<V>
    requires o.hash(key) < |t|
  {
    Find(o, t[o.hash(key)], key)
  }

  lemma {:induction false} TotalUpdate<K, V>(t: Table<K, V>, s: nat, c: Chain<K, V>)
    requires s < |t|
    ensures Total(t[s := c]) == Total(t) - |t[s]| + |c|
  {
    if s == 0 {
      assert t[s := c][1..] == t[1..];
    } else {
      assert t[s := c][1..] == t[1..][s - 1 := c];
      TotalUpdate(t[1..], s - 1, c);
    }
  }

  lemma {:induction false} FlattenTotal<K, V>(t: Table<K, V>)
    ensures |Flatten(t)| == Total(t)
  {
    if t != [] {
      FlattenTotal(t[1..]);
    }
  }

  // ----- operations, on the table and on a map -----

  datatype Op<K, V> = InsertOp(entry: Entry<K, V>) | DeleteOp(key: K) | SearchOp(key: K)

  datatype Result<V> = Status(status: InsertStatus) | Datum(datum: Option<V>)

  function KeyOf<K, V>(op: Op<K, V>): K {
    match op
    case InsertOp(e) => e.key
    case DeleteOp(key) => key
    case SearchOp(key) => key
  }

  function TableStep<K, V>(o: Ops<K>, t: Table<K, V>, op: Op<K, V>): (Table<K, V>, Result<V>)
    requires o.hash(KeyOf(op)) < |t|
  {
    match op
    case InsertOp(e) =>
      var s := o.hash(e.key);
      if Total(t) == HASHTAB_MAX_NODES then (t, Status(Invalid))
      else if Find(o, t[s], e.key).Some? then (t, Status(AlreadyExists))
      else (t[s := Insert(o, t[s], e)], Status(Inserted))
    case DeleteOp(key) =>
      var s := o.hash(key);
      var i := IndexOf(o, t[s], key);
      (t[s := Delete(o, t[s], key)], Datum(if i < |t[s]| then Some(t[s][i].datum) else None))
    case SearchOp(key) => (t, Datum(Search(o, t, key)))
  }

  /** Inserting fails as invalid exactly at 2^32 - 1 entries, and as existing exactly if
      the key is there; then nothing changes. Otherwise one entry more is found. */
  lemma InsertIs<K(!new), V>(o: Ops<K>, t: Table<K, V>, e: Entry<K, V>)
    requires Lawful(o) && WellFormed(o, t)
    ensures o.hash(e.key) < |t|
    ensures var (t', r) := TableStep(o, t, InsertOp(e));
      && (r == Status(Invalid) <==> Total(t) == 4294967295)
      && (r == Status(AlreadyExists) <==> Total(t) != 4294967295 && Search(o, t, e.key).Some?)
      && (r != Status(Inserted) ==> t' == t)
      && (r == Status(Inserted) ==>
            && |t'| == |t| && Total(t') == Total(t) + 1
            && forall k :: o.hash(k) < |t| ==>
                 Search(o, t', k) == if o.cmp(k, e.key) == 0 then Some(e.datum) else Search(o, t, k))
  {
    hide Sorted, Stop, Find, Insert;
    if Total(t) != 4294967295 && Search(o, t, e.key).None? {
      InsertRefines(o, t, e);
    }
  }

  /** Deleting answers with the datum that was there, and removes exactly this key. */
  lemma DeleteIs<K(!new), V>(o: Ops<K>, t: Table<K, V>, key: K)
    requires Lawful(o) && WellFormed(o, t)
    ensures o.hash(key) < |t|
    ensures var (t', r) := TableStep(o, t, DeleteOp(key));
      && r == Datum(Search(o, t, key)) && |t'| == |t|
      && Total(t') == Total(t) - (if Search(o, t, key).Some? then 1 else 0)
      && forall k :: o.hash(k) < |t| ==>
           Search(o, t', k) == if o.cmp(k, key) == 0 then None else Search(o, t, k)
  {
    hide Sorted, Stop, Find, Delete;
    FindAgrees(o, t[o.hash(key)], key);
    DeleteRefines(o, t, key);
  }

  /** A finite map as what it yields for each key, equal keys yielding the same, and the
      number of its entries. */
  datatype MapState<!K, V> = MapState(get: K -> Option<V>, count: nat)

  function MapStep<K, V>(o: Ops<K>, m: MapState<K, V>, op: Op<K, V>): (MapState<K, V>, Result<V>) {
    match op
    case InsertOp(e) =>
      if m.count == HASHTAB_MAX_NODES then (m, Status(Invalid))
      else if m.get(e.key).Some? then (m, Status(AlreadyExists))
      else (MapState(k => if o.cmp(k, e.key) == 0 then Some(e.datum) else m.get(k), m.count + 1), Status(Inserted))
    case DeleteOp(key) =>
      if m.get(key).None? then (m, Datum(None))
      else (MapState(k => if o.cmp(k, key) == 0 then None else m.get(k), if m.count == 0 then 0 else m.count - 1),
            Datum(m.get(key)))
    case SearchOp(key) => (m, Datum(m.get(key)))
  }

  ghost predicate Refines<K(!new), V>(o: Ops<K>, t: Table<K, V>, m: MapState<K, V>) {
    && WellFormed(o, t) && m.count == Total(t)
    && forall k {:trigger m.get(k)} :: o.hash(k) < |t| ==> m.get(k) == Search(o, t, k)
  }

  lemma InsertRefines<K(!new), V>(o: Ops<K>, t: Table<K, V>, e: Entry<K, V>)
    requires Lawful(o) && WellFormed(o, t) && Search(o, t, e.key).None?
    ensures var s := o.hash(e.key);
      var t' := t[s := Insert(o, t[s], e)];
      && WellFormed(o, t') && Total(t') == Total(t) + 1
      && forall k :: o.hash(k) < |t| ==>
           Search(o, t', k) == if o.cmp(k, e.key) == 0 then Some(e.datum) else Search(o, t, k)
  {
    hide Sorted, Stop, Find;
    var s := o.hash(e.key);
    var c := Insert(o, t[s], e);
    InsertSorted(o, t[s], e);
    TotalUpdate(t, s, c);
    forall k | o.hash(k) < |t|
      ensures Search(o, t[s := c], k) == if o.cmp(k, e.key) == 0 then Some(e.datum) else Search(o, t, k)
    {
      FindInserted(o, t[s], e, k);
    }
  }

  lemma DeleteRefines<K(!new), V>(o: Ops<K>, t: Table<K, V>, key: K)
    requires Lawful(o) && WellFormed(o, t)
    ensures var s := o.hash(key);
      var t' := t[s := Delete(o, t[s], key)];
      && WellFormed(o, t')
      && Total(t') == Total(t) - (if Search(o, t, key).Some? then 1 else 0)
      && forall k :: o.hash(k) < |t| ==>
           Search(o, t', k) == if o.cmp(k, key) == 0 then None else Search(o, t, k)
  {
    hide Sorted, Stop, Find;
    var s := o.hash(key);
    var c := Delete(o, t[s], key);
    DeleteSorted(o, t[s], key);
    FindAgrees(o, t[s], key);
    TotalUpdate(t, s, c);
    forall k | o.hash(k) < |t|
      ensures Search(o, t[s := c], k) == if o.cmp(k, key) == 0 then None else Search(o, t, k)
    {
      FindDeleted(o, t[s], key, k);
    }
  }

  /** One operation: the table and the map stay in step and answer alike. */
  lemma StepRefines<K(!new), V>(o: Ops<K>, t: Table<K, V>, m: MapState<K, V>, op: Op<K, V>)
    requires Lawful(o) && Refines(o, t, m)
    ensures o.hash(KeyOf(op)) < |t|
    ensures var (t', r) := TableStep(o, t, op); var (m', q) := MapStep(o, m, op);
      r == q && Refines(o, t', m')
  {
    hide Sorted, Stop, Find, Insert, Delete;
    assert o.hash(KeyOf(op)) < |t|;
    match op {
      case InsertOp(e) =>
        if Total(t) != HASHTAB_MAX_NODES && Search(o, t, e.key).None? {
          InsertRefines(o, t, e);
        }
      case DeleteOp(key) =>
        var s := o.hash(key);
        FindAgrees(o, t[s], key);
        if Search(o, t, key).Some? {
          FoundIsCounted(t, s);
        }
        DeleteRefines(o, t, key);
        if Search(o, t, key).None? {
          DeleteNothing(o, t, key);
        }
      case SearchOp(key) =>
    }
  }

  lemma {:induction false} FoundIsCounted<K, V>(t: Table<K, V>, s: nat)
    requires s < |t|
    ensures Total(t) >= |t[s]|
  {
    if s > 0 {
      FoundIsCounted(t[1..], s - 1);
    }
  }

  lemma DeleteNothing<K(!new), V>(o: Ops<K>, t: Table<K, V>, key: K)
    requires Lawful(o) && WellFormed(o, t) && Search(o, t, key).None?
    ensures var s := o.hash(key); t[s := Delete(o, t[s], key)] == t
  {
    FindAgrees(o, t[o.hash(key)], key);
  }

  function RunTable<K, V>(o: Ops<K>, t: Table<K, V>, ops: seq<Op<K, V>>): seq<Result<V>>
    decreases |ops|
  {
    if ops == [] || o.hash(KeyOf(ops[0])) >= |t| then []
    else
      var (t', r) := TableStep(o, t, ops[0]);
      [r] + RunTable(o, t', ops[1..])
  }

  function RunMap<K, V>(o: Ops<K>, m: MapState<K, V>, ops: seq<Op<K, V>>): seq<Result<V>>
    decreases |ops|
  {
    if ops == [] then []
    else
      var (m', r) := MapStep(o, m, ops[0]);
      [r] + RunMap(o, m', ops[1..])
  }

  /** Under every sequence of inserts, deletes and searches the table answers as the map does. */
  lemma {:induction false} RunRefines<K(!new), V>(o: Ops<K>, t: Table<K, V>, m: MapState<K, V>, ops: seq<Op<K, V>>)
    requires Lawful(o) && Refines(o, t, m)
    ensures RunTable(o, t, ops) == RunMap(o, m, ops)
    decreases |ops|
  {
    hide Lawful, Refines, TableStep, MapStep;
    if ops != [] {
      StepRefines(o, t, m, ops[0]);
      RunRefines(o, TableStep(o, t, ops[0]).0, MapStep(o, m, ops[0]).0, ops[1..]);
    }
  }

  lemma {:induction false} TotalOfEmpty<K, V>(t: Table<K, V>)
    requires forall s :: 0 <= s < |t| ==> t[s] == []
    ensures Total(t) == 0
  {
    if t != [] {
      TotalOfEmpty(t[1..]);
    }
  }

  /** hashtab_create yields the empty map. */
  lemma EmptyRefines<K(!new), V>(o: Ops<K>, t: Table<K, V>)
    requires Lawful(o) && |t| == o.size && forall s :: 0 <= s < |t| ==> t[s] == []
    ensures Refines(o, t, MapState(k => None, 0))
  {
    TotalOfEmpty(t);
  }
}
