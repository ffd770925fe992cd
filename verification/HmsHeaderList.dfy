/** The header lists of a message as src/hms/hms_msg.c has them: nodes of an intrusive
    list with a counter. Each operation is a walk over the ring and at most one insertion
    or deletion, and acts on the sequence of values. */
module HmsHeaderList {
  import opened Common
  import opened HmsList

  /** Position of the first match, or the number of values. */
  function First<T>(s: seq<T>, matches: T -> bool): (i: nat)
    ensures i <= |s|
    ensures i < |s| ==> matches(s[i])
    ensures forall j :: 0 <= j < i ==> !matches(s[j])
  {
    if s == [] || matches(s[0]) then 0 else 1 + First(s[1..], matches)
  }

  lemma FirstIs<T>(s: seq<T>, matches: T -> bool, i: nat)
    requires i <= |s| && (i < |s| ==> matches(s[i]))
    requires forall j :: 0 <= j < i ==> !matches(s[j])
    ensures First(s, matches) == i
  {
  }

  function Without<T>(s: seq<T>, i: nat): seq<T>
    requires i <= |s|
  {
    if i < |s| then s[..i] + s[i + 1..] else s
  }

  class HeaderList<T> {
    const head: ListHead
    var owner: map<ListHead, T>  // the structure that a node is embedded in (hms_list_entry)
    var num: int
    ghost var nodes: seq<ListHead>

    ghost predicate Valid()
      reads this, Repr()
    {
      IsList(head, nodes) && num == |nodes| && Owned()
    }

    ghost predicate Owned()
      reads this
    {
      forall i :: 0 <= i < |nodes| ==> nodes[i] in owner
    }

    ghost function Values(): (s: seq<T>)
      requires Owned()
      reads this
      ensures |s| == |nodes|
    {
      seq(|nodes|, i requires 0 <= i < |nodes| && Owned() reads this => owner[nodes[i]])
    }

    /** What the list consists of. */
    ghost function Repr(): set<object>
      reads this
    {
      {this, head} + set n | n in nodes :: n as object
    }

    constructor ()
      ensures Valid() && Values() == [] && fresh(head) && nodes == []
    {
      head := new ListHead();
      owner, num, nodes := map[], 0, [];
    }

    /** hms_list_add_tail of a new structure */
    method Append(value: T)
      requires Valid()
      modifies Repr()
      ensures Valid() && Values() == old(Values()) + [value]
      ensures fresh(Repr() - old(Repr()))
    {
      ghost var values, before := Values(), nodes;
      var entry := new ListHead();
      AddTail(entry, head, nodes);
      nodes := nodes + [entry];
      owner := owner[entry := value];
      num := num + 1;
      assert forall i :: 0 <= i < |before| ==> nodes[i] == before[i] && before[i] != entry;
      assert Values() == values + [value];
    }

    // ----- hms_list_for_each_entry, step by step -----

    /** The walk has reached entry number k, or the head behind the last one. */
    ghost predicate Stands(pos: ListHead, k: nat)
      reads this
    {
      k <= |nodes| && pos == At(head, nodes, k + 1)
    }

    lemma StandsAt(pos: ListHead, k: nat)
      requires Valid() && Stands(pos, k)
      ensures pos == head <==> k == |nodes|
      ensures k < |nodes| ==> pos == nodes[k] && pos in owner && owner[pos] == Values()[k]
    {
    }

    method Start() returns (pos: ListHead)
      requires Valid()
      ensures Stands(pos, 0)
    {
      assert LinkedAt(head, nodes, 0);
      pos := head.next;
    }

    method Next(pos: ListHead, ghost k: nat) returns (next: ListHead)
      requires Valid() && Stands(pos, k) && k < |nodes|
      ensures Stands(next, k + 1)
    {
      assert LinkedAt(head, nodes, k + 1);
      next := pos.next;
    }

    /** All values, as a caller reads them off one by one. */
    method ToSeq() returns (s: seq<T>)
      requires Valid()
      ensures s == Values()
    {
      hide IsList, Stands;
      s := [];
      var pos := Start();
      ghost var k := 0;
      StandsAt(pos, k);
      while pos != head
        invariant Valid() && Stands(pos, k) && k == |s| <= |nodes| && s == Values()[..k]
        invariant pos == head <==> k == |nodes|
        decreases |nodes| - k
      {
        StandsAt(pos, k);
        s := s + [owner[pos]];
        pos := Next(pos, k);
        k := k + 1;
        StandsAt(pos, k);
      }
    }

    /** The walk of hms_msg_get_header */
    method Get(index: int) returns (value: Option<T>)
      requires Valid()
      ensures value == if 0 <= index < |Values()| then Some(Values()[index]) else None
    {
      if num <= 0 || index < 0 || index >= num {
        return None;
      }
      var pos := Nth(head, index, nodes);
      value := Some(owner[pos]);
    }

    /** The walk of hms_msg_get_named_header */
    method Find(matches: T -> bool) returns (value: Option<T>)
      requires Valid()
      ensures var i := First(Values(), matches);
        value == if i < |Values()| then Some(Values()[i]) else None
    {
      hide IsList, Stands, First;
      var pos := Start();
      ghost var k := 0;
      StandsAt(pos, k);
      while pos != head
        invariant Valid() && Stands(pos, k) && 0 <= k <= |nodes| && (pos == head <==> k == |nodes|)
        invariant forall j :: 0 <= j < k ==> !matches(Values()[j])
        decreases |nodes| - k
      {
        StandsAt(pos, k);
        if matches(owner[pos]) {
          FirstIs(Values(), matches, k);
          return Some(owner[pos]);
        }
        pos := Next(pos, k);
        k := k + 1;
        StandsAt(pos, k);
      }
      FirstIs(Values(), matches, k);
      value := None;
    }

    /** hms_list_del of node number k, which is freed with its structure */
    method Unlink(pos: ListHead, ghost k: nat)
      requires Valid() && k < |nodes| && pos == nodes[k]
      modifies Repr()
      ensures Valid() && Repr() <= old(Repr())
      ensures nodes == Without(old(nodes), k) && Values() == Without(old(Values()), k)
    {
      ghost var values, before := Values(), nodes;
      Del(pos, head, nodes, k);
      nodes := Removed(nodes, k);
      num := num - 1;
      owner := owner - {pos};
      assert forall i :: 0 <= i < |nodes| ==> nodes[i] == before[if i < k then i else i + 1] && nodes[i] != pos;
      assert forall n :: n in nodes ==> n in before;
      assert Values() == Without(values, k);
    }

    /** The safe walk of hms_msg_del_header */
    method DelIndex(index: int) returns (status: int)
      requires Valid()
      modifies Repr()
      ensures Valid() && Repr() <= old(Repr())
      ensures if 0 <= index < |old(Values())| then status == 0 && Values() == Without(old(Values()), index)
              else status == -1 && Values() == old(Values())
    {
      if num <= 0 || index < 0 || index >= num {
        return -1;
      }
      assert LinkedAt(head, nodes, 0) && LinkedAt(head, nodes, 1);
      var pos := head.next;
      var n := pos.next;
      var i := 0;
      while pos != head
        invariant Valid() && Values() == old(Values()) && nodes == old(nodes)
        invariant 0 <= i <= index && pos == At(head, nodes, i + 1) && n == At(head, nodes, i + 2)
        decreases |nodes| - i
      {
        if i == index {
          Unlink(pos, i);
          return 0;
        }
        assert LinkedAt(head, nodes, i + 2);
        i := i + 1;
        pos := n;
        n := n.next;
      }
      status := 0;
    }

    /** The safe walk of hms_msg_del_named_header */
    method DelFirst(matches: T -> bool)
      requires Valid()
      modifies Repr()
      ensures Valid() && Repr() <= old(Repr())
      ensures Values() == Without(old(Values()), First(old(Values()), matches))
    {
      ghost var values := Values();
      FirstTwo(head, nodes);
      var pos := head.next;
      var n := pos.next;
      ghost var k := 0;
      while pos != head
        invariant Valid() && Values() == values && nodes == old(nodes)
        invariant 0 <= k <= |nodes| && pos == At(head, nodes, k + 1)
        invariant k < |nodes| ==> n == At(head, nodes, k + 2)
        invariant forall j :: 0 <= j < k ==> !matches(values[j])
        decreases |nodes| - k
      {
        assert values[k] == owner[pos];
        if matches(owner[pos]) {
          FirstIs(values, matches, k);
          Unlink(pos, k);
          return;
        }
        assert k + 2 <= |nodes| ==> LinkedAt(head, nodes, k + 2);
        pos := n;
        n := n.next;
        k := k + 1;
      }
      FirstIs(values, matches, k);
    }

    /** The loop of hms_msg_destroy: its final assertion on the counter holds. */
    method Destroy() returns (asserted: bool)
      requires Valid()
      modifies Repr()
      ensures Valid() && Values() == [] && Repr() <= old(Repr()) && asserted
    {
      ghost var visited;
      var count;
      count, visited := DeleteAll(head, nodes);
      num := num - count;
      nodes, owner := [], map[];
      asserted := num == 0;
    }
  }
}
