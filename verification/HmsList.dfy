/** The intrusive circular doubly linked list of src/include/hms_list.h: pointer
    surgery on heap nodes, proved to act on a sequence of entries. */
module HmsList {

  class ListHead {
    var next: ListHead?
    var prev: ListHead?

    /** HMS_INIT_LIST_HEAD */
    constructor ()
      ensures IsList(this, [])
    {
      next := this;
      prev := this;
    }
  }

  /** The ring of a head and its entries, unrolled so that the head is at both ends. */
  ghost function At(head: ListHead, s: seq<ListHead>, i: int): ListHead
    requires 0 <= i <= |s| + 1
  {
    if 1 <= i <= |s| then s[i - 1] else head
  }

  ghost predicate Distinct(head: ListHead, s: seq<ListHead>) {
    head !in s && forall i, j :: 0 <= i < j < |s| ==> s[i] != s[j]
  }

  /** Positions i and i + 1 of the ring point at each other. */
  ghost predicate LinkedAt(head: ListHead, s: seq<ListHead>, i: int)
    requires 0 <= i <= |s|
    reads At(head, s, i), At(head, s, i + 1)
  {
    At(head, s, i).next == At(head, s, i + 1) && At(head, s, i + 1).prev == At(head, s, i)
  }

  /** `head` is the head of a list with the entries s; next and prev are inverse. */
  ghost predicate IsList(head: ListHead, s: seq<ListHead>)
    reads head, set e | e in s
  {
    && Distinct(head, s)
    && forall i :: 0 <= i <= |s| ==> LinkedAt(head, s, i)
  }

  /** The nodes of a ring differ, and it closes at the head. */
  lemma RingApart(head: ListHead, s: seq<ListHead>)
    requires Distinct(head, s)
    ensures At(head, s, 0) == head && At(head, s, |s| + 1) == head
    ensures forall i, j :: 0 <= i < j <= |s| ==> At(head, s, i) != At(head, s, j)
  {
  }

  lemma NotOnRing(head: ListHead, s: seq<ListHead>, entry: ListHead)
    requires entry != head && entry !in s
    ensures forall i :: 0 <= i <= |s| + 1 ==> At(head, s, i) != entry
  {
  }

  /** The ring with one entry more: positions up to k stay, the others move on. */
  function Inserted(s: seq<ListHead>, k: nat, entry: ListHead): (t: seq<ListHead>)
    requires k <= |s|
    ensures |t| == |s| + 1
  {
    s[..k] + [entry] + s[k..]
  }

  lemma InsertedAt(head: ListHead, s: seq<ListHead>, k: nat, entry: ListHead, i: nat)
    requires k <= |s| && i <= |s| + 2
    ensures At(head, Inserted(s, k, entry), i) ==
            if i <= k then At(head, s, i) else if i == k + 1 then entry else At(head, s, i - 1)
  {
  }

  lemma InsertedDistinct(head: ListHead, s: seq<ListHead>, k: nat, entry: ListHead)
    requires k <= |s| && Distinct(head, s) && entry != head && entry !in s
    ensures Distinct(head, Inserted(s, k, entry))
  {
  }

  /** __hms_list_add: between the neighbours at positions k and k + 1 of the ring */
  method InsertBetween(entry: ListHead, before: ListHead, after: ListHead,
                       ghost head: ListHead, ghost s: seq<ListHead>, ghost k: nat)
    requires IsList(head, s) && entry != head && entry !in s
    requires k <= |s| && before == At(head, s, k) && after == At(head, s, k + 1)
    modifies entry, before, after
    ensures IsList(head, Inserted(s, k, entry))
  {
    hide Distinct, At, Inserted;
    RingApart(head, s);
    NotOnRing(head, s, entry);
    assert LinkedAt(head, s, k);
    after.prev := entry;
    entry.next := after;
    entry.prev := before;
    before.next := entry;
    ghost var t := Inserted(s, k, entry);
    InsertedDistinct(head, s, k, entry);
    forall i | 0 <= i <= |t|
      ensures LinkedAt(head, t, i)
    {
      InsertedAt(head, s, k, entry, i);
      InsertedAt(head, s, k, entry, i + 1);
      if i < k {
        assert old(LinkedAt(head, s, i));
      } else if i > k + 1 {
        assert old(LinkedAt(head, s, i - 1));
      }
    }
  }

  /** hms_list_add: behind the head */
  method Add(entry: ListHead, head: ListHead, ghost s: seq<ListHead>)
    requires IsList(head, s) && entry != head && entry !in s
    modifies entry, head, set e | e in s
    ensures IsList(head, [entry] + s)
  {
    assert LinkedAt(head, s, 0);
    InsertBetween(entry, head, head.next, head, s, 0);
    assert Inserted(s, 0, entry) == [entry] + s;
  }

  /** hms_list_add_tail: in front of the head */
  method AddTail(entry: ListHead, head: ListHead, ghost s: seq<ListHead>)
    requires IsList(head, s) && entry != head && entry !in s
    modifies entry, head, set e | e in s
    ensures IsList(head, s + [entry])
  {
    assert LinkedAt(head, s, |s|);
    InsertBetween(entry, head.prev, head, head, s, |s|);
    assert Inserted(s, |s|, entry) == s + [entry];
  }

  /** The ring with one entry less: positions up to k stay, the others move up. */
  function Removed(s: seq<ListHead>, k: nat): (t: seq<ListHead>)
    requires k < |s|
    ensures |t| == |s| - 1
  {
    s[..k] + s[k + 1..]
  }

  lemma RemovedAt(head: ListHead, s: seq<ListHead>, k: nat, i: nat)
    requires k < |s| && i <= |s|
    ensures At(head, Removed(s, k), i) == At(head, s, if i <= k then i else i + 1)
  {
  }

  lemma RemovedDistinct(head: ListHead, s: seq<ListHead>, k: nat)
    requires k < |s| && Distinct(head, s)
    ensures Distinct(head, Removed(s, k))
  {
    var t := Removed(s, k);
    assert forall i :: 0 <= i < |t| ==> t[i] == s[if i < k then i else i + 1];
  }

  lemma OnRing(head: ListHead, s: seq<ListHead>, i: nat)
    requires i <= |s| + 1
    ensures At(head, s, i) == head || At(head, s, i) in s
    ensures 1 <= i <= |s| ==> At(head, s, i) == s[i - 1]
  {
  }

  /** hms_list_del: the entry at position k leaves the list and keeps no pointers. */
  method Del(entry: ListHead, ghost head: ListHead, ghost s: seq<ListHead>, ghost k: nat)
    requires IsList(head, s) && k < |s| && entry == s[k]
    modifies head, set e | e in s
    ensures IsList(head, Removed(s, k))
    ensures entry.next == null && entry.prev == null
    ensures forall n :: n in s && n != entry && n != At(head, s, k) ==> n.next == old(n.next)
  {
    hide Distinct, At, Removed;
    RingApart(head, s);
    OnRing(head, s, k);
    OnRing(head, s, k + 1);
    OnRing(head, s, k + 2);
    assert LinkedAt(head, s, k) && LinkedAt(head, s, k + 1);
    var prev, next := entry.prev, entry.next;
    next.prev := prev;
    prev.next := next;
    entry.next := null;
    entry.prev := null;
    ghost var t := Removed(s, k);
    RemovedDistinct(head, s, k);
    forall i | 0 <= i <= |t|
      ensures LinkedAt(head, t, i)
    {
      RemovedAt(head, s, k, i);
      RemovedAt(head, s, k, i + 1);
      if i < k {
        assert old(LinkedAt(head, s, i));
      } else if i > k {
        assert old(LinkedAt(head, s, i + 1));
      }
    }
  }

  /** hms_list_empty */
  method IsEmpty(head: ListHead, ghost s: seq<ListHead>) returns (empty: bool)
    requires IsList(head, s)
    ensures empty <==> s == []
  {
    assert LinkedAt(head, s, 0);
    empty := head.next == head;
  }

  /** hms_list_splice: the entries of `list` go behind `head`, in front of its own. */
  method Splice(list: ListHead, head: ListHead, ghost s: seq<ListHead>, ghost t: seq<ListHead>)
    requires IsList(list, s) && IsList(head, t)
    requires list != head && list !in t && head !in s && forall n :: n in s ==> n !in t
    modifies head, (set e | e in s), (set e | e in t)
    ensures IsList(head, s + t)
  {
    assert LinkedAt(list, s, 0) && LinkedAt(list, s, |s|);
    assert LinkedAt(head, t, 0);
    if list.next == list {
      assert s == [] && s + t == t;
      return;
    }
    var first, last, at := list.next, list.prev, head.next;
    first.prev := head;
    head.next := first;
    last.next := at;
    at.prev := last;
    ghost var u := s + t;
    forall i, j | 0 <= i < j < |u|
      ensures u[i] != u[j]
    {
      if i < |s| <= j {
        assert u[i] in s && u[j] in t;
      }
    }
    forall i | 0 <= i <= |u|
      ensures LinkedAt(head, u, i)
    {
      if 0 < i < |s| {
        assert old(LinkedAt(list, s, i));
      } else if i > |s| {
        assert old(LinkedAt(head, t, i - |s|));
      }
    }
  }

  /** The indexed walk of hms_msg_get_header and hms_msg_del_header: the loop stops at
      entry number `index`. */
  method Nth(head: ListHead, index: nat, ghost s: seq<ListHead>) returns (pos: ListHead)
    requires IsList(head, s) && index < |s|
    ensures pos == s[index]
  {
    assert LinkedAt(head, s, 0);
    pos := head.next;
    var i := 0;
    while pos != head
      invariant i <= index && pos == At(head, s, i + 1)
      decreases |s| - i
    {
      if i == index {
        break;
      }
      assert LinkedAt(head, s, i + 1);
      i := i + 1;
      pos := pos.next;
    }
  }

  /** The loop of hms_msg_destroy over hms_list_for_each_entry_safe: every entry is
      deleted, each one once and in order, and the list is empty at the end. */
  method DeleteAll(head: ListHead, ghost s: seq<ListHead>) returns (count: nat, ghost visited: seq<ListHead>)
    requires IsList(head, s)
    modifies head, set e | e in s
    ensures IsList(head, []) && visited == s && count == |s|
  {
    hide IsList;
    FirstTwo(head, s);
    var pos := head.next;
    var n := pos.next;
    count, visited := 0, [];
    ghost var left := s;
    while pos != head
      invariant visited + left == s && count == |visited| && (forall e :: e in left ==> e in s)
      invariant IsList(head, left)
      invariant pos == At(head, left, 1)
      invariant left != [] ==> n == At(head, left, 2)
      decreases |left|
    {
      FirstTwo(head, left);
      var after := DeleteFirst(pos, n, head, left);
      visited, left, count := visited + [pos], left[1..], count + 1;
      pos := n;
      n := after;
    }
    FirstTwo(head, left);
  }

  lemma FirstTwo(head: ListHead, s: seq<ListHead>)
    requires IsList(head, s)
    ensures head.next == At(head, s, 1) && (head.next == head <==> s == [])
    ensures s != [] ==> s[0].next == At(head, s, 2)
    ensures s == [] ==> head.next.next == head
  {
    assert LinkedAt(head, s, 0);
    assert s != [] ==> LinkedAt(head, s, 1);
  }

  /** The body of that loop and the step to the next two entries */
  method DeleteFirst(pos: ListHead, n: ListHead, head: ListHead, ghost s: seq<ListHead>) returns (after: ListHead)
    requires IsList(head, s) && s != [] && pos == s[0] && n == At(head, s, 2)
    modifies head, set e | e in s
    ensures IsList(head, s[1..])
    ensures |s| > 1 ==> after == At(head, s[1..], 2)
  {
    Del(pos, head, s, 0);
    assert Removed(s, 0) == s[1..];
    ghost var t := s[1..];
    assert LinkedAt(head, t, 0) && (t != [] ==> LinkedAt(head, t, 1));
    after := n.next;
  }
}
