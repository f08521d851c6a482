/**
 The intrusive circular doubly linked list of list.h.

 A `ListHead` is the `struct list_head` embedded in every queued object, and also the head of a
 list.  `Ring(head, s)` says that the list at `head` holds exactly the entries `s`, first to last:
 following `next` from the head visits `s` and comes back, and `prev` is the inverse of `next`.
 Every operation is proved against that sequence.
 */
module Lists {
  import opened Sequences

  class ListHead {
    var next: ListHead
    var prev: ListHead

    /** INIT_LIST_HEAD, list.h:12-15. */
    constructor ()
      ensures next == this && prev == this
      ensures Ring(this, [])
    {
      next := this;
      prev := this;
    }
  }

  /** The entry at index `k`; the head stands at -1 and at |s|. */
  ghost function At(head: ListHead, s: seq<ListHead>, k: int): ListHead {
    if 0 <= k < |s| then s[k] else head
  }

  /** `next` and `prev` agree between the entries at `k` and `k + 1`. */
  ghost predicate Linked(head: ListHead, s: seq<ListHead>, k: int)
    reads head, s
  {
    At(head, s, k).next == At(head, s, k + 1) && At(head, s, k + 1).prev == At(head, s, k)
  }

  ghost predicate Ring(head: ListHead, s: seq<ListHead>)
    reads head, s
  {
    && head !in s
    && Distinct(s)
    && forall k :: -1 <= k < |s| ==> Linked(head, s, k)
  }

  /** Two rings with no node in common. */
  ghost predicate Apart(a: ListHead, s: seq<ListHead>, b: ListHead, t: seq<ListHead>) {
    a != b && b !in s && a !in t && forall x :: x in s ==> x !in t
  }

  lemma AtDisjoint(a: ListHead, s: seq<ListHead>, b: ListHead, t: seq<ListHead>)
    requires Apart(a, s, b, t)
    ensures forall i, j :: At(a, s, i) != At(b, t, j)
  {
    forall i, j ensures At(a, s, i) != At(b, t, j) {
      assert At(a, s, i) == a || At(a, s, i) in s;
      assert At(b, t, j) == b || At(b, t, j) in t;
    }
  }

  /** list.h:7-10 */
  method ListEmpty(head: ListHead, ghost s: seq<ListHead>) returns (empty: bool)
    requires Ring(head, s)
    ensures empty <==> s == []
  {
    assert Linked(head, s, -1);
    empty := head.next == head;
  }

  /** list.h:17-23: the new entry becomes the first. */
  method ListAdd(entry: ListHead, head: ListHead, ghost s: seq<ListHead>)
    requires Ring(head, s) && entry != head && entry !in s
    modifies entry, head, head.next
    ensures Ring(head, [entry] + s)
  {
    assert Linked(head, s, -1);
    entry.prev := head;
    entry.next := head.next;
    entry.prev.next := entry;
    entry.next.prev := entry;
    ghost var t := [entry] + s;
    forall k | -1 <= k < |t| ensures Linked(head, t, k) {
      if k >= 1 {
        assert old(Linked(head, s, k - 1));
      }
    }
  }

  /** list.h:25-29: exactly the entry at index `k` leaves, and it keeps its own two pointers. */
  method ListDel(entry: ListHead, ghost head: ListHead, ghost s: seq<ListHead>, ghost k: nat)
    requires Ring(head, s) && k < |s| && s[k] == entry
    modifies entry.prev, entry.next
    ensures Ring(head, s[..k] + s[k + 1..])
    ensures entry.next == old(entry.next) && entry.prev == old(entry.prev)
  {
    assert Linked(head, s, k - 1) && Linked(head, s, k);
    entry.prev.next := entry.next;
    entry.next.prev := entry.prev;
    ghost var t := s[..k] + s[k + 1..];
    forall i | -1 <= i < |t| ensures Linked(head, t, i) {
      assert old(Linked(head, s, if i < k then i else i + 1));
    }
  }

  method ListFirstEntry(head: ListHead, ghost s: seq<ListHead>) returns (e: ListHead)
    requires Ring(head, s)
    ensures e == At(head, s, 0)
  {
    assert Linked(head, s, -1);
    e := head.next;
  }

  method ListLastEntry(head: ListHead, ghost s: seq<ListHead>) returns (e: ListHead)
    requires Ring(head, s)
    ensures e == At(head, s, |s| - 1)
  {
    assert Linked(head, s, |s| - 1);
    e := head.prev;
  }

  /** list_for_each_entry, list.h:50-53: it stops after visiting every entry once, in order. */
  method ListForEach(head: ListHead, ghost s: seq<ListHead>) returns (visited: seq<ListHead>)
    requires Ring(head, s)
    ensures visited == s
  {
    visited := [];
    var pos := ListFirstEntry(head, s);
    while pos != head
      invariant |visited| <= |s| && visited == s[..|visited|]
      invariant pos == At(head, s, |visited|)
      decreases |s| - |visited|
    {
      assert Linked(head, s, |visited|);
      visited := visited + [pos];
      pos := pos.next;
    }
  }

  /**
   list_for_each_entry_safe with `list_del` of the current entry, the loop of arp.c:96-102: it visits
   every entry once, in order, and leaves the list empty.
   */
  method ListDrain(head: ListHead, ghost s: seq<ListHead>) returns (visited: seq<ListHead>)
    requires Ring(head, s)
    modifies head, s
    ensures visited == s
    ensures Ring(head, [])
  {
    visited := [];
    ghost var n := 0;
    var pos := ListFirstEntry(head, s);
    assert Linked(head, s, 0) || pos == head;
    var tmp := pos.next;
    while pos != head
      invariant n <= |s| && visited == s[..n]
      invariant Ring(head, s[n..])
      invariant pos == At(head, s[n..], 0) && tmp == pos.next
      decreases |s| - n
    {
      ghost var rest := s[n..];
      assert Linked(head, rest, -1) && Linked(head, rest, 0);
      ListDel(pos, head, rest, 0);
      assert rest[..0] + rest[1..] == s[n + 1..];
      visited := visited + [pos];
      n := n + 1;
      pos := tmp;
      tmp := tmp.next;
    }
  }

  /** The receive queues: entries are prepended and taken from the tail, tcp.c:295-303 and udp.c:96-108. */
  method ListTakeLast(head: ListHead, ghost s: seq<ListHead>) returns (e: ListHead)
    requires Ring(head, s) && s != []
    modifies head, s
    ensures e == s[|s| - 1]
    ensures Ring(head, s[..|s| - 1])
  {
    e := ListLastEntry(head, s);
    assert Linked(head, s, |s| - 2) && Linked(head, s, |s| - 1);
    ListDel(e, head, s, |s| - 1);
    assert s[..|s| - 1] + s[|s|..] == s[..|s| - 1];
  }

  /** tcp.c:102-103: a connection leaves one list of its socket and becomes the first of the other. */
  method ListMove(entry: ListHead, ghost from: ListHead, ghost s: seq<ListHead>, ghost k: nat,
                  to: ListHead, ghost t: seq<ListHead>)
    requires Ring(from, s) && Ring(to, t) && k < |s| && s[k] == entry
    requires Apart(from, s, to, t)
    modifies from, s, to, t
    ensures Ring(from, s[..k] + s[k + 1..])
    ensures Ring(to, [entry] + t)
  {
    ghost var u := s[..k] + s[k + 1..];
    AtDisjoint(from, s, to, t);
    AtDisjoint(from, u, to, [entry] + t);
    assert Linked(from, s, k - 1) && Linked(from, s, k);
    ListDel(entry, from, s, k);
    forall i | -1 <= i < |t| ensures Linked(to, t, i) {
      assert old(Linked(to, t, i));
    }
    assert Linked(to, t, -1);
    assert to == At(to, [entry] + t, -1) && entry == At(to, [entry] + t, 0) && to.next == At(to, [entry] + t, 1);
    label deleted:
    ListAdd(entry, to, t);
    forall i | -1 <= i < |u| ensures Linked(from, u, i) {
      assert old@deleted(Linked(from, u, i));
    }
  }
}
