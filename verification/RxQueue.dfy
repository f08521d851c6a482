/**
 The receive queue of a connection as the code keeps it: packet buffers on an intrusive ring, added at
 the head by `list_add`, tcp.c:120, and read in place from the tail, tcp.c:293-305.  It does what
 `T.ReadOldest` says on the sequence `rx`, on which the stream theorems rest.
 */
module RxQueues {
  import opened Bytes
  import opened Sequences
  import opened Lists
  import opened SkBuffs
  import T = Tcp

  /** The packet buffer in which a list_head is embedded, and its number. */
  datatype Skb = Skb(buff: SkBuff, id: nat)

  class RxQueue {
    const head: ListHead
    /** The entries of the ring, newest first. */
    ghost var entries: seq<ListHead>
    /** container_of. */
    var container: map<ListHead, Skb>

    constructor ()
      ensures Valid() && Rx() == [] && fresh(head)
    {
      head := new ListHead();
      entries, container := [], map[];
    }

    ghost function Skbs(): set<SkBuff>
      reads this
    {
      set e | e in entries && e in container :: container[e].buff
    }

    ghost function Heads(): set<array<u8>>
      reads this, Skbs()
    {
      set s | s in Skbs() :: s.head
    }

    ghost predicate Valid()
      reads this, head, entries, Skbs(), Heads()
    {
      && Ring(head, entries)
      && (forall e :: e in entries ==> e in container && container[e].buff.Valid())
      && (forall e, f :: e in entries && f in entries && e != f ==> container[e].buff != container[f].buff)
    }

    ghost function Rx(): (rx: seq<T.RxBuf>)
      reads this, head, entries, Skbs(), Heads()
      requires Valid()
      ensures |rx| == |entries|
    {
      seq(|entries|, i requires 0 <= i < |entries| reads this, head, entries, Skbs(), Heads() requires Valid() =>
        T.RxBuf(container[entries[i]].id, container[entries[i]].buff.Contents()))
    }

    /** tcp.c:118-120 after the pull: list_add of the buffer. */
    method Queue(entry: ListHead, skb: SkBuff, id: nat)
      requires Valid() && skb.Valid() && entry != head && entry !in entries && skb !in Skbs()
      modifies this, entry, head, head.next
      ensures Valid() && entries == [entry] + old(entries)
      ensures Rx() == [T.RxBuf(id, skb.Contents())] + old(Rx())
    {
      hide Ring, Linked, Distinct;
      ListAdd(entry, head, entries);
      entries := [entry] + entries;
      container := container[entry := Skb(skb, id)];
      assert Rx()[1..] == old(Rx());
    }

    /** tcp.c:295-300: copy from the oldest buffer and pull what was copied. */
    method PullOldest(size: nat) returns (data: bytes, left: nat)
      requires Valid() && entries != []
      modifies Skbs()
      ensures Valid()
      ensures var k := |entries| - 1;
              var all := old(Rx())[k].data;
              && data == all[..Min(|all|, size)] && left == |all| - |data|
              && Rx() == old(Rx())[k := old(Rx())[k].(data := all[|data|..])]
    {
      ghost var before, k := Rx(), |entries| - 1;
      var e := ListLastEntry(head, entries);
      var skb := container[e].buff;
      var final_size := Min(skb.len, size);
      ghost var all := skb.Contents();
      data := skb.Contents()[..final_size];
      assert before[k] == T.RxBuf(container[e].id, all);
      skb.Pull(final_size);
      left := skb.len;
      assert skb.Contents() == all[final_size..];
      assert Rx() == before[k := before[k].(data := skb.Contents())];
    }

    /** tcp.c:301-304: list_del of the oldest buffer. */
    method DropOldest() returns (id: nat)
      requires Valid() && entries != []
      modifies this`entries, head, entries
      ensures Valid()
      ensures id == old(Rx())[|old(entries)| - 1].id && Rx() == old(Rx())[..|old(entries)| - 1]
    {
      hide Linked;
      var e := ListTakeLast(head, entries);
      entries := entries[..|entries| - 1];
      id := container[e].id;
    }

    /** tcp.c:293-305: a read from the oldest buffer, which leaves the ring when it is used up. */
    method ReadOldest(size: nat, ghost c: T.Conn) returns (data: bytes, freed: Option<nat>)
      requires Valid() && entries != [] && c.rx == Rx()
      modifies this`entries, head, entries, Skbs()
      ensures Valid()
      ensures T.ReadOldest(c, size) == (c.(rx := Rx()), data, freed)
    {
      hide Ring, Distinct, T.ReadOldest;
      var left;
      data, left := PullOldest(size);
      freed := None;
      if left == 0 {
        var id := DropOldest();
        freed := Some(id);
      }
      ReadInTwoSteps(c, size);
    }
  }

  /** The read on values: shorten the oldest buffer, and drop it if nothing is left. */
  lemma ReadInTwoSteps(c: T.Conn, size: nat)
    requires c.rx != []
    ensures var k := |c.rx| - 1;
            var all := c.rx[k].data;
            var n := Min(|all|, size);
            var shorter := c.rx[k := c.rx[k].(data := all[n..])];
            T.ReadOldest(c, size)
            == if |all| - n == 0 then (c.(rx := shorter[..k]), all[..n], Some(shorter[k].id))
               else (c.(rx := shorter), all[..n], None)
  {
    assert c.rx[|c.rx| - 1 := c.rx[|c.rx| - 1].(data := [])][..|c.rx| - 1] == c.rx[..|c.rx| - 1];
  }
}
