/**
 The packet buffer of skbuff.h: one allocation of `end` bytes with the packet between `data` and
 `tail`.  Pointers are offsets from `skb->head`.  The assertions of the source are the preconditions
 here, so a caller that verifies never trips one.
 */
module SkBuffs {
  import opened Bytes

  class SkBuff {
    const head: array<u8>
    var data: nat
    var tail: nat
    var len: nat

    predicate Valid()
      reads this
    {
      data <= tail <= head.Length && len == tail - data
    }

    /** The packet. */
    function Contents(): (c: bytes)
      reads this, head
      requires Valid()
      ensures |c| == len
    {
      head[data..tail]
    }

    /** skbuff.h:29-36: calloc, so every byte is zero. */
    constructor Alloc(size: nat)
      ensures Valid() && fresh(head) && head.Length == size
      ensures data == tail == len == 0
      ensures head[..] == Zeros(size)
    {
      head := new u8[size](_ => 0);
      data := 0;
      tail := 0;
      len := 0;
    }

    /** skbuff.h:43-48 */
    method Reserve(size: nat)
      requires Valid() && tail + size <= head.Length
      modifies this
      ensures Valid() && data == old(data) + size && tail == old(tail) + size && len == old(len)
    {
      data := data + size;
      tail := tail + size;
    }

    /** skbuff.h:50-56: the packet grows at the front, by whatever lay in the headroom. */
    method Push(size: nat) returns (hdr: nat)
      requires Valid() && size <= data
      modifies this
      ensures Valid() && hdr == data == old(data) - size && tail == old(tail)
      ensures Contents() == head[data..data + size] + old(Contents())
    {
      data := data - size;
      len := len + size;
      hdr := data;
    }

    /** skbuff.h:58-64 */
    method Pull(size: nat)
      requires Valid() && size <= len
      modifies this
      ensures Valid() && data == old(data) + size && tail == old(tail)
      ensures Contents() == old(Contents())[size..]
    {
      data := data + size;
      len := len - size;
    }

    /** skbuff.h:66-73: the packet grows at the back, by whatever lay in the tailroom. */
    method Put(size: nat) returns (old_tail: nat)
      requires Valid() && tail + size <= head.Length
      modifies this
      ensures Valid() && old_tail == old(tail) && tail == old(tail) + size && data == old(data)
      ensures Contents() == old(Contents()) + head[old(tail)..tail]
    {
      old_tail := tail;
      tail := tail + size;
      len := len + size;
    }

    /** A store into the buffer: a header field, or memcpy. */
    method Write(at: nat, src: bytes)
      requires at + |src| <= head.Length
      modifies head
      ensures forall i :: at <= i < at + |src| ==> head[i] == src[i - at]
      ensures forall i :: 0 <= i < head.Length && !(at <= i < at + |src|) ==> head[i] == old(head[i])
      ensures Valid() && data <= at && at + |src| <= tail ==> Contents() == Splice(old(Contents()), at - data, src)
    {
      forall i | 0 <= i < |src| {
        head[at + i] := src[i];
      }
    }
  }
}
