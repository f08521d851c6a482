/**
 ARP resolution and the packets held for it: arp.c, and the ARP half of `ip_postroute`, ip.c:92-115.

 The functions on sequences of entries say what each operation does to a node's table and which
 frames leave; class `ArpTable` is the code, entries mutated in place and searched by loops.
 */
module Arp {
  import opened Bytes
  import opened Wire
  import opened Nodes
  import opened Sequences

  /** An `sk_buff` that IP hands down: its output interface and its IP packet. */
  datatype Packet = Packet(id: nat, intf: nat, data: bytes)

  datatype Entry = Entry(ip: u32, mac: Mac, intf: nat, resolved: bool, pending: seq<Packet>)

  const NO_MAC: Mac := [0, 0, 0, 0, 0, 0]

  // ---------------------------------------------------------------- what goes out

  /** A call of `ethernet_output`: a routed packet, send_arp_broadcast_request, or send_arp_reply_msg. */
  datatype Output =
    | Data(p: Packet, mac: Mac)
    | Request(intf: nat, target: u32)
    | Reply(intf: nat, targetHw: Mac, targetProto: u32)

  function Frame(cfg: Config, o: Output): bytes {
    match o
    case Data(p, mac) => EthFrame(mac, cfg(p.intf).mac, ETH_PROTO_IP, p.data)
    case Request(i, target) =>
      EthFrame(BROADCAST, cfg(i).mac, ETH_PROTO_ARP,
               ArpPacket(ARP_OP_REQUEST, cfg(i).mac, cfg(i).ip, NO_MAC, target))
    case Reply(i, hw, proto) =>
      EthFrame(hw, cfg(i).mac, ETH_PROTO_ARP,
               ArpPacket(ARP_OP_REPLY, cfg(i).mac, cfg(i).ip, hw, proto))
  }

  /** Every packet of a list to the same MAC address, in list order. */
  function DataTo(ps: seq<Packet>, mac: Mac): (s: seq<Output>)
    ensures |s| == |ps|
  {
    seq(|ps|, i requires 0 <= i < |ps| => Data(ps[i], mac))
  }

  // ---------------------------------------------------------------- the operations on a table

  /** arp_table_lookup, arp.c:105-113: the index of the first entry for `ip`, or the length. */
  function Find(table: seq<Entry>, ip: u32): (i: nat)
    ensures i <= |table|
    ensures i < |table| ==> table[i].ip == ip
    ensures forall j :: 0 <= j < i ==> table[j].ip != ip
  {
    if table == [] || table[0].ip == ip then 0 else 1 + Find(table[1..], ip)
  }

  /** The table once it has an entry for `target`, ip.c:104-108. */
  function Ensured(table: seq<Entry>, target: u32, intf: nat): (t: seq<Entry>)
    ensures Find(t, target) < |t|
  {
    if Find(table, target) < |table| then table
    else [Entry(target, NO_MAC, intf, false, [])] + table
  }

  /** The table after an operation, and what it sent. */
  datatype Outcome = Outcome(table: seq<Entry>, sent: seq<Output>)

  /** ip_postroute with a routed packet, ip.c:92-115. */
  function Postroute(table: seq<Entry>, target: u32, p: Packet): Outcome {
    var t := Ensured(table, target, p.intf);
    var i := Find(t, target);
    if t[i].resolved then Outcome(t, [Data(p, t[i].mac)])
    else Outcome(t[i := t[i].(pending := [p] + t[i].pending)], [Request(p.intf, target)])
  }

  /** arp_table_update_from_arp_reply, arp.c:83-103. */
  function UpdateFromReply(table: seq<Entry>, ip: u32, mac: Mac): Outcome {
    var i := Find(table, ip);
    if i == |table| then Outcome(table, [])
    else Outcome(table[i := table[i].(resolved := true, mac := mac, pending := [])],
                 DataTo(table[i].pending, mac))
  }

  // ---------------------------------------------------------------- receiving

  function Opcode(p: bytes): u16 requires |p| >= 28 { Load16(p, 6) }
  function SenderHw(p: bytes): Mac requires |p| >= 28 { p[8..14] }
  function SenderProto(p: bytes): u32 requires |p| >= 28 { Load32(p, 14) }
  function TargetProto(p: bytes): u32 requires |p| >= 28 { Load32(p, 24) }

  /** arp_input, arp.c:8-25, on the bytes after the Ethernet header; `true` means the buffer was consumed. */
  function Input(cfg: Config, table: seq<Entry>, intf: nat, p: bytes): (r: (Outcome, bool)) {
    if |p| < 28 then (Outcome(table, []), false)
    else if Opcode(p) == Htons(ARP_OP_REQUEST) then
      if cfg(intf).ip != TargetProto(p) then (Outcome(table, []), false)
      else (Outcome(table, [Reply(intf, SenderHw(p), SenderProto(p))]), true)
    else if Opcode(p) == Htons(ARP_OP_REPLY) then
      (UpdateFromReply(table, SenderProto(p), SenderHw(p)), true)
    else (Outcome(table, []), false)
  }

  // ---------------------------------------------------------------- the code

  class ArpEntry {
    var ip: u32
    var mac: Mac
    var intf: nat
    var resolved: bool
    var pending: seq<Packet>

    /** calloc and init_arp_entry, arp.c:123-131. */
    constructor (ip: u32, intf: nat)
      ensures Model() == Entry(ip, NO_MAC, intf, false, [])
    {
      this.ip := ip;
      mac := NO_MAC;
      this.intf := intf;
      resolved := false;
      pending := [];
    }

    function Model(): Entry
      reads this
    {
      Entry(ip, mac, intf, resolved, pending)
    }

    /** arp.c:94-102: the held packets leave one by one, from the head of the list. */
    method Flush() returns (sent: seq<Output>)
      modifies this`pending
      ensures pending == [] && sent == DataTo(old(pending), mac)
    {
      ghost var held := pending;
      sent := [];
      while pending != []
        invariant |sent| <= |held| && pending == held[|sent|..]
        invariant sent == DataTo(held[..|sent|], mac)
        decreases |pending|
      {
        var skb := pending[0];
        pending := pending[1..];
        sent := sent + [Data(skb, mac)];
      }
    }
  }

  class ArpTable {
    var entries: seq<ArpEntry>

    constructor ()
      ensures Valid() && Model() == []
    {
      entries := [];
    }

    ghost predicate Valid()
      reads this
    {
      Distinct(entries)
    }

    ghost function Model(): (m: seq<Entry>)
      reads this, entries
      ensures |m| == |entries|
    {
      seq(|entries|, i requires 0 <= i < |entries| reads this, entries => entries[i].Model())
    }

    /** arp.c:105-113 */
    method Lookup(ip: u32) returns (i: nat)
      requires Valid()
      ensures i == Find(Model(), ip)
    {
      i := 0;
      while i < |entries|
        invariant i <= |entries|
        invariant forall j :: 0 <= j < i ==> entries[j].ip != ip
      {
        if entries[i].ip == ip {
          break;
        }
        i := i + 1;
      }
      FindUnique(Model(), ip, i);
    }

    /** ip.c:102-109: find the entry or create it. */
    method EnsureEntry(target: u32, intf: nat) returns (i: nat)
      requires Valid()
      modifies this
      ensures Valid() && fresh(set e | e in entries && e !in old(entries))
      ensures Model() == Ensured(old(Model()), target, intf) && i == Find(Model(), target) < |entries|
    {
      ghost var before := Model();
      i := Lookup(target);
      if i == |entries| {
        var entry := new ArpEntry(target, intf);
        entries := [entry] + entries;
        i := 0;
        assert Model() == [entry.Model()] + before;
      }
    }

    /** ip.c:102-115: with the entry, hold the packet or send it. */
    method PostrouteTo(target: u32, p: Packet) returns (sent: seq<Output>)
      requires Valid()
      modifies this, entries
      ensures Valid() && fresh(set e | e in entries && e !in old(entries))
      ensures Postroute(old(Model()), target, p) == Outcome(Model(), sent)
    {
      hide Ensured, Find;
      var i := EnsureEntry(target, p.intf);
      ghost var t := Model();
      var entry := entries[i];
      if !entry.resolved {
        entry.pending := [p] + entry.pending;
        sent := [Request(p.intf, target)];
        assert Model() == t[i := t[i].(pending := [p] + t[i].pending)];
      } else {
        sent := [Data(p, entry.mac)];
      }
    }

    /** arp.c:83-103 */
    method UpdateFromArpReply(ip: u32, mac: Mac) returns (sent: seq<Output>)
      requires Valid()
      modifies entries
      ensures Valid() && entries == old(entries)
      ensures UpdateFromReply(old(Model()), ip, mac) == Outcome(Model(), sent)
    {
      ghost var before := Model();
      var i := Lookup(ip);
      sent := [];
      if i < |entries| {
        var entry := entries[i];
        assert entry.pending == before[i].pending;
        entry.resolved := true;
        entry.mac := mac;
        sent := entry.Flush();
        assert Model() == before[i := before[i].(resolved := true, mac := mac, pending := [])];
      }
    }

    /** arp.c:8-25 with process_arp_broadcast_request and process_arp_reply_msg. */
    method ArpInput(cfg: Config, intf: nat, p: bytes) returns (sent: seq<Output>, ok: bool)
      requires Valid()
      modifies entries
      ensures Valid() && entries == old(entries)
      ensures Input(cfg, old(Model()), intf, p) == (Outcome(Model(), sent), ok)
    {
      sent, ok := [], false;
      if |p| < 28 {
        return;
      }
      if Opcode(p) == Htons(ARP_OP_REQUEST) {
        if cfg(intf).ip == TargetProto(p) {
          sent, ok := [Reply(intf, SenderHw(p), SenderProto(p))], true;
        }
      } else if Opcode(p) == Htons(ARP_OP_REPLY) {
        sent := UpdateFromArpReply(SenderProto(p), SenderHw(p));
        ok := true;
      }
    }
  }

  lemma {:induction false} FindUnique(table: seq<Entry>, ip: u32, i: nat)
    requires i <= |table| && (i < |table| ==> table[i].ip == ip)
    requires forall j :: 0 <= j < i ==> table[j].ip != ip
    ensures Find(table, ip) == i
  {
    var k := Find(table, ip);
  }
}
