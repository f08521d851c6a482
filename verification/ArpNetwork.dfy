/**
 The network-wide ARP invariant.

 Any number of nodes run the code of module `Arp` on a wire that keeps every frame ever sent and
 may hand any of them to any interface, any number of times, in any order, or never: loss,
 duplication, reordering and arbitrary cabling at once.  The wire carries byte frames; nodes parse
 them.  Interface addresses stay fixed, and table entries come only from `ip_postroute`.
 */
module ArpNetwork {
  import opened Bytes
  import opened Wire
  import opened Nodes
  import opened Arp

  datatype Network = Network(tables: map<nat, seq<Entry>>, wire: set<bytes>)

  datatype Event =
    | Post(node: nat, target: u32, p: Packet)     // IP routed a packet on this node
    | Deliver(intf: nat, frame: bytes)            // a frame from the wire reaches an interface

  function TableOf(net: Network, node: nat): seq<Entry> {
    if node in net.tables then net.tables[node] else []
  }

  /** pkt_receive, comm.c:80-89, and ethernet_input, ethernet.c:9-38, for ARP frames. */
  predicate ReachesArp(cfg: Config, intf: nat, f: bytes) {
    && cfg(intf).configured && |f| >= 14
    && (f[0..6] == cfg(intf).mac || f[0..6] == BROADCAST)
    && Load16(f, 12) == Htons(ETH_PROTO_ARP)
  }

  function Frames(cfg: Config, sent: seq<Output>): set<bytes> {
    set o | o in sent :: Frame(cfg, o)
  }

  function Commit(cfg: Config, net: Network, node: nat, o: Outcome): Network {
    Network(net.tables[node := o.table], net.wire + Frames(cfg, o.sent))
  }

  function Step(cfg: Config, net: Network, e: Event): Network {
    match e
    case Post(node, target, p) => Commit(cfg, net, node, Postroute(TableOf(net, node), target, p))
    case Deliver(intf, f) =>
      if f in net.wire && ReachesArp(cfg, intf, f) then
        var node := cfg(intf).node;
        Commit(cfg, net, node, Input(cfg, TableOf(net, node), intf, f[14..]).0)
      else net
  }

  function Run(cfg: Config, events: seq<Event>): Network {
    if events == [] then Network(map[], {})
    else Step(cfg, Run(cfg, events[..|events| - 1]), events[|events| - 1])
  }

  /** Some interface of the network has this IP and this MAC address. */
  ghost predicate Owned(cfg: Config, ip: u32, mac: Mac) {
    exists i: nat :: cfg(i).ip == ip && cfg(i).mac == mac
  }

  /** A frame that any node would take for an ARP reply. */
  predicate IsReply(f: bytes) {
    |f| >= 42 && Load16(f, 12) == Htons(ETH_PROTO_ARP) && Opcode(f[14..]) == Htons(ARP_OP_REPLY)
  }

  ghost predicate HonestReply(cfg: Config, f: bytes) {
    IsReply(f) ==> Owned(cfg, SenderProto(f[14..]), SenderHw(f[14..]))
  }

  ghost predicate TableAgrees(cfg: Config, table: seq<Entry>) {
    forall i :: 0 <= i < |table| && table[i].resolved ==> Owned(cfg, table[i].ip, table[i].mac)
  }

  // ---------------------------------------------------------------- frames read back

  lemma FrameType(dst: Mac, src: Mac, proto: u16, payload: bytes)
    ensures Load16(EthFrame(dst, src, proto, payload), 12) == Htons(proto)
    ensures EthFrame(dst, src, proto, payload)[0..6] == dst
  {
    hide Htons, Load16;
    var f := EthFrame(dst, src, proto, payload);
    assert f[12..14] == Net16(proto);
    LoadStore16(Htons(proto));
    Same16(f, 12, Net16(proto));
  }

  lemma Same16(b: bytes, i: nat, w: bytes)
    requires i + 2 <= |b| && b[i..i + 2] == w
    ensures Load16(b, i) == Load16(w, 0)
  {
    assert w[0] == b[i] && w[1] == b[i + 1];
  }

  /** An ARP packet, with whatever padding follows, gives back its fields. */
  lemma ArpRoundTrip(op: u16, hw: Mac, proto: u32, thw: Mac, tproto: u32, pad: bytes)
    ensures var p := ArpPacket(op, hw, proto, thw, tproto) + pad;
            && Opcode(p) == Htons(op) && SenderHw(p) == hw && SenderProto(p) == proto && TargetProto(p) == tproto
  {
    hide Htons, Load16, Load32, Store16, Store32;
    var p := ArpPacket(op, hw, proto, thw, tproto) + pad;
    assert p[6..8] == Net16(op);
    LoadStore16(Htons(op));
    Same16(p, 6, Net16(op));
    assert p[14..18] == Store32(proto);
    LoadStore32(proto);
    SameBytesSameWord(p, 14, Store32(proto));
    assert p[24..28] == Store32(tproto);
    LoadStore32(tproto);
    SameBytesSameWord(p, 24, Store32(tproto));
  }

  /** Taking the Ethernet header off a frame leaves the payload and the padding. */
  lemma FramePayload(dst: Mac, src: Mac, proto: u16, payload: bytes)
    ensures var f := EthFrame(dst, src, proto, payload);
            f[14..] == payload + f[14 + |payload|..]
  {
    hide EthHeader;
  }

  // ---------------------------------------------------------------- the invariant

  ghost predicate Agreement(cfg: Config, net: Network) {
    && (forall f :: f in net.wire ==> HonestReply(cfg, f))
    && (forall node :: node in net.tables ==> TableAgrees(cfg, net.tables[node]))
  }

  lemma CommitKeepsAgreement(cfg: Config, net: Network, node: nat, o: Outcome)
    requires Agreement(cfg, net) && TableAgrees(cfg, o.table)
    ensures Agreement(cfg, Commit(cfg, net, node, o))
  {
    hide EthFrame, ArpPacket, Load16, Load32, Htons, TableAgrees;
    // every frame sent is honest: only the sender's own pair of addresses goes into a reply
    forall f | f in Frames(cfg, o.sent) ensures HonestReply(cfg, f) {
      var out :| out in o.sent && Frame(cfg, out) == f;
      HtonsDistinct();
      match out
      case Data(p, mac) =>
        FrameType(mac, cfg(p.intf).mac, ETH_PROTO_IP, p.data);
      case Request(i, target) =>
        FramePayload(BROADCAST, cfg(i).mac, ETH_PROTO_ARP, ArpPacket(ARP_OP_REQUEST, cfg(i).mac, cfg(i).ip, NO_MAC, target));
        ArpRoundTrip(ARP_OP_REQUEST, cfg(i).mac, cfg(i).ip, NO_MAC, target, f[42..]);
      case Reply(i, hw, proto) =>
        FramePayload(hw, cfg(i).mac, ETH_PROTO_ARP, ArpPacket(ARP_OP_REPLY, cfg(i).mac, cfg(i).ip, hw, proto));
        ArpRoundTrip(ARP_OP_REPLY, cfg(i).mac, cfg(i).ip, hw, proto, f[42..]);
        assert Owned(cfg, cfg(i).ip, cfg(i).mac);
    }
  }

  lemma PostKeepsTable(cfg: Config, table: seq<Entry>, target: u32, p: Packet)
    requires TableAgrees(cfg, table)
    ensures TableAgrees(cfg, Postroute(table, target, p).table)
  {
  }

  lemma DeliverKeepsTable(cfg: Config, table: seq<Entry>, intf: nat, f: bytes)
    requires TableAgrees(cfg, table) && ReachesArp(cfg, intf, f) && HonestReply(cfg, f)
    ensures TableAgrees(cfg, Input(cfg, table, intf, f[14..]).0.table)
  {
    hide Load16, Load32, Htons, Owned;
    if |f| >= 42 && IsReply(f) {
      assert Owned(cfg, SenderProto(f[14..]), SenderHw(f[14..]));
    }
  }

  /** In every run, every resolved entry on every node names an interface that owns that address pair. */
  lemma {:induction false} NetworkAgreement(cfg: Config, events: seq<Event>)
    ensures Agreement(cfg, Run(cfg, events))
  {
    hide HonestReply, TableAgrees, Input, Postroute;
    if events != [] {
      var net, e := Run(cfg, events[..|events| - 1]), events[|events| - 1];
      NetworkAgreement(cfg, events[..|events| - 1]);
      EmptyTableAgrees(cfg);
      match e
      case Post(node, target, p) =>
        PostKeepsTable(cfg, TableOf(net, node), target, p);
        CommitKeepsAgreement(cfg, net, node, Postroute(TableOf(net, node), target, p));
      case Deliver(intf, f) =>
        if f in net.wire && ReachesArp(cfg, intf, f) {
          var node := cfg(intf).node;
          DeliverKeepsTable(cfg, TableOf(net, node), intf, f);
          CommitKeepsAgreement(cfg, net, node, Input(cfg, TableOf(net, node), intf, f[14..]).0);
        }
    }
  }

  lemma EmptyTableAgrees(cfg: Config)
    ensures TableAgrees(cfg, [])
  {
  }

  // ---------------------------------------------------------------- resolution completes

  /**
   One round trip: the request for a next hop reaches the interface that has the address, its reply
   comes back, and the asker's entry resolves to that interface's MAC and lets go of exactly the
   packets held, newest first.
   */
  lemma RoundTrip(cfg: Config, asker: nat, owner: nat, askerTable: seq<Entry>, ownerTable: seq<Entry>)
    requires cfg(asker).configured && cfg(owner).configured && Find(askerTable, cfg(owner).ip) < |askerTable|
    ensures var request := Frame(cfg, Request(asker, cfg(owner).ip));
            && ReachesArp(cfg, owner, request)
            && Input(cfg, ownerTable, owner, request[14..])
               == (Outcome(ownerTable, [Reply(owner, cfg(asker).mac, cfg(asker).ip)]), true)
    ensures var reply := Frame(cfg, Reply(owner, cfg(asker).mac, cfg(asker).ip));
            var i := Find(askerTable, cfg(owner).ip);
            && ReachesArp(cfg, asker, reply)
            && Input(cfg, askerTable, asker, reply[14..])
               == (Outcome(askerTable[i := askerTable[i].(resolved := true, mac := cfg(owner).mac, pending := [])],
                           DataTo(askerTable[i].pending, cfg(owner).mac)), true)
  {
    RequestAnswered(cfg, asker, owner, ownerTable);
    ReplyTaken(cfg, asker, owner, askerTable);
  }

  lemma RequestAnswered(cfg: Config, asker: nat, owner: nat, table: seq<Entry>)
    requires cfg(owner).configured
    ensures var request := Frame(cfg, Request(asker, cfg(owner).ip));
            && ReachesArp(cfg, owner, request)
            && Input(cfg, table, owner, request[14..])
               == (Outcome(table, [Reply(owner, cfg(asker).mac, cfg(asker).ip)]), true)
  {
    hide EthFrame, ArpPacket, Load16, Load32, Htons, SenderHw, SenderProto, TargetProto, Opcode;
    var a, target := cfg(asker), cfg(owner).ip;
    var f := Frame(cfg, Request(asker, target));
    FrameType(BROADCAST, a.mac, ETH_PROTO_ARP, ArpPacket(ARP_OP_REQUEST, a.mac, a.ip, NO_MAC, target));
    FramePayload(BROADCAST, a.mac, ETH_PROTO_ARP, ArpPacket(ARP_OP_REQUEST, a.mac, a.ip, NO_MAC, target));
    ArpRoundTrip(ARP_OP_REQUEST, a.mac, a.ip, NO_MAC, target, f[42..]);
  }

  lemma ReplyTaken(cfg: Config, asker: nat, owner: nat, table: seq<Entry>)
    requires cfg(asker).configured && Find(table, cfg(owner).ip) < |table|
    ensures var reply := Frame(cfg, Reply(owner, cfg(asker).mac, cfg(asker).ip));
            && ReachesArp(cfg, asker, reply)
            && Input(cfg, table, asker, reply[14..])
               == (UpdateFromReply(table, cfg(owner).ip, cfg(owner).mac), true)
  {
    hide *;
    var a, o := cfg(asker), cfg(owner);
    var packet := ArpPacket(ARP_OP_REPLY, o.mac, o.ip, a.mac, a.ip);
    var f := EthFrame(a.mac, o.mac, ETH_PROTO_ARP, packet);
    ReplyFrameIs(cfg, owner, a.mac, a.ip);
    FrameReaches(cfg, asker, a.mac, o.mac, packet);
    FramePayload(a.mac, o.mac, ETH_PROTO_ARP, packet);
    ArpRoundTrip(ARP_OP_REPLY, o.mac, o.ip, a.mac, a.ip, f[42..]);
    InputOfReply(cfg, table, asker, f[14..]);
  }

  lemma ReplyFrameIs(cfg: Config, i: nat, hw: Mac, proto: u32)
    ensures Frame(cfg, Reply(i, hw, proto))
         == EthFrame(hw, cfg(i).mac, ETH_PROTO_ARP, ArpPacket(ARP_OP_REPLY, cfg(i).mac, cfg(i).ip, hw, proto))
  {
  }

  /** A frame addressed to the interface, or to all, is passed on to ARP. */
  lemma FrameReaches(cfg: Config, intf: nat, dst: Mac, src: Mac, packet: bytes)
    requires cfg(intf).configured && (dst == cfg(intf).mac || dst == BROADCAST)
    ensures ReachesArp(cfg, intf, EthFrame(dst, src, ETH_PROTO_ARP, packet))
  {
    hide EthFrame, Load16, Htons;
    FrameType(dst, src, ETH_PROTO_ARP, packet);
  }

  lemma InputOfReply(cfg: Config, table: seq<Entry>, intf: nat, p: bytes)
    requires |p| >= 28 && Opcode(p) == Htons(ARP_OP_REPLY)
    ensures Input(cfg, table, intf, p) == (UpdateFromReply(table, SenderProto(p), SenderHw(p)), true)
  {
    HtonsDistinct();
  }
}
