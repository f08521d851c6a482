/**
 The IP layer, ip.c:36-116: where a packet goes, and what is written into its header on the way.

 `Postroute` is `ip_postroute` up to the ARP lookup; module `Arp` takes over from there.
 */
module Ip {
  import opened Bytes
  import opened InternetChecksum
  import opened Wire
  import opened TcpFormat
  import opened Nodes
  import opened Routing

  type Routes = r: seq<RtEntry> | Usable(r) witness []

  function Ttl(b: bytes): u8
    requires |b| >= 20
  {
    b[8]
  }

  function DstIp(b: bytes): u32
    requires |b| >= 20
  {
    Load32(b, 16)
  }

  /** Every header this layer reads: complete, and long enough to hold its own checksum field. */
  predicate GoodHeader(b: bytes) {
    WholeHeader(b) && HlenBytes(b) >= 12
  }

  /** The header writes of ip.c:86-87. */
  function Rewrite(b: bytes, src: u32): (r: bytes)
    requires WholeHeader(b)
    ensures |r| == |b|
  {
    FillIpHcksum(Splice(b, 12, Store32(src)))
  }

  /** The outcome: dropped, handed to the local upper layer, or sent to a next hop on an interface. */
  datatype Verdict = Drop | Local(packet: bytes) | Hop(intf: nat, target: u32, packet: bytes)

  /** ip_postroute, ip.c:71-101; `forced` is the interface the upper layer asks for. */
  function Postroute(topo: Topology, routes: Routes, node: nat, forced: Option<nat>, b: bytes): Verdict
    requires WholeHeader(b)
  {
    var rt := Lookup(routes, DstIp(b));
    if rt == None then Drop
    else if forced != None && forced.value != rt.value.intf then Drop
    else
      var packet := Rewrite(b, topo.cfg(rt.value.intf).ip);
      if IsIpLocal(topo, node, DstIp(b)) then Local(packet)
      else Hop(rt.value.intf, if rt.value.next == 0 then DstIp(b) else rt.value.next, packet)
  }

  /** ip_forward, ip.c:45-58. */
  function Forward(topo: Topology, routes: Routes, node: nat, enabled: bool, b: bytes): Verdict
    requires WholeHeader(b)
  {
    if !enabled || Ttl(b) == 0 || Ttl(b) - 1 == 0 then Drop
    else Postroute(topo, routes, node, None, b[8 := Ttl(b) - 1])
  }

  /** ip_preroute, ip.c:36-43. */
  function Preroute(topo: Topology, routes: Routes, node: nat, enabled: bool, b: bytes): Verdict
    requires WholeHeader(b)
  {
    if IsIpLocal(topo, node, DstIp(b)) then Local(b) else Forward(topo, routes, node, enabled, b)
  }

  lemma RewriteFields(b: bytes, src: u32)
    requires WholeHeader(b)
    ensures var r := Rewrite(b, src);
            && WholeHeader(r) && HlenBytes(r) == HlenBytes(b)
            && Ttl(r) == Ttl(b) && DstIp(r) == DstIp(b) && Load32(r, 12) == src
            && r[20..] == b[20..]
  {
    hide CalcIpHcksum, Store32, Load32;
    var r := Rewrite(b, src);
    LoadStore32(src);
    assert r[12..16] == Store32(src);
    SameBytesSameWord(r, 12, Store32(src));
    assert r[16..20] == b[16..20];
    SameBytesSameWord(r, 16, b[16..20]);
    SameBytesSameWord(b, 16, b[16..20]);
  }

  // ---------------------------------------------------------------- forwarding

  /**
   A forwarded packet keeps its destination, its payload and its length; its TTL drops by one and is
   still positive; its source is replaced by the address of the output interface; and its header
   checksum verifies if and only if the arriving checksum field was 0x0000 or 0xFFFF.
   */
  lemma ForwardedPacket(topo: Topology, routes: Routes, node: nat, b: bytes)
    requires GoodHeader(b)
    ensures var v := Forward(topo, routes, node, true, b);
            v.Hop? ==>
              && GoodHeader(v.packet) && |v.packet| == |b|
              && Ttl(v.packet) == Ttl(b) - 1 >= 1
              && DstIp(v.packet) == DstIp(b)
              && v.packet[20..] == b[20..]
              && Load32(v.packet, 12) == topo.cfg(v.intf).ip
              && (CheckIpHcksum(v.packet) <==> Field(b, 10) in {0, 0xFFFF})
  {
    hide CheckIpHcksum, CalcIpHcksum, Lookup, IsIpLocal, Load32;
    var v := Forward(topo, routes, node, true, b);
    if v.Hop? {
      var d := b[8 := Ttl(b) - 1];
      RewriteFields(d, topo.cfg(v.intf).ip);
      assert d[16..20] == b[16..20];
      SameBytesSameWord(d, 16, b[16..20]);
      SameBytesSameWord(b, 16, b[16..20]);
      assert Field(Splice(d, 12, Store32(topo.cfg(v.intf).ip)), 10) == Field(b, 10);
    }
  }

  /** An IP header from 10.0.0.1 to 10.0.1.2 with its right checksum, 0x65D7. */
  const SAMPLE: bytes := [0x45, 0, 0, 20, 0, 0, 0, 0, 64, 17, 0x65, 0xD7, 10, 0, 0, 1, 10, 0, 1, 2]

  lemma SampleVerifies()
    ensures GoodHeader(SAMPLE) && CheckIpHcksum(SAMPLE)
  {
    hide Words;
    assert SAMPLE[..20] == SAMPLE;
    SampleWords();
    assert OnesSum(SAMPLE_WORDS) == 0xFFFF;
  }

  const SAMPLE_WORDS: seq<u16> := [0x4500, 0x0014, 0, 0, 0x4011, 0x65D7, 0x0A00, 1, 0x0A00, 0x0102]

  lemma SampleWords()
    ensures Words(SAMPLE) == SAMPLE_WORDS
  {
    hide Words;
    WordCount(SAMPLE);
    forall i | 0 <= i < 10 ensures Words(SAMPLE)[i] == SAMPLE_WORDS[i] {
      WordAt(SAMPLE, i);
    }
  }

  /** A packet that arrives with a right checksum leaves with a wrong one, wherever it is forwarded. */
  lemma ForwardingBreaksChecksum(topo: Topology, routes: Routes, node: nat)
    requires Lookup(routes, DstIp(SAMPLE)) != None && !IsIpLocal(topo, node, DstIp(SAMPLE))
    ensures var v := Preroute(topo, routes, node, true, SAMPLE);
            GoodHeader(SAMPLE) && CheckIpHcksum(SAMPLE) && v.Hop? && !CheckIpHcksum(v.packet)
  {
    hide CheckIpHcksum, CalcIpHcksum, Lookup, IsIpLocal, Load32, Rewrite;
    SampleVerifies();
    ForwardedPacket(topo, routes, node, SAMPLE);
    ForwardIsNeverLocal(topo, routes, node, true, SAMPLE);
    var d := SAMPLE[8 := 63];
    assert d[16..20] == SAMPLE[16..20];
    SameBytesSameWord(d, 16, SAMPLE[16..20]);
    SameBytesSameWord(SAMPLE, 16, SAMPLE[16..20]);
  }

  /** Forwarding never turns back into local delivery on the node that forwards. */
  lemma ForwardIsNeverLocal(topo: Topology, routes: Routes, node: nat, enabled: bool, b: bytes)
    requires WholeHeader(b) && !IsIpLocal(topo, node, DstIp(b))
    ensures !Forward(topo, routes, node, enabled, b).Local?
    ensures Preroute(topo, routes, node, enabled, b) == Forward(topo, routes, node, enabled, b)
  {
    hide Lookup, Rewrite, Load32;
    if Ttl(b) > 1 {
      var d := b[8 := Ttl(b) - 1];
      assert d[16..20] == b[16..20];
      SameBytesSameWord(d, 16, b[16..20]);
      SameBytesSameWord(b, 16, b[16..20]);
    }
  }

  /** Any routing tables, and any cabling: `wire` says which node takes what leaves for a next hop. */
  datatype Internet = Internet(topo: Topology, tables: nat -> Routes, wire: (nat, u32) -> nat)

  /** How often a packet that arrives at a node is forwarded before it is delivered or dropped. */
  function Forwards(net: Internet, node: nat, b: bytes): nat
    requires GoodHeader(b)
    decreases if |b| >= 20 then Ttl(b) as int else 0
  {
    var v := Preroute(net.topo, net.tables(node), node, true, b);
    ForwardedPacket(net.topo, net.tables(node), node, b);
    if v.Hop? then 1 + Forwards(net, net.wire(v.intf, v.target), v.packet) else 0
  }

  /** Loops included, a packet is forwarded less often than its TTL says. */
  lemma {:induction false} ForwardingTerminates(net: Internet, node: nat, b: bytes)
    requires GoodHeader(b)
    ensures Forwards(net, node, b) <= if Ttl(b) == 0 then 0 else Ttl(b) - 1
    decreases Ttl(b)
  {
    hide Preroute, Ttl;
    PrerouteHop(net, node, b);
    var v := Preroute(net.topo, net.tables(node), node, true, b);
    if v.Hop? {
      ForwardingTerminates(net, net.wire(v.intf, v.target), v.packet);
    }
  }

  lemma PrerouteHop(net: Internet, node: nat, b: bytes)
    requires GoodHeader(b)
    ensures var v := Preroute(net.topo, net.tables(node), node, true, b);
            v.Hop? ==> GoodHeader(v.packet) && Ttl(v.packet) == Ttl(b) - 1 >= 1 && DstIp(v.packet) == DstIp(b)
  {
    hide Forward;
    ForwardedPacket(net.topo, net.tables(node), node, b);
  }

  /** A packet of this stack starts with TTL 64, so it is forwarded at most 63 times. */
  lemma LocalPacketsDieOut(net: Internet, node: nat, src: u32, dst: u32, proto: u8, payload: bytes)
    requires 20 + |payload| < 0x1_0000
    ensures GoodHeader(IpPacket(src, dst, proto, payload))
    ensures Forwards(net, node, IpPacket(src, dst, proto, payload)) <= 63
  {
    hide Forwards;
    PacketTtl(src, dst, proto, payload);
    ForwardingTerminates(net, node, IpPacket(src, dst, proto, payload));
  }

  lemma PacketTtl(src: u32, dst: u32, proto: u8, payload: bytes)
    requires 20 + |payload| < 0x1_0000
    ensures var p := IpPacket(src, dst, proto, payload);
            GoodHeader(p) && Ttl(p) == 64
  {
    hide CalcIpHcksum, Load32;
  }

  /** In a network in which no node has the destination and every node has a route, the bound is reached. */
  lemma {:induction false} RoutingLoop(net: Internet, node: nat, b: bytes)
    requires GoodHeader(b)
    requires forall n: nat :: !IsIpLocal(net.topo, n, DstIp(b)) && Lookup(net.tables(n), DstIp(b)) != None
    ensures Forwards(net, node, b) == if Ttl(b) == 0 then 0 else Ttl(b) - 1
    decreases Ttl(b)
  {
    hide Ttl, DstIp, Lookup, IsIpLocal;
    PrerouteHop(net, node, b);
    LoopHop(net, node, b);
    var v := Preroute(net.topo, net.tables(node), node, true, b);
    if v.Hop? {
      RoutingLoop(net, net.wire(v.intf, v.target), v.packet);
    }
  }

  lemma LoopHop(net: Internet, node: nat, b: bytes)
    requires GoodHeader(b) && !IsIpLocal(net.topo, node, DstIp(b)) && Lookup(net.tables(node), DstIp(b)) != None
    ensures Preroute(net.topo, net.tables(node), node, true, b).Hop? <==> Ttl(b) > 1
  {
    hide Lookup, IsIpLocal, Rewrite, Load32;
    if Ttl(b) > 1 {
      var d := b[8 := Ttl(b) - 1];
      assert d[16..20] == b[16..20];
      SameBytesSameWord(d, 16, b[16..20]);
      SameBytesSameWord(b, 16, b[16..20]);
    }
  }

  // ---------------------------------------------------------------- local packets

  /** ip_output, ip.c:60-69: the header without source and checksum, then ip_postroute. */
  function Output(topo: Topology, routes: Routes, node: nat, forced: Option<nat>, dst: u32, proto: u8, payload: bytes): Verdict
    requires 20 + |payload| < 0x1_0000
  {
    Postroute(topo, routes, node, forced, IpHeaderRaw(0, dst, proto, 20 + |payload|) + payload)
  }

  /** What leaves is the packet of `Wire`, from the address of the interface it leaves by. */
  lemma OutputPacket(topo: Topology, routes: Routes, node: nat, forced: Option<nat>, dst: u32, proto: u8, payload: bytes)
    requires 20 + |payload| < 0x1_0000
    ensures var v := Output(topo, routes, node, forced, dst, proto, payload);
            v.Hop? ==>
              && v.packet == IpPacket(topo.cfg(v.intf).ip, dst, proto, payload)
              && (forced != None ==> v.intf == forced.value)
  {
    hide CalcIpHcksum, Lookup, IsIpLocal, Load32, CheckIpHcksum, Net16, Store32;
    var v := Output(topo, routes, node, forced, dst, proto, payload);
    if v.Hop? {
      var src := topo.cfg(v.intf).ip;
      assert Splice(IpHeaderRaw(0, dst, proto, 20 + |payload|) + payload, 12, Store32(src))
          == IpHeaderRaw(src, dst, proto, 20 + |payload|) + payload;
    }
  }

  /**
   End to end: a segment whose checksum was filled in with the socket's own address, sent out through
   the interface that has that address, leaves in a packet whose two checksums verify, the TCP one
   against the very addresses in its IP header.
   */
  lemma SegmentLeavesVerified(topo: Topology, routes: Routes, node: nat, intf: nat, dst: u32, seg: Segment)
    requires 40 + |seg.payload| <= 0xFFFF
    ensures var localIp := topo.cfg(intf).ip;
            var v := Output(topo, routes, node, Some(intf), dst, IP_PROTO_TCP, FillTcpCksum(Encode(seg), localIp, dst));
            v.Hop? ==>
              && v.intf == intf && v.packet == SegmentPacket(seg, localIp, dst)
              && WholeHeader(v.packet) && CheckIpHcksum(v.packet)
              && CheckTcpCksum(v.packet[20..], Load32(v.packet, 12), Load32(v.packet, 16))
  {
    hide CheckIpHcksum, CheckTcpCksum, FillTcpCksum, Load32, Output, IpPacket;
    OutputPacket(topo, routes, node, Some(intf), dst, IP_PROTO_TCP, FillTcpCksum(Encode(seg), topo.cfg(intf).ip, dst));
  }
}
