/**
 Segments on their way out: whatever the engine emits in any run leaves in packets whose checksums
 verify, because bind ties a socket's address to its interface and `ip_postroute` refuses to send by
 another one.
 */
module TcpOverIp {
  import opened Bytes
  import opened Wire
  import opened TcpFormat
  import opened Nodes
  import opened Tcp
  import opened TcpState
  import opened TcpRuns
  import opened Ip

  /** A bound socket's address is that of its interface, tcp.c:245-251. */
  ghost predicate BindTies(topo: Topology, t: Tcp) {
    forall s :: 0 <= s < |t.socks| && t.socks[s].bound ==> t.socks[s].localIp == topo.cfg(t.socks[s].intf).ip
  }

  lemma StepKeepsTies(topo: Topology, t: Tcp, e: Event)
    requires BindTies(topo, t)
    ensures BindTies(topo, Step(topo, t, e).t)
  {
    hide HandleSegment, TcpOut, ReadOldest, FirstEstab;
  }

  lemma {:induction false} RunKeepsTies(topo: Topology, events: seq<Event>)
    ensures BindTies(topo, Run(topo, events).tcp)
  {
    hide BindTies, Step;
    if events == [] {
      InitTies(topo);
    } else {
      RunKeepsTies(topo, events[..|events| - 1]);
      StepKeepsTies(topo, Run(topo, events[..|events| - 1]).tcp, events[|events| - 1]);
    }
  }

  lemma InitTies(topo: Topology)
    ensures BindTies(topo, Init())
  {
  }

  /** An emission belongs to an existing connection and carries at most MAX_TCP_PAYLOAD bytes. */
  lemma EmissionIsSmall(topo: Topology, t: Tcp, e: Event)
    requires Step(topo, t, e).out != None
    ensures var r := Step(topo, t, e);
            r.out.value.conn < |r.t.conns| && |r.out.value.seg.payload| <= MAX_TCP_PAYLOAD
  {
    hide HandleSegment, ReadOldest, FirstEstab;
  }

  /** The call of ip_output at tcp.c:209-210. */
  function HandOver(topo: Topology, routes: Routes, sock: Sock, dst: u32, seg: Segment): Verdict
    requires 40 + |seg.payload| <= 0xFFFF
  {
    Output(topo, routes, topo.cfg(sock.intf).node, Some(sock.intf), dst, IP_PROTO_TCP, FillTcpCksum(Encode(seg), sock.localIp, dst))
  }

  /**
   Every segment that any run emits, under any routing table: if it leaves at all, it leaves by the
   interface its socket is bound to, in the packet of that segment with the socket's address as source,
   and both checksums verify.
   */
  lemma EmittedSegmentsVerify(topo: Topology, events: seq<Event>, e: Event, routes: Routes)
    requires Legal(topo, events + [e])
    ensures var r := Step(topo, Run(topo, events).tcp, e);
            r.out != None ==>
            var em := r.out.value;
            && em.conn < |r.t.conns| && r.t.conns[em.conn].parent < |r.t.socks|
            && 40 + |em.seg.payload| <= 0xFFFF
            && var conn := r.t.conns[em.conn];
               var sock := r.t.socks[conn.parent];
               var v := HandOver(topo, routes, sock, conn.remoteIp, em.seg);
               v.Hop? ==>
                 && v.intf == sock.intf
                 && v.packet == SegmentPacket(em.seg, sock.localIp, conn.remoteIp)
                 && WholeHeader(v.packet) && CheckIpHcksum(v.packet)
                 && CheckTcpCksum(v.packet[20..], Load32(v.packet, 12), Load32(v.packet, 16))
  {
    hide Run, Output, CheckIpHcksum, CheckTcpCksum, SegmentPacket, Load32, ConnOk;
    var t := Run(topo, events).tcp;
    var r := Step(topo, t, e);
    assert (events + [e])[..|events|] == events;
    if r.out == None {
      return;
    }
    var em := r.out.value;
    EmissionIsSmall(topo, t, e);
    RunInv(topo, events);
    StepKeeps(topo, t, e);
    RunKeepsTies(topo, events);
    StepKeepsTies(topo, t, e);
    EmitterIsBound(r.t, em.conn);
    var conn := r.t.conns[em.conn];
    var sock := r.t.socks[conn.parent];
    SegmentLeavesVerified(topo, routes, topo.cfg(sock.intf).node, sock.intf, conn.remoteIp, em.seg);
  }

  lemma EmitterIsBound(t: Tcp, c: nat)
    requires Inv(t) && c < |t.conns|
    ensures t.conns[c].parent < |t.socks| && t.socks[t.conns[c].parent].bound
  {
    assert ConnAt(t, c) && SockAt(t, t.conns[c].parent);
  }
}
