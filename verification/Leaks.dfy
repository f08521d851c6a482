/**
 Which buffers the code loses.  `Leaks` names them for each event, by the branch that loses them, and
 `LeaksExactly` proves that a step loses exactly those: no other path of the stack drops a buffer.
 */
module Leaks {
  import opened Bytes
  import opened Wire
  import opened TcpFormat
  import opened Nodes
  import A = Arp
  import R = ArpRuns
  import opened Ip
  import T = Tcp
  import TS = TcpState
  import TT = TcpTheorems
  import U = Udp
  import opened TcpOverIp
  import opened Stack
  import opened Ownership

  /** ip_postroute takes the buffer: there is a next hop, and it is held for ARP or the driver accepts it. */
  predicate Taken(s: Stack, driver: Driver, node: nat, v: Verdict, buf: nat) {
    v.Hop? && (R.Resolved(ArpOf(s, node), v.target) ==> driver(buf))
  }

  /** tcp_out emitted a segment, that is, its window check passed, and ip_output took it. */
  predicate SegmentTaken(setup: Setup, s: Stack, driver: Driver, t: T.Tcp, out: Option<T.Emission>, buf: nat)
    requires out != None ==> |out.value.seg.payload| <= T.MAX_TCP_PAYLOAD
  {
    var h := SegmentHanded(setup, t, out, buf);
    h != None && Taken(s, driver, h.value.node, h.value.verdict, buf)
  }

  /** The message is an ARP request for the interface's own address. */
  predicate IsRequestFor(cfg: Config, intf: nat, p: bytes) {
    |p| >= 28 && A.Opcode(p) == Htons(ARP_OP_REQUEST) && A.TargetProto(p) == cfg(intf).ip
  }

  function OneIf(lost: bool, buf: nat): multiset<nat> {
    if lost then multiset{buf} else multiset{}
  }

  /**
   The buffers lost by one event.
   - A RST or FIN in sequence: the received buffer, tcp.c:112-116.
   - An answer of TCP to a SYN, RST or FIN, or of tcp_send: the buffer of tcp_out, if the window check
     fails or ip_output does, tcp.c:194-210.
   - The answer to an ARP request, if the driver refuses it, arp.c:74.
   - A datagram that ip_output refuses, udp.c:45.
   - What is queued at a UDP socket that is closed, udp.c:62-72.
   */
  function Leaks(setup: Setup, s: Stack, driver: Driver, e: Event): multiset<nat>
    requires WellFormed(setup, e)
  {
    match e
    case Frame(intf, f) =>
      if IsLocalIp(setup, intf, f, IP_PROTO_TCP) then FrameLeaks(setup, s, driver, intf, f[14..])
      else
        OneIf(Qualifies(setup, intf, f) && Load16(f, 12) == Htons(ETH_PROTO_ARP)
              && IsRequestFor(setup.topo.cfg, intf, f[14..]) && !driver(s.next + 1), s.next + 1)
    case CallTcp(t) => CallLeaks(setup, s, driver, t)
    case CallUdp(u) => LostByClose(s.udp, u)
    case SendUdp(fd, buff, ip, port) => OneIf(SendFails(setup, s, driver, fd, buff, ip, port), s.next)
  }

  function FrameLeaks(setup: Setup, s: Stack, driver: Driver, intf: nat, b: bytes): multiset<nat>
    requires |b| >= 40
  {
    var e := Arrival(intf, b, s.next);
    var r := T.Input(s.tcp, intf, e.srcIp, e.seg, s.next);
    OneIf(Discards(s.tcp, T.Dispatch(s.tcp, intf, e.srcIp, e.seg), e.seg), s.next)
    + OneIf(CallsTcpOut(s.tcp, e) && !SegmentTaken(setup, s, driver, r.t, r.out, s.next + 1), s.next + 1)
  }

  function CallLeaks(setup: Setup, s: Stack, driver: Driver, e: TS.Event): multiset<nat>
    requires !e.Arrive?
  {
    var r := TS.Step(setup.topo, s.tcp, e);
    if r.out != None then
      EmissionIsSmall(setup.topo, s.tcp, e);
      OneIf(CallsTcpOut(s.tcp, e) && !SegmentTaken(setup, s, driver, r.t, r.out, s.next), s.next)
    else OneIf(CallsTcpOut(s.tcp, e), s.next)
  }

  predicate SendFails(setup: Setup, s: Stack, driver: Driver, fd: int, buff: bytes, ip: u32, port: u16) {
    var u := U.SockOf(s.udp, fd);
    u != None && s.udp.socks[u.value].bound &&
    var sock := s.udp.socks[u.value];
    var payload := buff[..Min(|buff|, 1446)];
    var node := setup.topo.cfg(sock.intf).node;
    !Taken(s, driver, node, Output(setup.topo, setup.routes(node), node, Some(sock.intf), ip, IP_PROTO_UDP,
                                   UdpHeader(sock.localPort, port, 8 + |payload|) + payload), s.next)
  }

  // ---------------------------------------------------------------- layer by layer

  lemma ResolvedIffSent(table: seq<A.Entry>, target: u32, p: A.Packet)
    ensures var o := A.Postroute(table, target, p);
            |o.sent| == 1 && (o.sent[0].Request? <==> !R.Resolved(table, target))
  {
    R.EnsuredKeeps(table, target, p.intf, target);
  }

  lemma DisposeLeaks(s: Stack, driver: Driver, node: nat, v: Verdict, buf: nat)
    ensures var (s', ok) := Dispose(s, driver, node, v, buf);
            s'.leaked == s.leaked && (ok <==> Taken(s, driver, node, v, buf))
  {
    hide A.Postroute, R.Resolved;
    if v.Hop? {
      ResolvedIffSent(ArpOf(s, node), v.target, A.Packet(buf, v.intf, v.packet));
    }
  }

  lemma SendNewLeaks(setup: Setup, s: Stack, driver: Driver, node: nat, forced: Option<nat>, dst: u32, proto: u8, payload: bytes)
    requires 20 + |payload| < 0x1_0000
    ensures var (s', ok, buf) := SendNew(setup, s, driver, node, forced, dst, proto, payload);
            && s'.leaked == s.leaked && buf == s.next
            && (ok <==> Taken(s, driver, node, Output(setup.topo, setup.routes(node), node, forced, dst, proto, payload), s.next))
  {
    hide Dispose, Output, R.Resolved;
    DisposeLeaks(s.(next := s.next + 1), driver, node,
                 Output(setup.topo, setup.routes(node), node, forced, dst, proto, payload), s.next);
  }

  lemma SendOrLeakLeaks(setup: Setup, s: Stack, driver: Driver, node: nat, intf: nat, dst: u32, proto: u8, payload: bytes)
    requires 20 + |payload| < 0x1_0000
    ensures var v := Output(setup.topo, setup.routes(node), node, Some(intf), dst, proto, payload);
            SendOrLeak(setup, s, driver, node, intf, dst, proto, payload).leaked
            == s.leaked + OneIf(!Taken(s, driver, node, v, s.next), s.next)
  {
    hide SendNew, Output, Taken;
    SendNewLeaks(setup, s, driver, node, Some(intf), dst, proto, payload);
  }

  lemma SendSegmentLeaks(setup: Setup, s: Stack, driver: Driver, called: bool, out: Option<T.Emission>)
    requires out != None ==> |out.value.seg.payload| <= T.MAX_TCP_PAYLOAD
    ensures SendSegment(setup, s, driver, called, out).leaked
         == s.leaked + OneIf(called && !SegmentTaken(setup, s, driver, s.tcp, out, s.next), s.next)
  {
    hide SendOrLeak, Output, Taken, FillTcpCksum, Encode;
    if out != None && out.value.conn < |s.tcp.conns| && s.tcp.conns[out.value.conn].parent < |s.tcp.socks| {
      var conn := s.tcp.conns[out.value.conn];
      var sock := s.tcp.socks[conn.parent];
      SendOrLeakLeaks(setup, s, driver, setup.topo.cfg(sock.intf).node, sock.intf, conn.remoteIp, IP_PROTO_TCP,
                      FillTcpCksum(Encode(out.value.seg), sock.localIp, conn.remoteIp));
    }
  }

  /** Only the ARP tables, the buffer's number and the driver decide whether a segment is taken. */
  lemma SameTaken(setup: Setup, s: Stack, s': Stack, driver: Driver, t: T.Tcp, out: Option<T.Emission>, buf: nat)
    requires s'.arp == s.arp && (out != None ==> |out.value.seg.payload| <= T.MAX_TCP_PAYLOAD)
    ensures SegmentTaken(setup, s', driver, t, out, buf) <==> SegmentTaken(setup, s, driver, t, out, buf)
  {
    hide Output, FillTcpCksum, Encode, R.Resolved;
  }

  lemma TcpInputLeaks(setup: Setup, s: Stack, driver: Driver, intf: nat, b: bytes)
    requires |b| >= 40
    ensures TcpInput(setup, s.(next := s.next + 1), driver, intf, b, s.next).0.leaked
         == s.leaked + FrameLeaks(setup, s, driver, intf, b)
  {
    hide T.Input, T.Dispatch, Discards, CallsTcpOut, SendSegment, SegmentTaken, Decode, Load32;
    var e := Arrival(intf, b, s.next);
    var r := T.Input(s.tcp, intf, e.srcIp, e.seg, s.next);
    var s1 := s.(next := s.next + 1, tcp := r.t);
    EmissionOfInput(s.tcp, intf, e.srcIp, e.seg, s.next);
    SendSegmentLeaks(setup, s1, driver, CallsTcpOut(s.tcp, e), r.out);
    SameTaken(setup, s, s1, driver, r.t, r.out, s1.next);
  }

  lemma {:induction false} FreeAllLeaksNothing(s: Stack, sent: seq<A.Output>)
    ensures FreeAll(s, sent).leaked == s.leaked && FreeAll(s, sent).next == s.next
    decreases |sent|
  {
    if sent != [] {
      FreeAllLeaksNothing(if sent[0].Data? then FreeSkb(s, sent[0].p.id) else s, sent[1..]);
    }
  }

  /** An ARP message is answered exactly if it asks for the interface's address. */
  lemma ReplyIffRequest(cfg: Config, table: seq<A.Entry>, intf: nat, p: bytes)
    ensures var (o, ok) := A.Input(cfg, table, intf, p);
            (ok && |o.sent| == 1 && o.sent[0].Reply?) <==> IsRequestFor(cfg, intf, p)
  {
    hide A.Opcode, A.TargetProto, A.SenderProto, A.SenderHw, Htons, A.Find;
    HtonsDistinct();
  }

  lemma ArpInputLeaks(setup: Setup, s: Stack, driver: Driver, intf: nat, p: bytes, buf: nat)
    ensures ArpInput(setup, s, driver, intf, p, buf).0.leaked
         == s.leaked + OneIf(IsRequestFor(setup.topo.cfg, intf, p) && !driver(s.next), s.next)
  {
    hide A.Input, IsRequestFor, FreeAll;
    var node := setup.topo.cfg(intf).node;
    var (o, ok) := A.Input(setup.topo.cfg, ArpOf(s, node), intf, p);
    ReplyIffRequest(setup.topo.cfg, ArpOf(s, node), intf, p);
    FreeAllLeaksNothing(SetArp(s, node, o.table), o.sent);
  }

  lemma IcmpInputLeaks(setup: Setup, s: Stack, driver: Driver, intf: nat, b: bytes, buf: nat)
    requires 20 <= |b| <= 2030
    ensures IcmpInput(setup, s, driver, intf, b, buf).0.leaked == s.leaked
  {
    hide SendNew, Output, IcmpMessage, Load32, Taken;
    if |b| >= 24 && b[20] == 8 && b[21] == 0 {
      SendNewLeaks(setup, s, driver, setup.topo.cfg(intf).node, None, Load32(b, 12), IP_PROTO_ICMP, IcmpMessage(0, 0, b[24..]));
    }
  }

  lemma IpPrerouteLeaks(setup: Setup, s: Stack, driver: Driver, intf: nat, b: bytes)
    requires WholeHeader(b) && |b| <= 2030 && HoldsTransport(setup, intf, b)
    ensures IpPreroute(setup, s.(next := s.next + 1), driver, intf, b, s.next).0.leaked
         == s.leaked + (if IsIpLocal(setup.topo, setup.topo.cfg(intf).node, DstIp(b)) && b[9] == IP_PROTO_TCP
                        then FrameLeaks(setup, s, driver, intf, b) else multiset{})
  {
    hide IcmpInput, TcpInput, U.Input, FrameLeaks, Dispose, Forward, Load16, Load32, Htons, IsIpLocal, DstIp;
    var node, s1 := setup.topo.cfg(intf).node, s.(next := s.next + 1);
    if !IsIpLocal(setup.topo, node, DstIp(b)) {
      DisposeLeaks(s1, driver, node, Forward(setup.topo, setup.routes(node), node, setup.forwarding, b), s.next);
    } else if b[9] == IP_PROTO_ICMP {
      IcmpInputLeaks(setup, s1, driver, intf, b, s.next);
    } else if b[9] == IP_PROTO_TCP {
      TcpInputLeaks(setup, s, driver, intf, b);
    }
  }

  lemma ReceiveLeaks(setup: Setup, s: Stack, driver: Driver, intf: nat, f: bytes)
    requires LongEnough(setup, intf, f)
    ensures Receive(setup, s, driver, intf, f).leaked == s.leaked + Leaks(setup, s, driver, Frame(intf, f))
  {
    hide ArpInput, IpPreroute, HoldsTransport, FrameLeaks, IsRequestFor, Load16, Htons, IsIpLocal, DstIp;
    HtonsDistinct();
    if Qualifies(setup, intf, f) {
      ArpInputLeaks(setup, s.(next := s.next + 1), driver, intf, f[14..], s.next);
      if Load16(f, 12) == Htons(ETH_PROTO_IP) {
        IpPrerouteLeaks(setup, s, driver, intf, f[14..]);
      }
    }
  }

  lemma TcpCallLeaks(setup: Setup, s: Stack, driver: Driver, e: TS.Event)
    requires !e.Arrive?
    ensures TcpCall(setup, s, driver, e).leaked == s.leaked + CallLeaks(setup, s, driver, e)
  {
    hide TS.Step, SendSegment, CallsTcpOut, SegmentTaken;
    var r := TS.Step(setup.topo, s.tcp, e);
    var s1 := FreeIf(s.(tcp := r.t), r.freed);
    if r.out != None {
      EmissionIsSmall(setup.topo, s.tcp, e);
    }
    SendSegmentLeaks(setup, s1, driver, CallsTcpOut(s.tcp, e), r.out);
    SameTaken(setup, s, s1, driver, r.t, r.out, s.next);
    NothingSent(setup, s, driver, r.t, s.next);
  }

  lemma NothingSent(setup: Setup, s: Stack, driver: Driver, t: T.Tcp, buf: nat)
    ensures !SegmentTaken(setup, s, driver, t, None, buf)
  {
  }

  lemma UdpSendLeaks(setup: Setup, s: Stack, driver: Driver, fd: int, buff: bytes, ip: u32, port: u16)
    ensures UdpSend(setup, s, driver, fd, buff, ip, port).leaked
         == s.leaked + OneIf(SendFails(setup, s, driver, fd, buff, ip, port), s.next)
  {
    hide SendOrLeak, Output, Taken, UdpHeader;
    var u := U.SockOf(s.udp, fd);
    if u != None && s.udp.socks[u.value].bound {
      var sock := s.udp.socks[u.value];
      var payload := buff[..Min(|buff|, 1446)];
      SendOrLeakLeaks(setup, s, driver, setup.topo.cfg(sock.intf).node, sock.intf, ip, IP_PROTO_UDP,
                      UdpHeader(sock.localPort, port, 8 + |payload|) + payload);
    }
  }

  // ---------------------------------------------------------------- the laws

  /** tcp_send on an established connection loses its buffer if and only if the window or ip_output refuses it. */
  lemma TcpSendLoses(setup: Setup, s: Stack, driver: Driver, fd: int, buff: bytes, ipOk: bool)
    requires TS.Inv(s.tcp) && T.ConnOf(s.tcp, fd) != None
    ensures var c := s.tcp.conns[T.ConnOf(s.tcp, fd).value];
            var r := T.Send(s.tcp, fd, buff, ipOk);
            var fits := c.nxt + Min(|buff|, T.MAX_TCP_PAYLOAD) <= c.wnd;
            && (r.out != None <==> fits)
            && (r.out != None ==> |r.out.value.seg.payload| <= T.MAX_TCP_PAYLOAD)
            && CallLeaks(setup, s, driver, TS.SendTo(fd, buff, ipOk))
               == OneIf(!(fits && SegmentTaken(setup, s, driver, r.t, r.out, s.next)), s.next)
  {
    hide SegmentTaken, TS.Inv, T.Send;
    TT.SendReport(s.tcp, fd, buff, ipOk);
    TS.ConnPhase(s.tcp, fd);
  }

  /** Every step, of any state, loses exactly the buffers that `Leaks` names. */
  lemma LeaksExactly(setup: Setup, s: Stack, driver: Driver, e: Event)
    requires Possible(setup, s, e)
    ensures Step(setup, s, driver, e).leaked == s.leaked + Leaks(setup, s, driver, e)
  {
    hide Receive, TcpCall, UdpSend, CallLeaks, SendFails, LongEnough, U.Step, HandedBy;
    match e
    case Frame(intf, f) => ReceiveLeaks(setup, s, driver, intf, f);
    case CallTcp(t) => TcpCallLeaks(setup, s, driver, t);
    case CallUdp(u) =>
    case SendUdp(fd, buff, ip, port) => UdpSendLeaks(setup, s, driver, fd, buff, ip, port);
  }

  /**
   The buffer of a received frame is lost if and only if the frame is a TCP segment for this node, in
   sequence for an established connection, with RST or FIN set.
   */
  lemma FrameBufferLost(setup: Setup, s: Stack, driver: Driver, intf: nat, f: bytes)
    requires Possible(setup, s, Frame(intf, f)) && Owned(s)
    ensures Receive(setup, s, driver, intf, f).leaked[s.next] > 0
       <==> IsLocalIp(setup, intf, f, IP_PROTO_TCP) &&
            var e := Arrival(intf, f[14..], s.next);
            Discards(s.tcp, T.Dispatch(s.tcp, intf, e.srcIp, e.seg), e.seg)
  {
    hide Receive, LongEnough, IsLocalIp, Qualifies, Discards, CallsTcpOut, SegmentTaken, T.Input, T.Dispatch, Decode,
         Load32, Load16, Htons, IsRequestFor, U.Inv;
    ReceiveLeaks(setup, s, driver, intf, f);
    assert Times(s, s.next) == 0;
  }
}
