/**
 The whole receive and send paths put together, and what becomes of each packet buffer on them:
 comm.c:64-89 and 141-156, ethernet.c:17-38, and the layers above.

 Every alloc_skb takes the next number.  A `Stack` records which buffers sit in an ARP, TCP or UDP
 queue, how often each has been freed, and which the code lost: it leaves them without a queue and
 without free_skb.  `Leak` marks each place where that happens.
 */
module Stack {
  import M = MultisetSums
  import opened Bytes
  import opened Wire
  import opened TcpFormat
  import opened Nodes
  import A = Arp
  import opened Ip
  import T = Tcp
  import TS = TcpState
  import U = Udp
  import UF = UdpFormat
  import opened TcpOverIp

  datatype Setup = Setup(topo: Topology, routes: nat -> Routes, forwarding: bool)

  /** `arp` holds the table of each node. */
  datatype Stack = Stack(arp: seq<seq<A.Entry>>, tcp: T.Tcp, udp: U.Udp, freed: multiset<nat>, leaked: multiset<nat>, next: nat)

  /** Which sends the driver accepts, by buffer: send_pkt_out frees the buffer when it does. */
  type Driver = nat -> bool

  /** Every interface belongs to one of the nodes. */
  ghost predicate Fits(setup: Setup, s: Stack) {
    forall i: nat :: setup.topo.cfg(i).node < |s.arp|
  }

  function ArpOf(s: Stack, node: nat): seq<A.Entry> {
    if node < |s.arp| then s.arp[node] else []
  }

  function SetArp(s: Stack, node: nat, table: seq<A.Entry>): Stack {
    if node < |s.arp| then s.(arp := s.arp[node := table]) else s
  }

  function FreeSkb(s: Stack, buf: nat): Stack {
    s.(freed := s.freed + multiset{buf})
  }

  function Leak(s: Stack, buf: nat): Stack {
    s.(leaked := s.leaked + multiset{buf})
  }

  // ---------------------------------------------------------------- sending

  /** send_arp_broadcast_request, arp.c:27-49: its own buffer is freed on either outcome. */
  function SendRequest(s: Stack): Stack {
    FreeSkb(s.(next := s.next + 1), s.next)
  }

  /** send_arp_reply_msg, arp.c:59-75: its own buffer is freed if the driver takes it, and lost if not. */
  function SendReply(s: Stack, driver: Driver): Stack {
    var s' := s.(next := s.next + 1);
    if driver(s.next) then FreeSkb(s', s.next) else Leak(s', s.next)
  }

  /** The rest of ip_postroute for a packet with a next hop, ip.c:92-115. */
  function ToArp(s: Stack, driver: Driver, node: nat, target: u32, p: A.Packet): (Stack, bool) {
    var o := A.Postroute(ArpOf(s, node), target, p);
    var s' := SetArp(s, node, o.table);
    if o.sent[0].Request? then (SendRequest(s'), true)
    else if driver(p.id) then (FreeSkb(s', p.id), true)
    else (s', false)
  }

  /** A verdict of the IP layer on the packet in buffer `buf`.  Loopback is not modelled. */
  function Dispose(s: Stack, driver: Driver, node: nat, v: Verdict, buf: nat): (Stack, bool) {
    match v
    case Hop(i, target, packet) => ToArp(s, driver, node, target, A.Packet(buf, i, packet))
    case _ => (s, false)
  }

  /** alloc_skb, the headers, and ip_output: the state, the result, and the buffer's number. */
  function SendNew(setup: Setup, s: Stack, driver: Driver, node: nat, forced: Option<nat>, dst: u32, proto: u8, payload: bytes)
    : (Stack, bool, nat)
    requires 20 + |payload| < 0x1_0000
  {
    var v := Output(setup.topo, setup.routes(node), node, forced, dst, proto, payload);
    var (s', ok) := Dispose(s.(next := s.next + 1), driver, node, v, s.next);
    (s', ok, s.next)
  }

  /** Neither tcp_out nor udp_out frees the buffer when ip_output fails, tcp.c:210 and udp.c:45. */
  function SendOrLeak(setup: Setup, s: Stack, driver: Driver, node: nat, intf: nat, dst: u32, proto: u8, payload: bytes): Stack
    requires 20 + |payload| < 0x1_0000
  {
    var (s', ok, buf) := SendNew(setup, s, driver, node, Some(intf), dst, proto, payload);
    if ok then s' else Leak(s', buf)
  }

  /** An established connection consumes a RST or FIN in sequence without queueing its buffer, tcp.c:112-116. */
  predicate Discards(t: T.Tcp, d: T.Target, seg: Segment) {
    d.Existing? && d.c < |t.conns| && t.conns[d.c].phase == T.Estab && seg.seqNo == t.conns[d.c].rcvNxt
    && (seg.flags.rst || seg.flags.fin)
  }

  /** The step calls tcp_out: to answer a SYN, to close a connection, or for tcp_send. */
  predicate CallsTcpOut(t: T.Tcp, e: TS.Event) {
    match e
    case Arrive(intf, srcIp, seg, _) =>
      var d := T.Dispatch(t, intf, srcIp, seg);
      d.Listener? || Discards(t, d, seg)
    case SendTo(fd, _, _) =>
      var c := T.ConnOf(t, fd);
      c != None && t.conns[c.value].phase == T.Estab && t.conns[c.value].parent < |t.socks|
    case _ => false
  }

  /**
   The buffer of tcp_out, tcp.c:184-211, if it was called: lost when the window check fails, given to
   ip_output otherwise.
   */
  function SendSegment(setup: Setup, s: Stack, driver: Driver, called: bool, out: Option<T.Emission>): Stack
    requires out != None ==> |out.value.seg.payload| <= T.MAX_TCP_PAYLOAD
  {
    if !called then s
    else if out == None || out.value.conn >= |s.tcp.conns| || s.tcp.conns[out.value.conn].parent >= |s.tcp.socks| then
      Leak(s.(next := s.next + 1), s.next)
    else
      var conn := s.tcp.conns[out.value.conn];
      var sock := s.tcp.socks[conn.parent];
      SendOrLeak(setup, s, driver, setup.topo.cfg(sock.intf).node, sock.intf, conn.remoteIp, IP_PROTO_TCP,
                 FillTcpCksum(Encode(out.value.seg), sock.localIp, conn.remoteIp))
  }

  // ---------------------------------------------------------------- receiving

  /** pkt_receive, comm.c:80-89, and ethernet_input_qualify, ethernet.c:9-15: the stub switch takes nothing. */
  predicate Qualifies(setup: Setup, intf: nat, f: bytes) {
    && setup.topo.cfg(intf).configured && |f| >= 14
    && (f[0..6] == setup.topo.cfg(intf).mac || f[0..6] == BROADCAST)
  }

  /** A local packet holds the transport header that it announces. */
  predicate HoldsTransport(setup: Setup, intf: nat, b: bytes)
    requires WholeHeader(b)
  {
    IsIpLocal(setup.topo, setup.topo.cfg(intf).node, DstIp(b)) ==>
      (b[9] == IP_PROTO_TCP ==> |b| >= 40) && (b[9] == IP_PROTO_UDP ==> |b| >= 28)
  }

  /**
   A frame within the receive buffer, comm.h:11-12, that holds its IP header, and its transport header
   if it is for this node.
   */
  predicate LongEnough(setup: Setup, intf: nat, f: bytes) {
    && |f| <= 2044
    && (Qualifies(setup, intf, f) && Load16(f, 12) == Htons(ETH_PROTO_IP) ==>
          WholeHeader(f[14..]) && HoldsTransport(setup, intf, f[14..]))
  }

  /** icmp_input, icmp.c:52-71; icmp_out frees its own buffer when ip_output fails. */
  function IcmpInput(setup: Setup, s: Stack, driver: Driver, intf: nat, b: bytes, buf: nat): (Stack, bool)
    requires 20 <= |b| <= 2030
  {
    if |b| < 24 then (s, false)
    else if b[20] == 8 && b[21] == 0 then
      var (s', ok, reply) := SendNew(setup, s, driver, setup.topo.cfg(intf).node, None, Load32(b, 12),
                                     IP_PROTO_ICMP, IcmpMessage(0, 0, b[24..]));
      (FreeSkb(if ok then s' else FreeSkb(s', reply), buf), true)
    else (FreeSkb(s, buf), true)
  }

  /** The segment in a packet, as `tcp_input` reads it. */
  function Arrival(intf: nat, b: bytes, buf: nat): TS.Event
    requires |b| >= 40
  {
    TS.Arrive(intf, Load32(b, 12), Decode(b[20..]), buf)
  }

  function TcpInput(setup: Setup, s: Stack, driver: Driver, intf: nat, b: bytes, buf: nat): (Stack, bool)
    requires |b| >= 40
  {
    var e := Arrival(intf, b, buf);
    var r := T.Input(s.tcp, e.intf, e.srcIp, e.seg, buf);
    var s' := SendSegment(setup, s.(tcp := r.t), driver, CallsTcpOut(s.tcp, e), r.out);
    (if Discards(s.tcp, T.Dispatch(s.tcp, e.intf, e.srcIp, e.seg), e.seg) then Leak(s', buf) else s', r.consumed)
  }

  function UdpInput(s: Stack, intf: nat, b: bytes, buf: nat): (Stack, bool)
    requires |b| >= 28
  {
    var (u, ok) := U.Input(s.udp, intf, UF.DestPort(b), UF.ReceivedDatagram(b, buf));
    (s.(udp := u), ok)
  }

  /** ip_input, ip.c:14-34. */
  function IpInput(setup: Setup, s: Stack, driver: Driver, intf: nat, b: bytes, buf: nat): (Stack, bool)
    requires 20 <= |b| <= 2030
    requires (b[9] == IP_PROTO_TCP ==> |b| >= 40) && (b[9] == IP_PROTO_UDP ==> |b| >= 28)
  {
    if b[9] == IP_PROTO_ICMP then IcmpInput(setup, s, driver, intf, b, buf)
    else if b[9] == IP_PROTO_TCP then TcpInput(setup, s, driver, intf, b, buf)
    else if b[9] == IP_PROTO_UDP then UdpInput(s, intf, b, buf)
    else (s, false)
  }

  /** ip_preroute, ip.c:36-58. */
  function IpPreroute(setup: Setup, s: Stack, driver: Driver, intf: nat, b: bytes, buf: nat): (Stack, bool)
    requires WholeHeader(b) && |b| <= 2030 && HoldsTransport(setup, intf, b)
  {
    var node := setup.topo.cfg(intf).node;
    if IsIpLocal(setup.topo, node, DstIp(b)) then IpInput(setup, s, driver, intf, b, buf)
    else Dispose(s, driver, node, Forward(setup.topo, setup.routes(node), node, setup.forwarding, b), buf)
  }

  /** The frames of a flushed ARP entry: each buffer is freed by the driver or by arp.c:100-101. */
  function FreeAll(s: Stack, sent: seq<A.Output>): Stack
    decreases |sent|
  {
    if sent == [] then s
    else FreeAll(if sent[0].Data? then FreeSkb(s, sent[0].p.id) else s, sent[1..])
  }

  /** arp_input, arp.c:8-25: a consumed message is freed here. */
  function ArpInput(setup: Setup, s: Stack, driver: Driver, intf: nat, p: bytes, buf: nat): (Stack, bool) {
    var node := setup.topo.cfg(intf).node;
    var (o, ok) := A.Input(setup.topo.cfg, ArpOf(s, node), intf, p);
    if !ok then (s, false)
    else
      var s' := FreeAll(SetArp(s, node, o.table), o.sent);
      (FreeSkb(if |o.sent| == 1 && o.sent[0].Reply? then SendReply(s', driver) else s', buf), true)
  }

  /** pkt_receive and ethernet_input, comm.c:80-89 and ethernet.c:17-38. */
  function EthernetInput(setup: Setup, s: Stack, driver: Driver, intf: nat, f: bytes, buf: nat): (Stack, bool)
    requires LongEnough(setup, intf, f)
  {
    if !Qualifies(setup, intf, f) then (s, false)
    else if Load16(f, 12) == Htons(ETH_PROTO_ARP) then ArpInput(setup, s, driver, intf, f[14..], buf)
    else if Load16(f, 12) == Htons(ETH_PROTO_IP) then IpPreroute(setup, s, driver, intf, f[14..], buf)
    else (s, false)
  }

  /** The receive loop, comm.c:141-156: what the chain does not consume is freed. */
  function Receive(setup: Setup, s: Stack, driver: Driver, intf: nat, f: bytes): Stack
    requires LongEnough(setup, intf, f)
  {
    var (s', ok) := EthernetInput(setup, s.(next := s.next + 1), driver, intf, f, s.next);
    if ok then s' else FreeSkb(s', s.next)
  }

  // ---------------------------------------------------------------- the API

  function FreeIf(s: Stack, buf: Option<nat>): Stack {
    if buf == None then s else FreeSkb(s, buf.value)
  }

  /** A TCP call of the application. */
  function TcpCall(setup: Setup, s: Stack, driver: Driver, e: TS.Event): Stack
    requires !e.Arrive?
  {
    var r := TS.Step(setup.topo, s.tcp, e);
    if r.out == None then SendSegment(setup, FreeIf(s.(tcp := r.t), r.freed), driver, CallsTcpOut(s.tcp, e), None)
    else
      EmissionIsSmall(setup.topo, s.tcp, e);
      SendSegment(setup, FreeIf(s.(tcp := r.t), r.freed), driver, CallsTcpOut(s.tcp, e), r.out)
  }

  function DatagramId(d: U.Datagram): multiset<nat> { multiset{d.id} }

  /** The buffers udp_close loses, udp.c:62-72: it frees the socket but not what is queued there. */
  function LostByClose(u: U.Udp, e: U.Event): multiset<nat> {
    if e.CloseSocket? && U.SockOf(u, e.fd) != None then M.Sum(u.socks[U.SockOf(u, e.fd).value].rx, DatagramId) else multiset{}
  }

  /** A UDP call of the application other than udp_sendto. */
  function UdpCall(setup: Setup, s: Stack, e: U.Event): Stack
    requires !e.Arrive?
  {
    var r := U.Step(setup.topo, s.udp, e);
    FreeIf(s.(udp := r.u, leaked := s.leaked + LostByClose(s.udp, e)),
           if r.read == None then None else r.read.value.freed)
  }

  /** udp_sendto, udp.c:115-126 and 33-46, with its clipped payload. */
  function UdpSend(setup: Setup, s: Stack, driver: Driver, fd: int, buff: bytes, ip: u32, port: u16): Stack {
    var u := U.SockOf(s.udp, fd);
    if u == None || !s.udp.socks[u.value].bound then s
    else
      var sock := s.udp.socks[u.value];
      var payload := buff[..Min(|buff|, 1446)];
      SendOrLeak(setup, s, driver, setup.topo.cfg(sock.intf).node, sock.intf, ip, IP_PROTO_UDP,
                 UdpHeader(sock.localPort, port, 8 + |payload|) + payload)
  }

  // ---------------------------------------------------------------- events and runs

  datatype Event =
    | Frame(intf: nat, f: bytes)
    | CallTcp(t: TS.Event)
    | CallUdp(u: U.Event)
    | SendUdp(fd: int, buff: bytes, ip: u32, port: u16)

  /** Received frames hold their headers; the other events are calls. */
  predicate WellFormed(setup: Setup, e: Event) {
    match e
    case Frame(intf, f) => LongEnough(setup, intf, f)
    case CallTcp(t) => !t.Arrive?
    case CallUdp(u) => !u.Arrive?
    case SendUdp(_, _, _, _) => true
  }

  /** A frame that brings an IP packet to this node. */
  predicate IsLocalIp(setup: Setup, intf: nat, f: bytes, proto: u8)
    requires LongEnough(setup, intf, f)
  {
    && Qualifies(setup, intf, f) && Load16(f, 12) == Htons(ETH_PROTO_IP)
    && IsIpLocal(setup.topo, setup.topo.cfg(intf).node, DstIp(f[14..])) && f[14..][9] == proto
  }

  /** A packet given to ip_postroute: on which node, what that decides, and its buffer. */
  datatype Handed = Handed(node: nat, verdict: Verdict, buf: nat)

  /** The segment that a TCP step emitted, tcp.c:209-210. */
  function SegmentHanded(setup: Setup, t: T.Tcp, out: Option<T.Emission>, buf: nat): Option<Handed>
    requires out != None ==> |out.value.seg.payload| <= T.MAX_TCP_PAYLOAD
  {
    if out == None || out.value.conn >= |t.conns| || t.conns[out.value.conn].parent >= |t.socks| then None
    else
      var conn := t.conns[out.value.conn];
      var sock := t.socks[conn.parent];
      var node := setup.topo.cfg(sock.intf).node;
      Some(Handed(node, Output(setup.topo, setup.routes(node), node, Some(sock.intf), conn.remoteIp, IP_PROTO_TCP,
                               FillTcpCksum(Encode(out.value.seg), sock.localIp, conn.remoteIp)), buf))
  }

  /** The one packet, if any, that an event gives to ip_postroute: forwarded, an answer, or sent by a call. */
  function HandedBy(setup: Setup, s: Stack, e: Event): Option<Handed>
    requires WellFormed(setup, e)
  {
    match e
    case Frame(intf, f) =>
      if Qualifies(setup, intf, f) && Load16(f, 12) == Htons(ETH_PROTO_IP) then HandedByPacket(setup, s, intf, f[14..])
      else None
    case CallTcp(t) =>
      var r := TS.Step(setup.topo, s.tcp, t);
      if r.out == None then None
      else
        EmissionIsSmall(setup.topo, s.tcp, t);
        SegmentHanded(setup, r.t, r.out, s.next)
    case CallUdp(_) => None
    case SendUdp(fd, buff, ip, port) =>
      var u := U.SockOf(s.udp, fd);
      if u == None || !s.udp.socks[u.value].bound then None
      else
        var sock := s.udp.socks[u.value];
        var payload := buff[..Min(|buff|, 1446)];
        var node := setup.topo.cfg(sock.intf).node;
        Some(Handed(node, Output(setup.topo, setup.routes(node), node, Some(sock.intf), ip, IP_PROTO_UDP,
                                 UdpHeader(sock.localPort, port, 8 + |payload|) + payload), s.next))
  }

  function HandedByPacket(setup: Setup, s: Stack, intf: nat, b: bytes): Option<Handed>
    requires WholeHeader(b) && |b| <= 2030 && HoldsTransport(setup, intf, b)
  {
    var node := setup.topo.cfg(intf).node;
    if !IsIpLocal(setup.topo, node, DstIp(b)) then
      Some(Handed(node, Forward(setup.topo, setup.routes(node), node, setup.forwarding, b), s.next))
    else if b[9] == IP_PROTO_ICMP && |b| >= 24 && b[20] == 8 && b[21] == 0 then
      Some(Handed(node, Output(setup.topo, setup.routes(node), node, None, Load32(b, 12), IP_PROTO_ICMP,
                               IcmpMessage(0, 0, b[24..])), s.next + 1))
    else if b[9] == IP_PROTO_TCP then
      var e := Arrival(intf, b, s.next);
      var r := T.Input(s.tcp, intf, e.srcIp, e.seg, s.next);
      SegmentHanded(setup, r.t, r.out, s.next + 1)
    else None
  }

  /**
   What may happen in a state.  No packet is sent to an address of the node itself: local delivery from
   ip_postroute, ip.c:88-91, is not modelled.  And no TCP socket is closed while it has connections.
   */
  predicate Possible(setup: Setup, s: Stack, e: Event) {
    && WellFormed(setup, e)
    && (e.CallTcp? ==> TS.Allowed(s.tcp, e.t))
    && (HandedBy(setup, s, e) != None ==> !HandedBy(setup, s, e).value.verdict.Local?)
  }

  function Step(setup: Setup, s: Stack, driver: Driver, e: Event): Stack
    requires Possible(setup, s, e)
  {
    match e
    case Frame(intf, f) => Receive(setup, s, driver, intf, f)
    case CallTcp(t) => TcpCall(setup, s, driver, t)
    case CallUdp(u) => UdpCall(setup, s, u)
    case SendUdp(fd, buff, ip, port) => UdpSend(setup, s, driver, fd, buff, ip, port)
  }

  /** `nodes` nodes with nothing in any table. */
  function Start(nodes: nat): Stack {
    Stack(seq(nodes, _ => []), T.Init(), U.Init(), multiset{}, multiset{}, 0)
  }

  /** Each event is possible where it happens. */
  predicate Legal(setup: Setup, nodes: nat, driver: Driver, events: seq<Event>)
    decreases |events|, 0
  {
    events == [] ||
    (Legal(setup, nodes, driver, events[..|events| - 1])
     && Possible(setup, Run(setup, nodes, driver, events[..|events| - 1]), events[|events| - 1]))
  }

  function Run(setup: Setup, nodes: nat, driver: Driver, events: seq<Event>): Stack
    requires Legal(setup, nodes, driver, events)
    decreases |events|, 1
  {
    if events == [] then Start(nodes)
    else Step(setup, Run(setup, nodes, driver, events[..|events| - 1]), driver, events[|events| - 1])
  }
}
