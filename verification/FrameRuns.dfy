/**
 Runs of the whole stack, over byte frames and calls, seen layer by layer.  What TCP, UDP and each node's
 ARP table go through in such a run is a run of that layer alone, so that the theorems about those hold of
 frames.
 */
module FrameRuns {
  import opened Bytes
  import opened Wire
  import opened TcpFormat
  import opened Nodes
  import A = Arp
  import R = ArpRuns
  import opened Ip
  import T = Tcp
  import TS = TcpState
  import TR = TcpRuns
  import TT = TcpTheorems
  import U = Udp
  import UF = UdpFormat
  import UR = UdpRuns
  import opened TcpOverIp
  import opened Stack
  import O = Ownership

  // ---------------------------------------------------------------- what a step does to each layer

  /** The tables after a packet was given to ip_postroute. */
  function ArpAfter(arp: seq<seq<A.Entry>>, h: Option<Handed>): seq<seq<A.Entry>> {
    if h == None || !h.value.verdict.Hop? || h.value.node >= |arp| then arp
    else
      var v := h.value.verdict;
      arp[h.value.node := A.Postroute(arp[h.value.node], v.target, A.Packet(h.value.buf, v.intf, v.packet)).table]
  }

  /** The two states have the same TCP and UDP layer, and the tables differ by one packet. */
  predicate Handing(s: Stack, s': Stack, h: Option<Handed>) {
    s'.tcp == s.tcp && s'.udp == s.udp && s'.arp == ArpAfter(s.arp, h)
  }

  lemma DisposeHands(s: Stack, driver: Driver, node: nat, v: Verdict, buf: nat)
    ensures Handing(s, Dispose(s, driver, node, v, buf).0, Some(Handed(node, v, buf)))
  {
    hide A.Postroute;
  }

  lemma SendNewHands(setup: Setup, s: Stack, driver: Driver, node: nat, forced: Option<nat>, dst: u32, proto: u8, payload: bytes)
    requires 20 + |payload| < 0x1_0000
    ensures var v := Output(setup.topo, setup.routes(node), node, forced, dst, proto, payload);
            Handing(s, SendNew(setup, s, driver, node, forced, dst, proto, payload).0, Some(Handed(node, v, s.next)))
  {
    hide Dispose, Output;
    var v := Output(setup.topo, setup.routes(node), node, forced, dst, proto, payload);
    DisposeHands(s.(next := s.next + 1), driver, node, v, s.next);
  }

  lemma SendSegmentHands(setup: Setup, s: Stack, driver: Driver, called: bool, out: Option<T.Emission>)
    requires out != None ==> called && |out.value.seg.payload| <= T.MAX_TCP_PAYLOAD
    ensures Handing(s, SendSegment(setup, s, driver, called, out), SegmentHanded(setup, s.tcp, out, s.next))
  {
    hide SendNew, Output, FillTcpCksum, Encode;
    if out != None && out.value.conn < |s.tcp.conns| && s.tcp.conns[out.value.conn].parent < |s.tcp.socks| {
      var conn := s.tcp.conns[out.value.conn];
      var sock := s.tcp.socks[conn.parent];
      SendNewHands(setup, s, driver, setup.topo.cfg(sock.intf).node, Some(sock.intf), conn.remoteIp, IP_PROTO_TCP,
                   FillTcpCksum(Encode(out.value.seg), sock.localIp, conn.remoteIp));
    }
  }

  lemma EmitsWhenCalled(topo: Topology, t: T.Tcp, e: TS.Event)
    ensures TS.Step(topo, t, e).out != None ==> CallsTcpOut(t, e)
  {
    hide T.Dispatch, T.TcpOut, T.ReadOldest, T.FirstEstab;
  }

  lemma {:induction false} FreeAllKeeps(s: Stack, sent: seq<A.Output>)
    ensures var s' := FreeAll(s, sent); s'.arp == s.arp && s'.tcp == s.tcp && s'.udp == s.udp
    decreases |sent|
  {
    if sent != [] {
      FreeAllKeeps(if sent[0].Data? then FreeSkb(s, sent[0].p.id) else s, sent[1..]);
    }
  }

  lemma ArpInputSteps(setup: Setup, s: Stack, driver: Driver, intf: nat, p: bytes, buf: nat)
    requires setup.topo.cfg(intf).node < |s.arp|
    ensures var s' := ArpInput(setup, s, driver, intf, p, buf).0;
            var node := setup.topo.cfg(intf).node;
            && s'.tcp == s.tcp && s'.udp == s.udp
            && s'.arp == s.arp[node := A.Input(setup.topo.cfg, s.arp[node], intf, p).0.table]
  {
    hide FreeAll, A.Opcode, A.TargetProto, A.SenderProto, A.SenderHw, A.UpdateFromReply, Htons;
    var node := setup.topo.cfg(intf).node;
    var o := A.Input(setup.topo.cfg, ArpOf(s, node), intf, p).0;
    FreeAllKeeps(SetArp(s, node, o.table), o.sent);
  }

  /** What a local packet means to TCP, and to UDP. */
  function TcpEvent(setup: Setup, s: Stack, e: Event): Option<TS.Event>
    requires WellFormed(setup, e)
  {
    match e
    case Frame(intf, f) => if IsLocalIp(setup, intf, f, IP_PROTO_TCP) then Some(Arrival(intf, f[14..], s.next)) else None
    case CallTcp(t) => Some(t)
    case _ => None
  }

  function UdpEvent(setup: Setup, s: Stack, e: Event): Option<U.Event>
    requires WellFormed(setup, e)
  {
    match e
    case Frame(intf, f) =>
      if IsLocalIp(setup, intf, f, IP_PROTO_UDP) then
        Some(U.Arrive(intf, UF.DestPort(f[14..]), UF.ReceivedDatagram(f[14..], s.next)))
      else None
    case CallUdp(u) => Some(u)
    case _ => None
  }

  /** An ARP message for a node. */
  predicate IsArp(setup: Setup, e: Event) {
    e.Frame? && Qualifies(setup, e.intf, e.f) && Load16(e.f, 12) == Htons(ETH_PROTO_ARP)
  }

  function ArpEvent(setup: Setup, s: Stack, e: Event, node: nat): Option<R.Event>
    requires WellFormed(setup, e)
  {
    if IsArp(setup, e) then
      if setup.topo.cfg(e.intf).node == node then Some(R.Message(e.intf, e.f[14..])) else None
    else
      match HandedBy(setup, s, e)
      case Some(Handed(n, Hop(i, target, packet), buf)) =>
        if n == node then Some(R.Post(target, A.Packet(buf, i, packet))) else None
      case _ => None
  }

  function TcpAfter(setup: Setup, s: Stack, e: Event): T.Tcp
    requires WellFormed(setup, e)
  {
    var t := TcpEvent(setup, s, e);
    if t == None then s.tcp else TS.Step(setup.topo, s.tcp, t.value).t
  }

  function UdpAfter(setup: Setup, s: Stack, e: Event): U.Udp
    requires WellFormed(setup, e)
  {
    var u := UdpEvent(setup, s, e);
    if u == None then s.udp else U.Step(setup.topo, s.udp, u.value).u
  }

  /** A packet for the stack goes to one layer, and at most one answer or forwarded packet comes of it. */
  lemma IpPrerouteSteps(setup: Setup, s: Stack, driver: Driver, intf: nat, b: bytes)
    requires WholeHeader(b) && |b| <= 2030 && HoldsTransport(setup, intf, b)
    ensures var s' := IpPreroute(setup, s.(next := s.next + 1), driver, intf, b, s.next).0;
            var here := IsIpLocal(setup.topo, setup.topo.cfg(intf).node, DstIp(b));
            && s'.arp == ArpAfter(s.arp, HandedByPacket(setup, s, intf, b))
            && s'.tcp == (if here && b[9] == IP_PROTO_TCP then TS.Step(setup.topo, s.tcp, Arrival(intf, b, s.next)).t else s.tcp)
            && s'.udp == (if here && b[9] == IP_PROTO_UDP
                          then U.Step(setup.topo, s.udp, U.Arrive(intf, UF.DestPort(b), UF.ReceivedDatagram(b, s.next))).u
                          else s.udp)
  {
    hide T.Input, T.Dispatch, Discards, CallsTcpOut, SendSegment, SendNew, Dispose, Forward, Output, SegmentHanded, ArpAfter,
         Decode, Load32, IsIpLocal, DstIp, IcmpMessage, U.Input, UF.DestPort, UF.ReceivedDatagram;
    var node, s1 := setup.topo.cfg(intf).node, s.(next := s.next + 1);
    ArpUnchanged(s.arp);
    if !IsIpLocal(setup.topo, node, DstIp(b)) {
      DisposeHands(s1, driver, node, Forward(setup.topo, setup.routes(node), node, setup.forwarding, b), s.next);
    } else if b[9] == IP_PROTO_ICMP {
      if |b| >= 24 && b[20] == 8 && b[21] == 0 {
        SendNewHands(setup, s1, driver, node, None, Load32(b, 12), IP_PROTO_ICMP, IcmpMessage(0, 0, b[24..]));
      }
    } else if b[9] == IP_PROTO_TCP {
      LocalSegmentSteps(setup, s, driver, intf, b);
    }
  }

  lemma ArpUnchanged(arp: seq<seq<A.Entry>>)
    ensures ArpAfter(arp, None) == arp
  {
  }

  lemma LocalSegmentSteps(setup: Setup, s: Stack, driver: Driver, intf: nat, b: bytes)
    requires |b| >= 40
    ensures var e := Arrival(intf, b, s.next);
            var r := T.Input(s.tcp, intf, e.srcIp, e.seg, s.next);
            var s' := TcpInput(setup, s.(next := s.next + 1), driver, intf, b, s.next).0;
            && (r.out != None ==> r.out.value.seg.payload == [])
            && s'.tcp == TS.Step(setup.topo, s.tcp, e).t && s'.udp == s.udp
            && s'.arp == ArpAfter(s.arp, SegmentHanded(setup, r.t, r.out, s.next + 1))
  {
    hide T.Input, T.Dispatch, Discards, CallsTcpOut, SendSegment, SegmentHanded, ArpAfter, Decode, Load32;
    var e := Arrival(intf, b, s.next);
    var r := T.Input(s.tcp, intf, e.srcIp, e.seg, s.next);
    O.EmissionOfInput(s.tcp, intf, e.srcIp, e.seg, s.next);
    EmitsWhenCalled(setup.topo, s.tcp, e);
    SendSegmentHands(setup, s.(next := s.next + 1, tcp := r.t), driver, CallsTcpOut(s.tcp, e), r.out);
  }

  lemma ReceiveSteps(setup: Setup, s: Stack, driver: Driver, intf: nat, f: bytes)
    requires Fits(setup, s) && LongEnough(setup, intf, f)
    ensures var e, s' := Frame(intf, f), Receive(setup, s, driver, intf, f);
            && s'.tcp == TcpAfter(setup, s, e) && s'.udp == UdpAfter(setup, s, e)
            && s'.arp == if IsArp(setup, e) then
                           s.arp[setup.topo.cfg(intf).node :=
                             A.Input(setup.topo.cfg, s.arp[setup.topo.cfg(intf).node], intf, f[14..]).0.table]
                         else ArpAfter(s.arp, HandedBy(setup, s, e))
  {
    hide ArpInput, IpPreroute, HandedByPacket, HoldsTransport, ArpAfter, A.Input, TS.Step, U.Step, Arrival,
         UF.DestPort, UF.ReceivedDatagram, Load16, Htons, IsIpLocal, DstIp;
    HtonsDistinct();
    ArpUnchanged(s.arp);
    if Qualifies(setup, intf, f) {
      ArpInputSteps(setup, s.(next := s.next + 1), driver, intf, f[14..], s.next);
      if Load16(f, 12) == Htons(ETH_PROTO_IP) {
        IpPrerouteSteps(setup, s, driver, intf, f[14..]);
      }
    }
  }

  lemma TcpCallSteps(setup: Setup, s: Stack, driver: Driver, t: TS.Event)
    requires !t.Arrive?
    ensures var s' := TcpCall(setup, s, driver, t);
            && s'.tcp == TS.Step(setup.topo, s.tcp, t).t && s'.udp == s.udp
            && s'.arp == ArpAfter(s.arp, HandedBy(setup, s, CallTcp(t)))
  {
    hide TS.Step, SendSegment, SegmentHanded, CallsTcpOut, ArpAfter;
    var r := TS.Step(setup.topo, s.tcp, t);
    ArpUnchanged(s.arp);
    EmitsWhenCalled(setup.topo, s.tcp, t);
    if r.out != None {
      EmissionIsSmall(setup.topo, s.tcp, t);
    }
    SendSegmentHands(setup, FreeIf(s.(tcp := r.t), r.freed), driver, CallsTcpOut(s.tcp, t), r.out);
    NothingHanded(setup, r.t, s.next);
  }

  lemma NothingHanded(setup: Setup, t: T.Tcp, buf: nat)
    ensures SegmentHanded(setup, t, None, buf) == None
  {
  }

  lemma UdpSendSteps(setup: Setup, s: Stack, driver: Driver, fd: int, buff: bytes, ip: u32, port: u16)
    ensures var s' := UdpSend(setup, s, driver, fd, buff, ip, port);
            Handing(s, s', HandedBy(setup, s, SendUdp(fd, buff, ip, port)))
  {
    hide SendNew, Output, UdpHeader;
    var u := U.SockOf(s.udp, fd);
    if u != None && s.udp.socks[u.value].bound {
      var sock := s.udp.socks[u.value];
      var payload := buff[..Min(|buff|, 1446)];
      SendNewHands(setup, s, driver, setup.topo.cfg(sock.intf).node, Some(sock.intf), ip, IP_PROTO_UDP,
                   UdpHeader(sock.localPort, port, 8 + |payload|) + payload);
    }
  }

  /** Every step is one step of TCP, of UDP, or of neither, and at most one of one node's ARP table. */
  lemma StepIsLayered(setup: Setup, s: Stack, driver: Driver, e: Event)
    requires Fits(setup, s) && Possible(setup, s, e)
    ensures var s' := Step(setup, s, driver, e);
            && s'.tcp == TcpAfter(setup, s, e) && s'.udp == UdpAfter(setup, s, e)
            && s'.arp == if IsArp(setup, e) then
                           s.arp[setup.topo.cfg(e.intf).node :=
                             A.Input(setup.topo.cfg, s.arp[setup.topo.cfg(e.intf).node], e.intf, e.f[14..]).0.table]
                         else ArpAfter(s.arp, HandedBy(setup, s, e))
  {
    hide Receive, TcpCall, UdpSend, TS.Step, U.Step, HandedBy, ArpAfter, A.Input, IsLocalIp, LongEnough, Qualifies;
    match e
    case Frame(intf, f) => ReceiveSteps(setup, s, driver, intf, f);
    case CallTcp(t) => TcpCallSteps(setup, s, driver, t);
    case CallUdp(u) =>
      ArpUnchanged(s.arp);
      UdpCallHandsNothing(setup, s, u);
    case SendUdp(fd, buff, ip, port) => UdpSendSteps(setup, s, driver, fd, buff, ip, port);
  }

  lemma UdpCallHandsNothing(setup: Setup, s: Stack, u: U.Event)
    requires !u.Arrive?
    ensures HandedBy(setup, s, CallUdp(u)) == None
  {
  }

  /** The table of a node after a step is that of its own ARP layer. */
  lemma TableAfterStep(setup: Setup, s: Stack, driver: Driver, e: Event, node: nat)
    requires Fits(setup, s) && Possible(setup, s, e) && node < |s.arp|
    ensures var s', x := Step(setup, s, driver, e), ArpEvent(setup, s, e, node);
            |s'.arp| == |s.arp| &&
            s'.arp[node] == if x == None then s.arp[node] else R.Apply(setup.topo.cfg, s.arp[node], x.value).table
  {
    hide Step, HandedBy, A.Input, A.Postroute, TcpAfter, UdpAfter, IsArp;
    StepIsLayered(setup, s, driver, e);
    ArpFrames(setup, e);
  }

  lemma ArpFrames(setup: Setup, e: Event)
    ensures IsArp(setup, e) ==> e.Frame? && |e.f| >= 14
  {
  }

  // ---------------------------------------------------------------- runs of one layer

  function TcpEvents(setup: Setup, nodes: nat, driver: Driver, events: seq<Event>): seq<TS.Event>
    requires Legal(setup, nodes, driver, events)
  {
    if events == [] then []
    else
      var n := |events| - 1;
      var x := TcpEvent(setup, Run(setup, nodes, driver, events[..n]), events[n]);
      TcpEvents(setup, nodes, driver, events[..n]) + (if x == None then [] else [x.value])
  }

  function UdpEvents(setup: Setup, nodes: nat, driver: Driver, events: seq<Event>): seq<U.Event>
    requires Legal(setup, nodes, driver, events)
  {
    if events == [] then []
    else
      var n := |events| - 1;
      var x := UdpEvent(setup, Run(setup, nodes, driver, events[..n]), events[n]);
      UdpEvents(setup, nodes, driver, events[..n]) + (if x == None then [] else [x.value])
  }

  function ArpEvents(setup: Setup, nodes: nat, driver: Driver, events: seq<Event>, node: nat): seq<R.Event>
    requires Legal(setup, nodes, driver, events)
  {
    if events == [] then []
    else
      var n := |events| - 1;
      var x := ArpEvent(setup, Run(setup, nodes, driver, events[..n]), events[n], node);
      ArpEvents(setup, nodes, driver, events[..n], node) + (if x == None then [] else [x.value])
  }

  ghost predicate NodesFit(setup: Setup, nodes: nat) {
    forall i: nat :: setup.topo.cfg(i).node < nodes
  }

  lemma LegalPrefix(setup: Setup, nodes: nat, driver: Driver, events: seq<Event>)
    requires events != [] && Legal(setup, nodes, driver, events)
    ensures var n := |events| - 1;
            && Legal(setup, nodes, driver, events[..n])
            && var s := Run(setup, nodes, driver, events[..n]);
               Possible(setup, s, events[n]) && Run(setup, nodes, driver, events) == Step(setup, s, driver, events[n])
  {
  }

  lemma TcpRunAppend(topo: Topology, run: seq<TS.Event>, e: TS.Event)
    ensures TR.Run(topo, run + [e]) == TR.WorldStep(topo, TR.Run(topo, run), e)
    ensures TR.Legal(topo, run + [e]) <==> TR.Legal(topo, run) && TS.Allowed(TR.Run(topo, run).tcp, e)
  {
    assert (run + [e])[..|run|] == run;
  }

  /** What TCP goes through in a run of the stack is a legal run of TCP. */
  lemma {:induction false} TcpOfRun(setup: Setup, nodes: nat, driver: Driver, events: seq<Event>)
    requires Legal(setup, nodes, driver, events) && NodesFit(setup, nodes)
    ensures var run := TcpEvents(setup, nodes, driver, events);
            TR.Legal(setup.topo, run) && TR.Run(setup.topo, run).tcp == Run(setup, nodes, driver, events).tcp
  {
    hide Legal, Run, Step, Possible, TcpEvent, TR.Run, TR.Legal, TS.Step;
    if events == [] {
      Starts(setup, nodes, driver);
    } else {
      var n := |events| - 1;
      LegalPrefix(setup, nodes, driver, events);
      TcpOfRun(setup, nodes, driver, events[..n]);
      var s, run := Run(setup, nodes, driver, events[..n]), TcpEvents(setup, nodes, driver, events[..n]);
      RunFits(setup, nodes, driver, events[..n]);
      StepIsLayered(setup, s, driver, events[n]);
      var x := TcpEvent(setup, s, events[n]);
      if x != None {
        TcpRunAppend(setup.topo, run, x.value);
        EventAllowed(setup, s, events[n]);
      } else {
        assert run + [] == run;
      }
    }
  }

  lemma Starts(setup: Setup, nodes: nat, driver: Driver)
    ensures Legal(setup, nodes, driver, []) && Run(setup, nodes, driver, []) == Start(nodes)
    ensures TR.Legal(setup.topo, []) && TR.Run(setup.topo, []).tcp == T.Init()
  {
  }

  lemma EventAllowed(setup: Setup, s: Stack, e: Event)
    requires Possible(setup, s, e) && TcpEvent(setup, s, e) != None
    ensures TS.Allowed(s.tcp, TcpEvent(setup, s, e).value)
  {
    hide HandedBy;
  }

  lemma RunFits(setup: Setup, nodes: nat, driver: Driver, events: seq<Event>)
    requires Legal(setup, nodes, driver, events) && NodesFit(setup, nodes)
    ensures Fits(setup, Run(setup, nodes, driver, events)) && |Run(setup, nodes, driver, events).arp| == nodes
  {
    hide Legal, Run;
    O.EveryBufferOnce(setup, nodes, driver, events);
  }

  /** What UDP goes through in a run of the stack is a run of UDP. */
  lemma {:induction false} UdpOfRun(setup: Setup, nodes: nat, driver: Driver, events: seq<Event>)
    requires Legal(setup, nodes, driver, events) && NodesFit(setup, nodes)
    ensures UR.Run(setup.topo, UdpEvents(setup, nodes, driver, events)).udp == Run(setup, nodes, driver, events).udp
  {
    hide Legal, Run, Step, Possible, UdpEvent, UR.Run, U.Step;
    if events == [] {
      UdpStarts(setup, nodes, driver);
    } else {
      var n := |events| - 1;
      LegalPrefix(setup, nodes, driver, events);
      UdpOfRun(setup, nodes, driver, events[..n]);
      var s, run := Run(setup, nodes, driver, events[..n]), UdpEvents(setup, nodes, driver, events[..n]);
      RunFits(setup, nodes, driver, events[..n]);
      StepIsLayered(setup, s, driver, events[n]);
      var x := UdpEvent(setup, s, events[n]);
      if x != None {
        UdpRunAppend(setup.topo, run, x.value);
      } else {
        assert run + [] == run;
      }
    }
  }

  lemma UdpStarts(setup: Setup, nodes: nat, driver: Driver)
    ensures Legal(setup, nodes, driver, []) && Run(setup, nodes, driver, []).udp == UR.Run(setup.topo, []).udp
  {
  }

  lemma UdpRunAppend(topo: Topology, run: seq<U.Event>, e: U.Event)
    ensures UR.Run(topo, run + [e]) == UR.WorldStep(topo, UR.Run(topo, run), e)
  {
    assert (run + [e])[..|run|] == run;
  }

  /** What a node's ARP table goes through in a run of the stack is a run of that table. */
  lemma {:induction false} ArpOfRun(setup: Setup, nodes: nat, driver: Driver, events: seq<Event>, node: nat)
    requires Legal(setup, nodes, driver, events) && NodesFit(setup, nodes) && node < nodes
    ensures |Run(setup, nodes, driver, events).arp| == nodes
    ensures R.Run(setup.topo.cfg, ArpEvents(setup, nodes, driver, events, node)).table
         == Run(setup, nodes, driver, events).arp[node]
  {
    hide Legal, Run, Step, Possible, ArpEvent, R.Run, R.Apply;
    RunFits(setup, nodes, driver, events);
    if events == [] {
      ArpStarts(setup, nodes, driver, node);
    } else {
      var n := |events| - 1;
      LegalPrefix(setup, nodes, driver, events);
      ArpOfRun(setup, nodes, driver, events[..n], node);
      var s, run := Run(setup, nodes, driver, events[..n]), ArpEvents(setup, nodes, driver, events[..n], node);
      RunFits(setup, nodes, driver, events[..n]);
      TableAfterStep(setup, s, driver, events[n], node);
      var x := ArpEvent(setup, s, events[n], node);
      if x != None {
        ArpRunAppend(setup.topo.cfg, run, x.value);
      } else {
        assert run + [] == run;
      }
    }
  }

  lemma ArpStarts(setup: Setup, nodes: nat, driver: Driver, node: nat)
    requires node < nodes
    ensures Legal(setup, nodes, driver, []) && Run(setup, nodes, driver, []).arp[node] == R.Run(setup.topo.cfg, []).table
  {
  }

  lemma ArpRunAppend(cfg: Config, run: seq<R.Event>, e: R.Event)
    ensures R.Run(cfg, run + [e]) == R.Step(cfg, R.Run(cfg, run), e)
  {
    assert (run + [e])[..|run|] == run;
  }

  // ---------------------------------------------------------------- the theorems on frames

  /** The frame is what the driver of a peer put on the wire for this segment. */
  predicate CarriesSegment(f: bytes, sent: Segment, src: u32, dst: u32, srcMac: Mac, dstMac: Mac) {
    40 + |sent.payload| <= 0xFFFF && f == SegmentFrame(sent, src, dst, srcMac, dstMac)
  }

  /**
   A frame that reaches an existing connection is one that its peer sent, of a segment `sent` of its
   stream, and if that is taken for data it has at least six bytes.
   */
  ghost predicate FromPeer(setup: Setup, s: Stack, w: TR.World, e: Event, sent: Segment, streams: nat -> bytes)
    requires WellFormed(setup, e) && |w.hist| == |s.tcp.conns|
  {
    e.Frame? && IsLocalIp(setup, e.intf, e.f, IP_PROTO_TCP) ==>
      var a := Arrival(e.intf, e.f[14..], s.next);
      match T.Dispatch(s.tcp, a.intf, a.srcIp, a.seg)
      case Existing(_, c) =>
        && (exists src, dst, srcMac, dstMac :: CarriesSegment(e.f, sent, src, dst, srcMac, dstMac))
        && TT.Conforms(sent, w.hist[c].isn, streams(c))
        && (TT.InSequence(s.tcp.conns[c], sent) && !sent.flags.rst && !sent.flags.fin ==> |sent.payload| >= 6)
      case _ => true
  }

  /** `sent(i)` is the segment in the frame that event `i` brings, if it brings one. */
  ghost predicate AllFromPeers(setup: Setup, nodes: nat, driver: Driver, events: seq<Event>, sent: nat -> Segment, streams: nat -> bytes)
    requires Legal(setup, nodes, driver, events) && NodesFit(setup, nodes)
  {
    if events == [] then true
    else
      var n := |events| - 1;
      var run := TcpEvents(setup, nodes, driver, events[..n]);
      TcpOfRun(setup, nodes, driver, events[..n]);
      && AllFromPeers(setup, nodes, driver, events[..n], sent, streams)
      && FromPeer(setup, Run(setup, nodes, driver, events[..n]), TR.Run(setup.topo, run), events[n], sent(n), streams)
  }

  /** The segments in the frames that reach TCP; a call stands for none. */
  function SentSegments(setup: Setup, nodes: nat, driver: Driver, events: seq<Event>, sent: nat -> Segment): (segs: seq<Segment>)
    requires Legal(setup, nodes, driver, events)
    ensures |segs| == |TcpEvents(setup, nodes, driver, events)|
  {
    if events == [] then []
    else
      var n := |events| - 1;
      var x := TcpEvent(setup, Run(setup, nodes, driver, events[..n]), events[n]);
      SentSegments(setup, nodes, driver, events[..n], sent) + (if x == None then [] else [sent(n)])
  }

  /** What arrives in such a frame is the segment that was sent, padded. */
  lemma FromPeerOverWire(setup: Setup, s: Stack, w: TR.World, e: Event, sent: Segment, streams: nat -> bytes)
    requires WellFormed(setup, e) && |w.hist| == |w.tcp.conns| && w.tcp == s.tcp && FromPeer(setup, s, w, e, sent, streams)
    ensures var x := TcpEvent(setup, s, e);
            x != None ==> TT.OverWire(w, x.value, sent, streams)
  {
    hide SegmentFrame, T.Dispatch, TT.Conforms, Decode, Load32, Padded;
    if e.Frame? && IsLocalIp(setup, e.intf, e.f, IP_PROTO_TCP) {
      var a := Arrival(e.intf, e.f[14..], s.next);
      if T.Dispatch(s.tcp, a.intf, a.srcIp, a.seg).Existing? {
        var src, dst, srcMac: Mac, dstMac: Mac :| CarriesSegment(e.f, sent, src, dst, srcMac, dstMac);
        SegmentOverTheWire(sent, src, dst, srcMac, dstMac);
        assert e.f[14..][20..] == e.f[34..];
      }
    }
  }

  lemma WireAppend(topo: Topology, run: seq<TS.Event>, segs: seq<Segment>, e: TS.Event, seg: Segment, streams: nat -> bytes)
    requires |segs| == |run| && TT.RunOverWire(topo, run, segs, streams)
    requires TT.OverWire(TR.Run(topo, run), e, seg, streams)
    ensures TT.RunOverWire(topo, run + [e], segs + [seg], streams)
  {
    hide TT.OverWire, TR.Run;
    assert (run + [e])[..|run|] == run && (segs + [seg])[..|run|] == segs;
  }

  lemma {:induction false} RunFromPeers(setup: Setup, nodes: nat, driver: Driver, events: seq<Event>, sent: nat -> Segment, streams: nat -> bytes)
    requires Legal(setup, nodes, driver, events) && NodesFit(setup, nodes)
    requires AllFromPeers(setup, nodes, driver, events, sent, streams)
    ensures TT.RunOverWire(setup.topo, TcpEvents(setup, nodes, driver, events), SentSegments(setup, nodes, driver, events, sent), streams)
  {
    hide Legal, Run, Step, Possible, TcpEvent, TR.Run, FromPeer, TT.OverWire;
    if events != [] {
      var n := |events| - 1;
      LegalPrefix(setup, nodes, driver, events);
      RunFromPeers(setup, nodes, driver, events[..n], sent, streams);
      var s, run := Run(setup, nodes, driver, events[..n]), TcpEvents(setup, nodes, driver, events[..n]);
      var segs := SentSegments(setup, nodes, driver, events[..n], sent);
      TcpOfRun(setup, nodes, driver, events[..n]);
      PossibleIsWellFormed(setup, s, events[n]);
      FromPeerOverWire(setup, s, TR.Run(setup.topo, run), events[n], sent(n), streams);
      var x := TcpEvent(setup, s, events[n]);
      if x != None {
        WireAppend(setup.topo, run, segs, x.value, sent(n), streams);
      } else {
        assert run + [] == run && segs + [] == segs;
      }
    }
  }

  lemma PossibleIsWellFormed(setup: Setup, s: Stack, e: Event)
    requires Possible(setup, s, e)
    ensures WellFormed(setup, e)
  {
  }

  /**
   Stream safety on frames.  In a run of the whole stack, over frames of any kind and calls of any kind,
   if each frame that reaches an existing connection is the padded frame of a segment of its peer, with
   at least six bytes if it is taken for data, then on every connection the bytes read followed by the
   bytes queued are the first bytes of the peer's stream, and `rcv.nxt` says how many.
   */
  lemma FrameStreamSafety(setup: Setup, nodes: nat, driver: Driver, events: seq<Event>, sent: nat -> Segment, streams: nat -> bytes)
    requires Legal(setup, nodes, driver, events) && NodesFit(setup, nodes) && TT.ShortStreams(streams)
    requires AllFromPeers(setup, nodes, driver, events, sent, streams)
    ensures var s := Run(setup, nodes, driver, events);
            var w := TR.Run(setup.topo, TcpEvents(setup, nodes, driver, events));
            && w.tcp == s.tcp
            && forall c: nat :: c < |s.tcp.conns| ==> TT.TakesPrefix(s.tcp.conns[c], w.hist[c], streams(c))
  {
    hide Legal, Run, TR.Run, TR.Legal, AllFromPeers, TcpEvents, SentSegments, TT.TakesPrefix, TT.RunOverWire;
    TcpOfRun(setup, nodes, driver, events);
    RunFromPeers(setup, nodes, driver, events, sent, streams);
    TT.WireStreamSafety(setup.topo, TcpEvents(setup, nodes, driver, events),
                        SentSegments(setup, nodes, driver, events, sent), streams);
  }

  /** What the engine emits is what the stack gives to ip_postroute. */
  lemma EmissionIsHanded(setup: Setup, s: Stack, e: Event)
    requires WellFormed(setup, e) && TcpEvent(setup, s, e) != None
    ensures var r := TS.Step(setup.topo, s.tcp, TcpEvent(setup, s, e).value);
            r.out != None ==>
            && |r.out.value.seg.payload| <= T.MAX_TCP_PAYLOAD
            && HandedBy(setup, s, e) == SegmentHanded(setup, r.t, r.out, if e.Frame? then s.next + 1 else s.next)
  {
    hide T.Input, T.Send, T.Recv, T.Accept, T.Bind, T.Close, T.Socket, T.Listen, SegmentHanded, Decode, Load32, IsIpLocal, DstIp;
    var t := TcpEvent(setup, s, e).value;
    if TS.Step(setup.topo, s.tcp, t).out != None {
      EmissionIsSmall(setup.topo, s.tcp, t);
    }
  }

  /**
   Every segment that TCP emits at any event of any run is given to ip_postroute, and if it leaves, it
   leaves by the interface of its socket, in a packet whose two checksums verify.
   */
  lemma FrameEmissionsVerify(setup: Setup, nodes: nat, driver: Driver, events: seq<Event>, e: Event)
    requires Legal(setup, nodes, driver, events) && NodesFit(setup, nodes)
    requires Possible(setup, Run(setup, nodes, driver, events), e)
    ensures var s := Run(setup, nodes, driver, events);
            var x := TcpEvent(setup, s, e);
            x != None && TS.Step(setup.topo, s.tcp, x.value).out != None ==>
            var r := TS.Step(setup.topo, s.tcp, x.value);
            var h := HandedBy(setup, s, e);
            && h != None && r.out.value.conn < |r.t.conns| && r.t.conns[r.out.value.conn].parent < |r.t.socks|
            && 40 + |r.out.value.seg.payload| <= 0xFFFF
            && var conn := r.t.conns[r.out.value.conn];
               var sock := r.t.socks[conn.parent];
               var v := h.value.verdict;
               v.Hop? ==>
                 && v.intf == sock.intf
                 && v.packet == SegmentPacket(r.out.value.seg, sock.localIp, conn.remoteIp)
                 && WholeHeader(v.packet) && CheckIpHcksum(v.packet)
                 && CheckTcpCksum(v.packet[20..], Load32(v.packet, 12), Load32(v.packet, 16))
  {
    hide Legal, Run, TR.Run, TR.Legal, TcpEvents, TS.Step, Output, SegmentPacket, CheckIpHcksum, CheckTcpCksum, Load32,
         TS.Allowed, FillTcpCksum, Encode;
    var s, run := Run(setup, nodes, driver, events), TcpEvents(setup, nodes, driver, events);
    var x := TcpEvent(setup, s, e);
    if x != None && TS.Step(setup.topo, s.tcp, x.value).out != None {
      TcpOfRun(setup, nodes, driver, events);
      TcpRunAppend(setup.topo, run, x.value);
      EventAllowed(setup, s, e);
      var r := TS.Step(setup.topo, s.tcp, x.value);
      EmittedSegmentsVerify(setup.topo, run, x.value, setup.routes(0));
      var conn := r.t.conns[r.out.value.conn];
      var sock := r.t.socks[conn.parent];
      EmittedSegmentsVerify(setup.topo, run, x.value, setup.routes(setup.topo.cfg(sock.intf).node));
      PossibleIsWellFormed(setup, s, e);
      EmissionIsHanded(setup, s, e);
    }
  }
}
