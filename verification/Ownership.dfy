/**
 Buffer ownership over every run of the stack.

 `Times` counts, for one buffer, the queue slots it is linked in, the times it was freed and the times
 it was lost.  Every step raises the count of exactly the buffers it allocates, to exactly one.  So at
 any time each buffer is in one queue slot, or was freed once, or was lost once, and never two of these.
 `Leaks` says which buffers a step loses.
 */
module Ownership {
  import opened MultisetSums
  import opened Bytes
  import opened Wire
  import opened TcpFormat
  import opened Nodes
  import A = Arp
  import opened Ip
  import T = Tcp
  import TS = TcpState
  import U = Udp
  import UF = UdpFormat
  import opened TcpOverIp
  import opened Stack

  // ---------------------------------------------------------------- counting

  function PacketId(p: A.Packet): multiset<nat> { multiset{p.id} }
  function EntryIds(e: A.Entry): multiset<nat> { Sum(e.pending, PacketId) }
  function TableIds(t: seq<A.Entry>): multiset<nat> { Sum(t, EntryIds) }
  function RxId(b: T.RxBuf): multiset<nat> { multiset{b.id} }
  function ConnIds(c: T.Conn): multiset<nat> { Sum(c.rx, RxId) }
  function SockIds(s: U.Sock): multiset<nat> { if s.open then Sum(s.rx, DatagramId) else multiset{} }

  /** How often the buffer is linked into a queue. */
  function Links(s: Stack, id: nat): nat {
    Sum(s.arp, TableIds)[id] + Sum(s.tcp.conns, ConnIds)[id] + Sum(s.udp.socks, SockIds)[id]
  }

  /** How often the buffer is linked, has been freed or has been lost. */
  function Times(s: Stack, id: nat): nat {
    Links(s, id) + s.freed[id] + s.leaked[id]
  }

  /** The buffer has been allocated between the two states. */
  function New(s: Stack, s': Stack, id: nat): nat {
    if s.next <= id < s'.next then 1 else 0
  }

  /** From `s` to `s'`, each buffer occurs exactly as often as before, but for `extra` and once more for new ones. */
  ghost predicate Moved(s: Stack, s': Stack, extra: multiset<nat>) {
    && s.next <= s'.next && |s'.arp| == |s.arp| && (U.Inv(s.udp) ==> U.Inv(s'.udp))
    && forall id: nat :: Times(s', id) == Times(s, id) + extra[id] + New(s, s', id)
  }

  lemma MovedTrans(a: Stack, b: Stack, c: Stack, x: multiset<nat>, y: multiset<nat>)
    requires Moved(a, b, x) && Moved(b, c, y)
    ensures Moved(a, c, x + y)
  {
    hide Times, U.Inv;
    forall id: nat ensures Times(c, id) == Times(a, id) + (x + y)[id] + New(a, c, id) {
      assert Times(b, id) == Times(a, id) + x[id] + New(a, b, id);
    }
  }

  lemma FreeMoved(s: Stack, buf: nat)
    ensures Moved(s, FreeSkb(s, buf), multiset{buf})
  {
    hide U.Inv, Links;
    SameLinks(s, FreeSkb(s, buf));
  }

  lemma LeakMoved(s: Stack, buf: nat)
    ensures Moved(s, Leak(s, buf), multiset{buf})
  {
    hide U.Inv, Links;
    SameLinks(s, Leak(s, buf));
  }

  // ---------------------------------------------------------------- what each layer adds

  /** Allocating a buffer and then adding it counts as a new buffer only. */
  lemma MovedNew(s: Stack, s': Stack)
    requires Moved(s.(next := s.next + 1), s', multiset{s.next})
    ensures Moved(s, s', multiset{})
  {
    hide U.Inv, Links;
    var s1 := s.(next := s.next + 1);
    SameLinks(s, s1);
    forall id: nat ensures Times(s', id) == Times(s, id) + New(s, s', id) {
      assert Times(s1, id) == Times(s, id);
      assert Times(s', id) == Times(s1, id) + multiset{s.next}[id] + New(s1, s', id);
    }
  }

  lemma MovedSelf(s: Stack)
    ensures Moved(s, s, multiset{})
  {
  }

  lemma EnsuredIds(table: seq<A.Entry>, target: u32, intf: nat)
    ensures TableIds(A.Ensured(table, target, intf)) == TableIds(table)
  {
    var e := A.Entry(target, A.NO_MAC, intf, false, []);
    SumPrepend(e, table, EntryIds);
    assert EntryIds(e) == multiset{};
  }

  /** ip_postroute links the packet in a queue, or leaves the table's buffers as they were and sends it. */
  lemma PostrouteIds(table: seq<A.Entry>, target: u32, p: A.Packet)
    ensures var o := A.Postroute(table, target, p);
            && |o.sent| == 1
            && forall id: nat :: TableIds(o.table)[id]
                 == TableIds(table)[id] + (if o.sent[0].Request? && id == p.id then 1 else 0)
  {
    hide A.Ensured, A.Find, Sum;
    var t := A.Ensured(table, target, p.intf);
    var i := A.Find(t, target);
    EnsuredIds(table, target, p.intf);
    if !t[i].resolved {
      SumPrepend(p, t[i].pending, PacketId);
      SumUpdate(t, i, t[i].(pending := [p] + t[i].pending), EntryIds);
    }
  }

  /** The table of a node is replaced by one with `extra` more. */
  lemma SetArpMoved(s: Stack, node: nat, table: seq<A.Entry>, extra: multiset<nat>)
    requires node < |s.arp|
    requires forall id: nat :: TableIds(table)[id] == TableIds(s.arp[node])[id] + extra[id]
    ensures Moved(s, SetArp(s, node, table), extra)
  {
    hide Sum, TableIds;
    SumUpdate(s.arp, node, table, TableIds);
  }

  lemma ToArpMoved(s: Stack, driver: Driver, node: nat, target: u32, p: A.Packet)
    requires node < |s.arp|
    ensures var (s', ok) := ToArp(s, driver, node, target, p);
            Moved(s, s', if ok then multiset{p.id} else multiset{})
  {
    hide Moved, A.Postroute, TableIds;
    var o := A.Postroute(ArpOf(s, node), target, p);
    PostrouteIds(ArpOf(s, node), target, p);
    var s1 := SetArp(s, node, o.table);
    if o.sent[0].Request? {
      SetArpMoved(s, node, o.table, multiset{p.id});
      FreeMoved(s1.(next := s1.next + 1), s1.next);
      MovedNew(s1, SendRequest(s1));
      MovedTrans(s, s1, SendRequest(s1), multiset{p.id}, multiset{});
      assert multiset{p.id} + multiset{} == multiset{p.id};
    } else {
      SetArpMoved(s, node, o.table, multiset{});
      if driver(p.id) {
        FreeMoved(s1, p.id);
        MovedTrans(s, s1, FreeSkb(s1, p.id), multiset{}, multiset{p.id});
        assert multiset{} + multiset{p.id} == multiset{p.id};
      }
    }
  }

  lemma DisposeMoved(s: Stack, driver: Driver, node: nat, v: Verdict, buf: nat)
    requires node < |s.arp|
    ensures var (s', ok) := Dispose(s, driver, node, v, buf);
            Moved(s, s', if ok then multiset{buf} else multiset{})
  {
    hide ToArp, Moved;
    match v
    case Hop(i, target, packet) => ToArpMoved(s, driver, node, target, A.Packet(buf, i, packet));
    case Drop => MovedSelf(s);
    case Local(_) => MovedSelf(s);
  }

  /** A packet the stack builds itself touches no buffer but new ones; on failure its own is nowhere yet. */
  lemma SendNewMoved(setup: Setup, s: Stack, driver: Driver, node: nat, forced: Option<nat>, dst: u32, proto: u8, payload: bytes)
    requires 20 + |payload| < 0x1_0000 && node < |s.arp|
    ensures var (s', ok, buf) := SendNew(setup, s, driver, node, forced, dst, proto, payload);
            && (ok ==> Moved(s, s', multiset{}))
            && (!ok ==> Moved(s, FreeSkb(s', buf), multiset{}) && Moved(s, Leak(s', buf), multiset{}))
  {
    hide Moved, Dispose, Output;
    var v := Output(setup.topo, setup.routes(node), node, forced, dst, proto, payload);
    var s1 := s.(next := s.next + 1);
    DisposeMoved(s1, driver, node, v, s.next);
    var (s', ok) := Dispose(s1, driver, node, v, s.next);
    if ok {
      MovedNew(s, s');
    } else {
      var one := multiset{s.next};
      FreeMoved(s', s.next);
      LeakMoved(s', s.next);
      MovedTrans(s1, s', FreeSkb(s', s.next), multiset{}, one);
      MovedTrans(s1, s', Leak(s', s.next), multiset{}, one);
      assert multiset{} + one == one;
      MovedNew(s, FreeSkb(s', s.next));
      MovedNew(s, Leak(s', s.next));
    }
  }

  lemma SendOrLeakMoved(setup: Setup, s: Stack, driver: Driver, node: nat, intf: nat, dst: u32, proto: u8, payload: bytes)
    requires 20 + |payload| < 0x1_0000 && node < |s.arp|
    ensures Moved(s, SendOrLeak(setup, s, driver, node, intf, dst, proto, payload), multiset{})
  {
    hide Moved, SendNew;
    SendNewMoved(setup, s, driver, node, Some(intf), dst, proto, payload);
  }

  lemma SendSegmentMoved(setup: Setup, s: Stack, driver: Driver, called: bool, out: Option<T.Emission>)
    requires Fits(setup, s) && (out != None ==> |out.value.seg.payload| <= T.MAX_TCP_PAYLOAD)
    ensures Moved(s, SendSegment(setup, s, driver, called, out), multiset{})
  {
    hide Moved, SendOrLeak, FillTcpCksum;
    MovedSelf(s);
    LeakMoved(s.(next := s.next + 1), s.next);
    MovedNew(s, Leak(s.(next := s.next + 1), s.next));
    if out != None && out.value.conn < |s.tcp.conns| && s.tcp.conns[out.value.conn].parent < |s.tcp.socks| {
      var conn := s.tcp.conns[out.value.conn];
      var sock := s.tcp.socks[conn.parent];
      SendOrLeakMoved(setup, s, driver, setup.topo.cfg(sock.intf).node, sock.intf, conn.remoteIp, IP_PROTO_TCP,
                      FillTcpCksum(Encode(out.value.seg), sock.localIp, conn.remoteIp));
    }
  }

  // ---------------------------------------------------------------- TCP and UDP queues

  /** One for this buffer, if it is the one. */
  function One(buf: Option<nat>, id: nat): nat {
    if buf == Some(id) then 1 else 0
  }

  /** A consumed buffer is queued if and only if the segment is not a RST or FIN in sequence. */
  lemma HandledIds(c: T.Conn, port: u16, seg: Segment, buf: nat)
    ensures var h := T.HandleSegment(c, port, seg, buf);
            var discards := c.phase == T.Estab && seg.seqNo == c.rcvNxt && (seg.flags.rst || seg.flags.fin);
            && (h.consumed <==> c.phase == T.Estab && seg.seqNo == c.rcvNxt)
            && forall id: nat :: ConnIds(h.conn)[id] == ConnIds(c)[id] + (if h.consumed && !discards then One(Some(buf), id) else 0)
  {
    hide T.TcpOut;
    SumPrepend(T.RxBuf(buf, seg.payload), c.rx, RxId);
    TcpOutIds(c, port, [], RST_ACK);
    TcpOutIds(c.(rcvNxt := Wrap(c.rcvNxt + 1)), port, [], RST_ACK);
  }

  /** The engine links a consumed buffer once if it does not discard it, and nothing else. */
  lemma TcpInputIds(t: T.Tcp, intf: nat, srcIp: u32, seg: Segment, buf: nat)
    ensures var r := T.Input(t, intf, srcIp, seg, buf);
            var discards := Discards(t, T.Dispatch(t, intf, srcIp, seg), seg);
            && (discards ==> r.consumed)
            && forall id: nat :: Sum(r.t.conns, ConnIds)[id]
                 == Sum(t.conns, ConnIds)[id] + (if r.consumed && !discards then One(Some(buf), id) else 0)
  {
    hide T.HandleSegment, T.TcpOut, T.Dispatch, Sum, ConnIds;
    var r := T.Input(t, intf, srcIp, seg, buf);
    match T.Dispatch(t, intf, srcIp, seg)
    case Nobody =>
    case Existing(s, c) =>
      HandledIds(t.conns[c], t.socks[s].localPort, seg, buf);
      SumUpdate(t.conns, c, r.t.conns[c], ConnIds);
    case Listener(s) =>
      FreshConnHoldsNothing(s, srcIp, seg, t.socks[s].localPort);
      SumAppend(t.conns, r.t.conns[|t.conns|], ConnIds);
  }

  lemma FreshConnHoldsNothing(s: nat, srcIp: u32, seg: Segment, port: u16)
    ensures ConnIds(T.TcpOut(T.FreshConn(s, srcIp, seg), port, [], SYN_ACK).0) == multiset{}
  {
  }

  /** A read takes the oldest buffer out of the queue exactly when it frees it. */
  lemma ReadOldestIds(c: T.Conn, size: nat)
    requires c.rx != []
    ensures var (d, data, freed) := T.ReadOldest(c, size);
            forall id: nat :: ConnIds(d)[id] + One(freed, id) == ConnIds(c)[id]
  {
    hide Sum;
    var k := |c.rx| - 1;
    assert c.rx == c.rx[..k] + [c.rx[k]];
    SumAppend(c.rx[..k], c.rx[k], RxId);
    var n := Min(|c.rx[k].data|, size);
    SumUpdate(c.rx, k, c.rx[k].(data := c.rx[k].data[n..]), RxId);
  }

  lemma TcpStepIds(topo: Topology, t: T.Tcp, e: TS.Event)
    requires !e.Arrive?
    ensures var r := TS.Step(topo, t, e);
            forall id: nat :: Sum(r.t.conns, ConnIds)[id] + One(r.freed, id) == Sum(t.conns, ConnIds)[id]
  {
    hide T.ReadOldest, T.TcpOut, Sum, ConnIds;
    match e
    case RecvFrom(fd, size) =>
      var c := T.ConnOf(t, fd);
      if c != None && t.conns[c.value].phase == T.Estab && t.conns[c.value].rx != [] {
        ReadOldestIds(t.conns[c.value], size);
        SumUpdate(t.conns, c.value, T.ReadOldest(t.conns[c.value], size).0, ConnIds);
      }
    case SendTo(fd, buff, ipOk) =>
      var c := T.ConnOf(t, fd);
      if c != None && t.conns[c.value].phase == T.Estab && t.conns[c.value].parent < |t.socks| {
        var conn := t.conns[c.value];
        var payload := buff[..Min(|buff|, T.MAX_TCP_PAYLOAD)];
        TcpOutIds(conn, t.socks[conn.parent].localPort, payload, ACK);
        SumUpdate(t.conns, c.value, T.TcpOut(conn, t.socks[conn.parent].localPort, payload, ACK).0, ConnIds);
      }
    case _ =>
  }

  lemma TcpOutIds(c: T.Conn, port: u16, payload: bytes, flags: Flags)
    ensures ConnIds(T.TcpOut(c, port, payload, flags).0) == ConnIds(c)
  {
  }

  lemma UdpInputIds(u: U.Udp, intf: nat, port: u16, d: U.Datagram)
    requires U.Inv(u)
    ensures var (u', ok) := U.Input(u, intf, port, d);
            forall id: nat :: Sum(u'.socks, SockIds)[id] == Sum(u.socks, SockIds)[id] + (if ok then One(Some(d.id), id) else 0)
  {
    hide Sum, U.FindSock;
    var s := U.FindSock(u, U.Bound(u, intf), port);
    if s != None {
      assert U.ListOk(u, intf);
      SumPrepend(d, u.socks[s.value].rx, DatagramId);
      SumUpdate(u.socks, s.value, U.Push(u.socks[s.value], d), SockIds);
    }
  }

  lemma UdpReadIds(sock: U.Sock, size: nat)
    requires sock.open && sock.rx != []
    ensures var (sock', x) := U.ReadOldest(sock, size);
            forall id: nat :: SockIds(sock')[id] + One(x.freed, id) == SockIds(sock)[id]
  {
    hide Sum;
    var k := |sock.rx| - 1;
    assert sock.rx == sock.rx[..k] + [sock.rx[k]];
    SumAppend(sock.rx[..k], sock.rx[k], DatagramId);
    var n := Min(|sock.rx[k].data|, size);
    SumUpdate(sock.rx, k, sock.rx[k].(data := sock.rx[k].data[n..]), DatagramId);
  }

  /** The buffer a UDP call frees. */
  function UdpFreed(r: U.Result): Option<nat> {
    if r.read == None then None else r.read.value.freed
  }

  lemma UdpStepIds(topo: Topology, u: U.Udp, e: U.Event)
    requires !e.Arrive? && U.Inv(u)
    ensures var r := U.Step(topo, u, e);
            forall id: nat ::
              Sum(r.u.socks, SockIds)[id] + One(UdpFreed(r), id) + LostByClose(u, e)[id] == Sum(u.socks, SockIds)[id]
  {
    hide U.ReadOldest, Sum, SockIds;
    var r := U.Step(topo, u, e);
    if e.NewSocket? {
      if r.u != u {
        SumAppend(u.socks, r.u.socks[|u.socks|], SockIds);
        NewSockHoldsNothing(r.u.socks[|u.socks|]);
      }
    } else {
      var s := U.SockOf(u, e.fd);
      if s != None {
        var sock, sock' := u.socks[s.value], r.u.socks[s.value];
        SumUpdate(u.socks, s.value, sock', SockIds);
        if r.read != None {
          UdpReadIds(sock, e.size);
        } else if e.CloseSocket? {
          ClosedSockIds(sock);
        } else {
          SameQueueSameIds(sock, sock');
          assert r.u.socks == u.socks[s.value := sock'];
        }
      }
    }
  }

  lemma ClosedSockIds(sock: U.Sock)
    requires sock.open
    ensures SockIds(sock) == Sum(sock.rx, DatagramId) && SockIds(sock.(open := false)) == multiset{}
  {
  }

  lemma NewSockHoldsNothing(sock: U.Sock)
    requires sock.rx == []
    ensures SockIds(sock) == multiset{}
  {
  }

  lemma SameQueueSameIds(a: U.Sock, b: U.Sock)
    requires a.rx == b.rx && a.open == b.open
    ensures SockIds(a) == SockIds(b)
  {
  }

  // ---------------------------------------------------------------- the receive chain

  function DataId(o: A.Output): multiset<nat> {
    if o.Data? then multiset{o.p.id} else multiset{}
  }

  lemma {:induction false} DataToIds(ps: seq<A.Packet>, mac: Mac)
    ensures Sum(A.DataTo(ps, mac), DataId) == Sum(ps, PacketId)
  {
    if ps != [] {
      DataToIds(ps[1..], mac);
      assert A.DataTo(ps, mac)[1..] == A.DataTo(ps[1..], mac);
    }
  }

  lemma {:induction false} FreeAllFrees(s: Stack, sent: seq<A.Output>)
    ensures var s' := FreeAll(s, sent);
            s' == s.(freed := s'.freed) && s'.freed == s.freed + Sum(sent, DataId)
    decreases |sent|
  {
    if sent != [] {
      FreeAllFrees(if sent[0].Data? then FreeSkb(s, sent[0].p.id) else s, sent[1..]);
    }
  }

  /** An ARP message takes out of the table what it sends, and only that. */
  lemma MessageIds(cfg: Config, table: seq<A.Entry>, intf: nat, p: bytes)
    ensures var o := A.Input(cfg, table, intf, p).0;
            forall id: nat :: TableIds(o.table)[id] + Sum(o.sent, DataId)[id] == TableIds(table)[id]
  {
    hide A.Find, A.SenderHw, A.SenderProto, A.TargetProto, A.Opcode, EntryIds;
    var o := A.Input(cfg, table, intf, p).0;
    if |p| >= 28 && o == A.UpdateFromReply(table, A.SenderProto(p), A.SenderHw(p)) {
      var i := A.Find(table, A.SenderProto(p));
      if i < |table| {
        ReplyIds(table, i, A.SenderHw(p));
      }
    } else if |o.sent| == 1 {
      assert o.sent == [o.sent[0]] && o.sent[1..] == [];
    }
  }

  lemma ReplyIds(table: seq<A.Entry>, i: nat, mac: Mac)
    requires i < |table|
    ensures var t := table[i := table[i].(resolved := true, mac := mac, pending := [])];
            forall id: nat :: TableIds(t)[id] + Sum(A.DataTo(table[i].pending, mac), DataId)[id] == TableIds(table)[id]
  {
    DataToIds(table[i].pending, mac);
    SumUpdate(table, i, table[i].(resolved := true, mac := mac, pending := []), EntryIds);
  }

  /** Flushing an entry moves its buffers from the queue to the freed ones. */
  lemma FlushMoved(setup: Setup, s: Stack, intf: nat, p: bytes)
    requires Fits(setup, s)
    ensures var node := setup.topo.cfg(intf).node;
            var o := A.Input(setup.topo.cfg, ArpOf(s, node), intf, p).0;
            Moved(s, FreeAll(SetArp(s, node, o.table), o.sent), multiset{})
  {
    hide A.Input, Sum, FreeAll, TableIds;
    var node := setup.topo.cfg(intf).node;
    var o := A.Input(setup.topo.cfg, ArpOf(s, node), intf, p).0;
    MessageIds(setup.topo.cfg, ArpOf(s, node), intf, p);
    SumUpdate(s.arp, node, o.table, TableIds);
    FreeAllFrees(SetArp(s, node, o.table), o.sent);
  }

  lemma ReplyMoved(s: Stack, driver: Driver)
    ensures Moved(s, SendReply(s, driver), multiset{})
  {
    hide Moved;
    var s1 := s.(next := s.next + 1);
    FreeMoved(s1, s.next);
    LeakMoved(s1, s.next);
    MovedNew(s, SendReply(s, driver));
  }

  /** A consumed buffer that is freed at the end of a handler. */
  lemma ThenFree(s: Stack, s': Stack, buf: nat)
    requires Moved(s, s', multiset{})
    ensures Moved(s, FreeSkb(s', buf), multiset{buf})
  {
    hide Moved;
    FreeMoved(s', buf);
    MovedTrans(s, s', FreeSkb(s', buf), multiset{}, multiset{buf});
    assert multiset{} + multiset{buf} == multiset{buf};
  }

  lemma Then(a: Stack, b: Stack, c: Stack)
    requires Moved(a, b, multiset{}) && Moved(b, c, multiset{})
    ensures Moved(a, c, multiset{})
  {
    var none: multiset<nat> := multiset{};
    MovedTrans(a, b, c, none, none);
    assert none + none == none;
  }

  lemma ArpInputMoved(setup: Setup, s: Stack, driver: Driver, intf: nat, p: bytes, buf: nat)
    requires Fits(setup, s)
    ensures var (s', ok) := ArpInput(setup, s, driver, intf, p, buf);
            Moved(s, s', if ok then multiset{buf} else multiset{})
  {
    hide Moved, A.Input, FreeAll, SendReply;
    var node := setup.topo.cfg(intf).node;
    var (o, ok) := A.Input(setup.topo.cfg, ArpOf(s, node), intf, p);
    MovedSelf(s);
    if ok {
      FlushMoved(setup, s, intf, p);
      var s1 := FreeAll(SetArp(s, node, o.table), o.sent);
      ReplyMoved(s1, driver);
      Then(s, s1, SendReply(s1, driver));
      ThenFree(s, if |o.sent| == 1 && o.sent[0].Reply? then SendReply(s1, driver) else s1, buf);
    }
  }

  lemma IcmpInputMoved(setup: Setup, s: Stack, driver: Driver, intf: nat, b: bytes, buf: nat)
    requires Fits(setup, s) && 20 <= |b| <= 2030
    ensures var (s', ok) := IcmpInput(setup, s, driver, intf, b, buf);
            Moved(s, s', if ok then multiset{buf} else multiset{})
  {
    hide Moved, SendNew, IcmpMessage, Load32;
    MovedSelf(s);
    ThenFree(s, s, buf);
    if |b| >= 24 && b[20] == 8 && b[21] == 0 {
      var node := setup.topo.cfg(intf).node;
      SendNewMoved(setup, s, driver, node, None, Load32(b, 12), IP_PROTO_ICMP, IcmpMessage(0, 0, b[24..]));
      var (s', ok, reply) := SendNew(setup, s, driver, node, None, Load32(b, 12), IP_PROTO_ICMP, IcmpMessage(0, 0, b[24..]));
      ThenFree(s, if ok then s' else FreeSkb(s', reply), buf);
    }
  }

  /** New engine states exchange their part of the count. */
  lemma SetTcpMoved(s: Stack, t: T.Tcp, extra: multiset<nat>)
    requires forall id: nat :: Sum(t.conns, ConnIds)[id] == Sum(s.tcp.conns, ConnIds)[id] + extra[id]
    ensures Moved(s, s.(tcp := t), extra)
  {
  }

  /** What is consumed is queued, or it is lost. */
  lemma TcpInputMoved(setup: Setup, s: Stack, driver: Driver, intf: nat, b: bytes, buf: nat)
    requires Fits(setup, s) && |b| >= 40
    ensures var (s', ok) := TcpInput(setup, s, driver, intf, b, buf);
            Moved(s, s', if ok then multiset{buf} else multiset{})
  {
    hide Moved, T.Input, T.Dispatch, Discards, CallsTcpOut, SendSegment, Decode, Load32, ConnIds, Sum;
    var e := Arrival(intf, b, buf);
    var r := T.Input(s.tcp, e.intf, e.srcIp, e.seg, buf);
    var discards := Discards(s.tcp, T.Dispatch(s.tcp, e.intf, e.srcIp, e.seg), e.seg);
    var none: multiset<nat> := multiset{};
    var linked := if r.consumed && !discards then multiset{buf} else none;
    TcpInputIds(s.tcp, e.intf, e.srcIp, e.seg, buf);
    SetTcpMoved(s, r.t, linked);
    EmissionOfInput(s.tcp, e.intf, e.srcIp, e.seg, buf);
    var s1 := s.(tcp := r.t);
    var s2 := SendSegment(setup, s1, driver, CallsTcpOut(s.tcp, e), r.out);
    SendSegmentMoved(setup, s1, driver, CallsTcpOut(s.tcp, e), r.out);
    MovedTrans(s, s1, s2, linked, none);
    assert linked + none == linked;
    if discards {
      LeakMoved(s2, buf);
      MovedTrans(s, s2, Leak(s2, buf), none, multiset{buf});
      assert none + multiset{buf} == multiset{buf};
    }
  }

  lemma EmissionOfInput(t: T.Tcp, intf: nat, srcIp: u32, seg: Segment, buf: nat)
    ensures var out := T.Input(t, intf, srcIp, seg, buf).out;
            out != None ==> out.value.seg.payload == []
  {
    hide T.HandleSegment, T.Dispatch;
  }

  lemma QueueDatagramMoved(s: Stack, intf: nat, port: u16, d: U.Datagram)
    requires U.Inv(s.udp)
    ensures var (u, ok) := U.Input(s.udp, intf, port, d);
            Moved(s, s.(udp := u), if ok then multiset{d.id} else multiset{})
  {
    hide U.Input, U.Inv, Sum, SockIds;
    UdpInputIds(s.udp, intf, port, d);
    U.InputKeepsInv(s.udp, intf, port, d);
  }

  /** The whole input chain: the buffer is somewhere, once, if and only if the chain says that it consumed it. */
  lemma EthernetInputMoved(setup: Setup, s: Stack, driver: Driver, intf: nat, f: bytes, buf: nat)
    requires Fits(setup, s) && U.Inv(s.udp) && LongEnough(setup, intf, f)
    ensures var (s', ok) := EthernetInput(setup, s, driver, intf, f, buf);
            Moved(s, s', if ok then multiset{buf} else multiset{})
  {
    hide Moved, ArpInput, IpPreroute, HoldsTransport, Load16, Htons, U.Inv;
    MovedSelf(s);
    if Qualifies(setup, intf, f) {
      ArpInputMoved(setup, s, driver, intf, f[14..], buf);
      if Load16(f, 12) == Htons(ETH_PROTO_IP) {
        IpPrerouteMoved(setup, s, driver, intf, f[14..], buf);
      }
    }
  }

  lemma IpPrerouteMoved(setup: Setup, s: Stack, driver: Driver, intf: nat, b: bytes, buf: nat)
    requires Fits(setup, s) && U.Inv(s.udp) && WholeHeader(b) && |b| <= 2030 && HoldsTransport(setup, intf, b)
    ensures var (s', ok) := IpPreroute(setup, s, driver, intf, b, buf);
            Moved(s, s', if ok then multiset{buf} else multiset{})
  {
    hide Moved, IcmpInput, TcpInput, U.Input, U.Inv, Dispose, Forward, Load16, Load32, Htons, IsIpLocal, DstIp;
    var node := setup.topo.cfg(intf).node;
    MovedSelf(s);
    if !IsIpLocal(setup.topo, node, DstIp(b)) {
      DisposeMoved(s, driver, node, Forward(setup.topo, setup.routes(node), node, setup.forwarding, b), buf);
    } else if b[9] == IP_PROTO_ICMP {
      IcmpInputMoved(setup, s, driver, intf, b, buf);
    } else if b[9] == IP_PROTO_TCP {
      TcpInputMoved(setup, s, driver, intf, b, buf);
    } else if b[9] == IP_PROTO_UDP {
      QueueDatagramMoved(s, intf, UF.DestPort(b), UF.ReceivedDatagram(b, buf));
    }
  }

  lemma ReceiveMoved(setup: Setup, s: Stack, driver: Driver, intf: nat, f: bytes)
    requires Fits(setup, s) && U.Inv(s.udp) && LongEnough(setup, intf, f)
    ensures Moved(s, Receive(setup, s, driver, intf, f), multiset{})
  {
    hide Moved, EthernetInput, LongEnough, U.Inv;
    var s1 := s.(next := s.next + 1);
    EthernetInputMoved(setup, s1, driver, intf, f, s.next);
    var (s', ok) := EthernetInput(setup, s1, driver, intf, f, s.next);
    if !ok {
      ThenFree(s1, s', s.next);
    }
    MovedNew(s, Receive(setup, s, driver, intf, f));
  }

  // ---------------------------------------------------------------- API calls

  /** A call that frees or loses what it takes out of a queue. */
  lemma TakenFromQueue(s: Stack, s': Stack, freed: Option<nat>, lost: multiset<nat>)
    requires s'.next == s.next && |s'.arp| == |s.arp| && s'.freed == s.freed && s'.leaked == s.leaked + lost
    requires U.Inv(s.udp) ==> U.Inv(s'.udp)
    requires forall id: nat :: Links(s', id) + One(freed, id) + lost[id] == Links(s, id)
    ensures Moved(s, FreeIf(s', freed), multiset{})
  {
    hide U.Inv, Links;
    SameLinks(s', FreeIf(s', freed));
  }

  lemma TcpCallMoved(setup: Setup, s: Stack, driver: Driver, e: TS.Event)
    requires Fits(setup, s) && !e.Arrive?
    ensures Moved(s, TcpCall(setup, s, driver, e), multiset{})
  {
    hide Moved, TS.Step, SendSegment, CallsTcpOut, Sum, ConnIds, U.Inv;
    var r := TS.Step(setup.topo, s.tcp, e);
    TcpStepIds(setup.topo, s.tcp, e);
    var s1 := FreeIf(s.(tcp := r.t), r.freed);
    TakenFromQueue(s, s.(tcp := r.t), r.freed, multiset{});
    if r.out != None {
      EmissionIsSmall(setup.topo, s.tcp, e);
    }
    SendSegmentMoved(setup, s1, driver, CallsTcpOut(s.tcp, e), r.out);
    Then(s, s1, SendSegment(setup, s1, driver, CallsTcpOut(s.tcp, e), r.out));
  }

  lemma UdpCallMoved(setup: Setup, s: Stack, e: U.Event)
    requires !e.Arrive? && U.Inv(s.udp)
    ensures Moved(s, UdpCall(setup, s, e), multiset{})
  {
    hide Moved, U.Step, U.Inv, LostByClose, Sum, SockIds;
    var r := U.Step(setup.topo, s.udp, e);
    UdpStepIds(setup.topo, s.udp, e);
    U.StepKeepsInv(setup.topo, s.udp, e);
    TakenFromQueue(s, s.(udp := r.u, leaked := s.leaked + LostByClose(s.udp, e)), UdpFreed(r), LostByClose(s.udp, e));
  }

  lemma UdpSendMoved(setup: Setup, s: Stack, driver: Driver, fd: int, buff: bytes, ip: u32, port: u16)
    requires Fits(setup, s)
    ensures Moved(s, UdpSend(setup, s, driver, fd, buff, ip, port), multiset{})
  {
    hide Moved, SendOrLeak, UdpHeader;
    MovedSelf(s);
    var u := U.SockOf(s.udp, fd);
    if u != None && s.udp.socks[u.value].bound {
      var sock := s.udp.socks[u.value];
      var payload := buff[..Min(|buff|, 1446)];
      SendOrLeakMoved(setup, s, driver, setup.topo.cfg(sock.intf).node, sock.intf, ip, IP_PROTO_UDP,
                      UdpHeader(sock.localPort, port, 8 + |payload|) + payload);
    }
  }

  // ---------------------------------------------------------------- every run

  lemma StepMoved(setup: Setup, s: Stack, driver: Driver, e: Event)
    requires Fits(setup, s) && U.Inv(s.udp) && Possible(setup, s, e)
    ensures Moved(s, Step(setup, s, driver, e), multiset{})
  {
    hide Moved, Receive, TcpCall, UdpCall, UdpSend, LongEnough, U.Inv;
    match e
    case Frame(intf, f) => ReceiveMoved(setup, s, driver, intf, f);
    case CallTcp(t) => TcpCallMoved(setup, s, driver, t);
    case CallUdp(u) => UdpCallMoved(setup, s, u);
    case SendUdp(fd, buff, ip, port) => UdpSendMoved(setup, s, driver, fd, buff, ip, port);
  }

  /** Each allocated buffer is in one queue slot, or freed once, or lost once; no other number occurs. */
  ghost predicate Owned(s: Stack) {
    && U.Inv(s.udp)
    && forall id: nat :: Times(s, id) == if id < s.next then 1 else 0
  }

  lemma MovedKeepsOwned(s: Stack, s': Stack)
    requires Owned(s) && Moved(s, s', multiset{})
    ensures Owned(s')
  {
    hide U.Inv, Times;
  }

  lemma StartOwned(nodes: nat)
    ensures Owned(Start(nodes))
  {
    EmptyTables(nodes);
    forall intf: nat ensures U.ListOk(U.Init(), intf) {
    }
  }

  lemma {:induction false} EmptyTables(nodes: nat)
    ensures Sum(seq(nodes, _ => []), TableIds) == multiset{}
  {
    if nodes > 0 {
      var ts: seq<seq<A.Entry>> := seq(nodes, _ => []);
      assert ts[1..] == seq(nodes - 1, _ => []);
      EmptyTables(nodes - 1);
    }
  }

  /**
   Ownership.  After every run each buffer ever allocated is in exactly one of three places: one slot of
   one queue, freed once, or lost once.  So none is freed twice, linked twice, or both freed and linked,
   and none disappears but at the places that `Leaks` names.
   */
  lemma {:induction false} EveryBufferOnce(setup: Setup, nodes: nat, driver: Driver, events: seq<Event>)
    requires Legal(setup, nodes, driver, events)
    requires forall i: nat :: setup.topo.cfg(i).node < nodes
    ensures var s := Run(setup, nodes, driver, events);
            && Fits(setup, s) && |s.arp| == nodes && U.Inv(s.udp)
            && forall id: nat :: Links(s, id) + s.freed[id] + s.leaked[id] == if id < s.next then 1 else 0
  {
    hide Links, Sum, Step, U.Inv, LongEnough;
    var s := Run(setup, nodes, driver, events);
    if events == [] {
      StartOwned(nodes);
    } else {
      var s0 := Run(setup, nodes, driver, events[..|events| - 1]);
      EveryBufferOnce(setup, nodes, driver, events[..|events| - 1]);
      assert Owned(s0);
      StepMoved(setup, s0, driver, events[|events| - 1]);
      MovedKeepsOwned(s0, s);
    }
    assert forall id: nat :: Times(s, id) == Links(s, id) + s.freed[id] + s.leaked[id];
  }

  /**
   The receive loop's own free is safe: the frame's buffer is in no queue, not freed and not lost if and
   only if the input chain returns false.
   */
  lemma RejectedBufferIsFree(setup: Setup, s: Stack, driver: Driver, intf: nat, f: bytes)
    requires Fits(setup, s) && Possible(setup, s, Frame(intf, f)) && Owned(s)
    ensures var (s', ok) := EthernetInput(setup, s.(next := s.next + 1), driver, intf, f, s.next);
            !ok <==> Links(s', s.next) == 0 && s'.freed[s.next] == 0 && s'.leaked[s.next] == 0
  {
    hide EthernetInput, LongEnough, Links, U.Inv;
    var s1 := s.(next := s.next + 1);
    EthernetInputMoved(setup, s1, driver, intf, f, s.next);
    assert Times(s, s.next) == 0;
    SameLinks(s, s1);
    assert Times(s1, s.next) == 0;
    var (s', ok) := EthernetInput(setup, s1, driver, intf, f, s.next);
    assert Times(s', s.next) == Times(s1, s.next) + (if ok then 1 else 0) + New(s1, s', s.next);
  }

  lemma SameLinks(s: Stack, s': Stack)
    requires s'.arp == s.arp && s'.tcp == s.tcp && s'.udp == s.udp
    ensures forall id: nat :: Links(s', id) == Links(s, id)
  {
  }
}
