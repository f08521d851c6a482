/** What tcp_accept hands out, and when it hands out the same connection again, tcp.c:264-286. */
module TcpAccept {
  import opened Bytes
  import opened TcpFormat
  import opened Nodes
  import opened Tcp
  import opened TcpState
  import opened TcpRuns

  /** Position `i` of a list holds its newest connection past the handshake. */
  predicate NewestEstab(t: Tcp, list: seq<nat>, i: nat) {
    && i < |list| && list[i] < |t.conns| && t.conns[list[i]].phase == Estab
    && forall j :: 0 <= j < i ==> !(list[j] < |t.conns| && t.conns[list[j]].phase == Estab)
  }

  lemma {:induction false} FirstEstabIsNewest(t: Tcp, list: seq<nat>) returns (i: nat)
    ensures FirstEstab(t, list) != None ==> NewestEstab(t, list, i) && FirstEstab(t, list) == Some(list[i])
    ensures FirstEstab(t, list) == None ==> forall j :: 0 <= j < |list| ==> !(list[j] < |t.conns| && t.conns[list[j]].phase == Estab)
  {
    i := 0;
    if list != [] {
      var k := FirstEstabIsNewest(t, list[1..]);
      if !(list[0] < |t.conns| && t.conns[list[0]].phase == Estab) {
        i := k + 1;
      }
    }
  }

  /** tcp_accept hands out the newest established connection of the listener, and it alone. */
  lemma AcceptTakesNewest(t: Tcp, fd: int) returns (i: nat)
    requires Accept(t, fd).ret >= 0
    ensures var list := t.socks[SockOf(t, fd).value].conns;
            NewestEstab(t, list, i) && ConnOf(Accept(t, fd).t, Accept(t, fd).ret) == Some(list[i])
  {
    i := FirstEstabIsNewest(t, t.socks[SockOf(t, fd).value].conns);
  }

  /** When tcp_accept succeeds: a listening socket, an established connection on its list, a free descriptor. */
  lemma AcceptSucceeds(t: Tcp, fd: int)
    ensures Accept(t, fd).ret >= 0
       <==> && SockOf(t, fd) != None && t.socks[SockOf(t, fd).value].listening
            && (exists i: nat :: NewestEstab(t, t.socks[SockOf(t, fd).value].conns, i))
            && None in t.connFds
  {
    if SockOf(t, fd) != None {
      var list := t.socks[SockOf(t, fd).value].conns;
      var i := FirstEstabIsNewest(t, list);
      assert FirstEstab(t, list) != None <==> exists i: nat :: NewestEstab(t, list, i);
    }
  }

  /**
   tcp_accept marks nothing.  What it hands out has been handed out before, under a descriptor that is
   still there, if and only if the newest established connection of the listener has one.
   */
  lemma AcceptRepeats(t: Tcp, fd: int)
    requires Accept(t, fd).ret >= 0
    ensures var list := t.socks[SockOf(t, fd).value].conns;
            (ConnOf(Accept(t, fd).t, Accept(t, fd).ret) in t.connFds
             <==> exists i: nat :: NewestEstab(t, list, i) && Some(list[i]) in t.connFds)
  {
    var list := t.socks[SockOf(t, fd).value].conns;
    var i := AcceptTakesNewest(t, fd);
    if k: nat :| NewestEstab(t, list, k) && Some(list[k]) in t.connFds {
      OneNewest(t, list, i, k);
    }
  }

  lemma OneNewest(t: Tcp, list: seq<nat>, i: nat, k: nat)
    requires NewestEstab(t, list, i) && NewestEstab(t, list, k)
    ensures i == k
  {
  }

  /**
   A second tcp_accept straight after the first succeeds if and only if a descriptor is still free, and
   it then hands out the same connection under another descriptor.
   */
  lemma AcceptTwice(t: Tcp, fd: int)
    requires Accept(t, fd).ret >= 0
    ensures var r := Accept(t, fd);
            var r2 := Accept(r.t, fd);
            && (r2.ret >= 0 <==> None in r.t.connFds)
            && (r2.ret >= 0 ==>
                  r2.ret != r.ret && ConnOf(r2.t, r2.ret) == ConnOf(r2.t, r.ret) == ConnOf(r.t, r.ret) != None)
  {
    var r := Accept(t, fd);
    SameConnsSameFirst(t, r.t, t.socks[SockOf(t, fd).value].conns);
  }

  /** One client's handshake with a listener, and two calls of tcp_accept. */
  function DoubleAccept(intf: nat, ip: u32, port: u16): seq<Event> {
    var syn := Segment(5000, port, 7, 0, Flags(false, true, false, false), 1000, []);
    var ack := Segment(5000, port, 8, 1, ACK, 1000, []);
    [NewSocket(0), BindTo(0, ip, port), ListenOn(0), Arrive(intf, 1, syn, 0), Arrive(intf, 1, ack, 1),
     AcceptOn(0), AcceptOn(0)]
  }

  lemma RunStep(topo: Topology, events: seq<Event>, k: nat)
    requires k < |events|
    ensures Run(topo, events[..k + 1]).tcp == Step(topo, Run(topo, events[..k]).tcp, events[k]).t
    ensures Legal(topo, events[..k + 1])
       <==> Legal(topo, events[..k]) && Allowed(Run(topo, events[..k]).tcp, events[k])
  {
    assert events[..k + 1][..k] == events[..k];
  }

  /** The engine after socket, bind and listen. */
  function Listening(intf: nat, ip: u32, port: u16): Tcp {
    Init().(socks := [Sock(true, 0, true, true, ip, intf, port, [], [])],
            fds := Init().fds[0 := Some(0)], bound := map[intf := [0]])
  }

  /** And after the handshake with the client at address 1. */
  function Connected(intf: nat, ip: u32, port: u16): Tcp {
    Listening(intf, ip, port).(
      socks := [Sock(true, 0, true, true, ip, intf, port, [0], [])],
      conns := [Conn(0, Estab, 1, 5000, 0, 1, 1000, 0, 8, TCP_WINDOW_SIZE, Htonl(7), [])])
  }

  lemma SetUp(topo: Topology, intf: nat, ip: u32, port: u16)
    requires MatchingInterface(topo.cfg, topo.slots(0), ip) == Some(intf)
    ensures var before := DoubleAccept(intf, ip, port)[..3];
            Legal(topo, before) && Run(topo, before).tcp == Listening(intf, ip, port)
  {
    hide Run, Legal;
    var events := DoubleAccept(intf, ip, port);
    StartsEmpty(topo, events[..0]);
    RunStep(topo, events, 0);
    var t1 := Run(topo, events[..1]).tcp;
    assert t1 == Init().(socks := [Sock(true, 0, false, false, 0, 0, 0, [], [])], fds := Init().fds[0 := Some(0)]);
    RunStep(topo, events, 1);
    var t2 := Run(topo, events[..2]).tcp;
    assert events[1] == BindTo(0, ip, port) && SockOf(t1, 0) == Some(0);
    assert Bound(t1, intf) == [] && [0] + [] == [0] && map[][intf := [0]] == map[intf := [0]];
    assert t2 == t1.(socks := [Sock(true, 0, true, false, ip, intf, port, [], [])], bound := map[intf := [0]]);
    RunStep(topo, events, 2);
  }

  lemma StartsEmpty(topo: Topology, events: seq<Event>)
    requires events == []
    ensures Legal(topo, events) && Run(topo, events).tcp == Init()
  {
  }

  lemma Handshake(topo: Topology, intf: nat, ip: u32, port: u16)
    requires MatchingInterface(topo.cfg, topo.slots(0), ip) == Some(intf)
    ensures var before := DoubleAccept(intf, ip, port)[..5];
            Legal(topo, before) && Run(topo, before).tcp == Connected(intf, ip, port)
  {
    hide Run, Legal, Htonl;
    var events := DoubleAccept(intf, ip, port);
    SetUp(topo, intf, ip, port);
    var t := Listening(intf, ip, port);
    RunStep(topo, events, 3);
    assert Dispatch(t, intf, 1, events[3].seg) == Listener(0);
    FreshConnKeeps(0, 1, events[3].seg, port);
    var t4 := Run(topo, events[..4]).tcp;
    assert Step(topo, t, events[3]) == ToListener(t, 0, 1, events[3].seg);
    assert t4.conns == [FreshConn(0, 1, events[3].seg).(nxt := 1)];
    assert [0] + t.socks[0].conns == [0];
    assert t4.socks == [Sock(true, 0, true, true, ip, intf, port, [0], [])];
    RunStep(topo, events, 4);
    assert Dispatch(t4, intf, 1, events[4].seg) == Existing(0, 0);
    WrapSmall(8);
    assert t4.conns[0].rcvNxt == 8;
  }

  /** Such a run exists: the same connection under descriptors 0 and 1. */
  lemma AcceptTwiceHappens(topo: Topology, intf: nat, ip: u32, port: u16)
    requires MatchingInterface(topo.cfg, topo.slots(0), ip) == Some(intf)
    ensures var events := DoubleAccept(intf, ip, port);
            Legal(topo, events) && ConnOf(Run(topo, events).tcp, 0) == ConnOf(Run(topo, events).tcp, 1) == Some(0)
  {
    hide Run, Legal, Htonl;
    var events := DoubleAccept(intf, ip, port);
    Handshake(topo, intf, ip, port);
    RunStep(topo, events, 5);
    var t := Connected(intf, ip, port);
    assert Run(topo, events[..6]).tcp == t.(connFds := t.connFds[0 := Some(0)]);
    RunStep(topo, events, 6);
    assert events[..7] == events;
  }

  /**
   In that run the client's window is 1000: tcp_send of 1446 bytes reports all of them, emits nothing and
   changes nothing.
   */
  lemma FalseReportHappens(topo: Topology, intf: nat, ip: u32, port: u16)
    requires MatchingInterface(topo.cfg, topo.slots(0), ip) == Some(intf)
    ensures var events := DoubleAccept(intf, ip, port);
            var t := Run(topo, events[..6]).tcp;
            var r := Send(t, 0, Zeros(1446), true);
            Legal(topo, events[..6]) && ConnOf(t, 0) == Some(0) && r.ret == 1446 && r.out == None && r.t == t
  {
    hide Run, Legal, Htonl;
    var events := DoubleAccept(intf, ip, port);
    Handshake(topo, intf, ip, port);
    RunStep(topo, events, 5);
    var c := Connected(intf, ip, port);
    var t := Run(topo, events[..6]).tcp;
    assert t == c.(connFds := c.connFds[0 := Some(0)]);
    WrapSmall(1000);
    assert t.conns[0 := t.conns[0]] == t.conns;
  }

  lemma {:induction false} SameConnsSameFirst(t: Tcp, t': Tcp, list: seq<nat>)
    requires t'.conns == t.conns
    ensures FirstEstab(t', list) == FirstEstab(t, list)
  {
    if list != [] {
      SameConnsSameFirst(t, t', list[1..]);
    }
  }
}
