/**
 UDP delivery over whole runs: each socket returns its datagrams in arrival order, one read never
 mixes two of them, and the reads of one datagram put together are exactly its bytes.
 */
module UdpRuns {
  import opened Bytes
  import opened Nodes
  import opened Udp

  /** A read seen from outside; `index` counts the datagrams that were used up before it. */
  datatype Read = Read(index: nat, srcIp: u32, srcPort: u16, data: bytes)

  datatype History = History(arrivals: seq<Datagram>, log: seq<Read>, used: nat)

  datatype World = World(udp: Udp, hist: seq<History>)

  function QueuedAt(u: Udp, e: Event, s: nat): seq<Datagram> {
    if e.Arrive? && FindSock(u, Bound(u, e.intf), e.dstPort) == Some(s) then [e.d] else []
  }

  function Observe(u: Udp, e: Event, r: Result, s: nat, h: History): History {
    var h' := h.(arrivals := h.arrivals + QueuedAt(u, e, s));
    if e.Receive? && SockOf(u, e.fd) == Some(s) && r.read != None then
      AfterRead(h', r.read.value)
    else h'
  }

  function WorldStep(topo: Topology, w: World, e: Event): (w': World)
    ensures |w'.hist| == |w'.udp.socks|
  {
    var r := Step(topo, w.udp, e);
    World(r.u, seq(|r.u.socks|, s requires 0 <= s < |r.u.socks| =>
      Observe(w.udp, e, r, s, if s < |w.hist| then w.hist[s] else History([], [], 0))))
  }

  function Run(topo: Topology, events: seq<Event>): (w: World)
    ensures |w.hist| == |w.udp.socks|
  {
    if events == [] then World(Init(), [])
    else WorldStep(topo, Run(topo, events[..|events| - 1]), events[|events| - 1])
  }

  // ---------------------------------------------------------------- the law of one socket

  /** The reads of the datagram with the given index, put together. */
  function ChunksOf(log: seq<Read>, k: nat): bytes {
    if log == [] then []
    else ChunksOf(log[..|log| - 1], k)
         + (if log[|log| - 1].index == k then log[|log| - 1].data else [])
  }

  /** The queue holds the arrivals from `used` on, the oldest of them without what was read of it. */
  predicate QueueIs(sock: Sock, h: History) {
    && h.used <= |h.arrivals|
    && |sock.rx| == |h.arrivals| - h.used
    && (forall j :: 0 <= j < |sock.rx| - 1 ==> sock.rx[j] == h.arrivals[|h.arrivals| - 1 - j])
    && (sock.rx != [] ==>
          var d := sock.rx[|sock.rx| - 1];
          d == h.arrivals[h.used].(data := d.data) && h.arrivals[h.used].data == ChunksOf(h.log, h.used) + d.data)
  }

  /** Reads come in datagram order, each from the source of its datagram. */
  predicate SourcesAre(h: History) {
    && (forall i :: 0 <= i < |h.log| ==>
          && h.log[i].index < |h.arrivals| && h.log[i].index <= h.used
          && h.log[i].srcIp == h.arrivals[h.log[i].index].srcIp
          && h.log[i].srcPort == h.arrivals[h.log[i].index].srcPort)
    && (forall i, j :: 0 <= i < j < |h.log| ==> h.log[i].index <= h.log[j].index)
  }

  /** The bytes read: all of each used-up datagram, nothing of those still to come. */
  ghost predicate ChunksAre(h: History) {
    && (forall k: nat :: k < h.used && k < |h.arrivals| ==> ChunksOf(h.log, k) == h.arrivals[k].data)
    && (forall k: nat :: h.used < k || (h.used == k && k == |h.arrivals|) ==> ChunksOf(h.log, k) == [])
  }

  ghost predicate Law(sock: Sock, h: History) {
    QueueIs(sock, h) && SourcesAre(h) && ChunksAre(h)
  }

  lemma LawAfterArrival(sock: Sock, h: History, d: Datagram)
    requires Law(sock, h)
    ensures Law(Push(sock, d), h.(arrivals := h.arrivals + [d]))
  {
    var h' := h.(arrivals := h.arrivals + [d]);
    var sock' := Push(sock, d);
    if sock.rx == [] {
      assert [] + d.data == d.data;
    } else {
      assert sock'.rx[|sock'.rx| - 1] == sock.rx[|sock.rx| - 1];
    }
  }

  lemma ChunksAppend(log: seq<Read>, r: Read, k: nat)
    ensures ChunksOf(log + [r], k) == ChunksOf(log, k) + (if r.index == k then r.data else [])
  {
    assert (log + [r])[..|log|] == log;
  }

  /** The history after a read. */
  function AfterRead(h: History, x: ReadResult): History {
    h.(log := h.log + [Read(h.used, x.srcIp, x.srcPort, x.data)], used := h.used + (if x.freed != None then 1 else 0))
  }

  lemma QueueAfterRead(sock: Sock, h: History, size: nat)
    requires QueueIs(sock, h) && sock.rx != [] && ChunksOf(h.log, h.used + 1) == []
    ensures var (sock', x) := ReadOldest(sock, size);
            QueueIs(sock', AfterRead(h, x))
  {
    hide ChunksOf;
    var (sock', x) := ReadOldest(sock, size);
    var h' := AfterRead(h, x);
    var k := |sock.rx| - 1;
    var d := sock.rx[k];
    var n := Min(|d.data|, size);
    if x.freed != None {
      if k > 0 {
        assert sock'.rx[k - 1] == h.arrivals[h.used + 1];
        ChunksAppend(h.log, Read(h.used, x.srcIp, x.srcPort, x.data), h.used + 1);
        assert [] + sock'.rx[k - 1].data == sock'.rx[k - 1].data;
      }
    } else {
      ChunksAppend(h.log, Read(h.used, x.srcIp, x.srcPort, x.data), h.used);
      assert ChunksOf(h.log, h.used) + d.data == ChunksOf(h.log, h.used) + d.data[..n] + d.data[n..];
    }
  }

  lemma SourcesAfterRead(sock: Sock, h: History, size: nat)
    requires QueueIs(sock, h) && SourcesAre(h) && sock.rx != []
    ensures SourcesAre(AfterRead(h, ReadOldest(sock, size).1))
  {
    hide ChunksOf;
    var h' := AfterRead(h, ReadOldest(sock, size).1);
    assert forall i :: 0 <= i < |h.log| ==> h'.log[i] == h.log[i];
  }

  lemma ChunksAfterRead(sock: Sock, h: History, size: nat)
    requires QueueIs(sock, h) && ChunksAre(h) && sock.rx != []
    ensures ChunksAre(AfterRead(h, ReadOldest(sock, size).1))
  {
    hide ChunksOf;
    var x := ReadOldest(sock, size).1;
    var h' := AfterRead(h, x);
    var d := sock.rx[|sock.rx| - 1];
    assert x.freed != None ==> x.data == d.data;
    forall k: nat ensures ChunksOf(h'.log, k) == ChunksOf(h.log, k) + (if k == h.used then x.data else []) {
      ChunksAppend(h.log, Read(h.used, x.srcIp, x.srcPort, x.data), k);
    }
  }

  lemma LawAfterRead(sock: Sock, h: History, size: nat)
    requires Law(sock, h) && sock.rx != []
    ensures var (sock', x) := ReadOldest(sock, size);
            Law(sock', AfterRead(h, x))
  {
    hide ReadOldest, QueueIs, SourcesAre, AfterRead, ChunksOf;
    QueueAfterRead(sock, h, size);
    SourcesAfterRead(sock, h, size);
    ChunksAfterRead(sock, h, size);
  }

  // ---------------------------------------------------------------- every run

  ghost predicate Lawful(w: World) {
    && |w.hist| == |w.udp.socks|
    && forall s :: 0 <= s < |w.hist| ==> Law(w.udp.socks[s], w.hist[s])
  }

  /** What a step does to one socket and its history: an arrival, a read, or nothing. */
  lemma StepCases(topo: Topology, u: Udp, e: Event, s: nat, h: History)
    requires s < |u.socks|
    ensures var r := Step(topo, u, e);
            s < |r.u.socks| &&
            var (sock, sock', h') := (u.socks[s], r.u.socks[s], Observe(u, e, r, s, h));
            || (e.Arrive? && sock' == Push(sock, e.d) && h' == h.(arrivals := h.arrivals + [e.d]))
            || (e.Receive? && sock.rx != [] && sock' == ReadOldest(sock, e.size).0
                && h' == AfterRead(h, ReadOldest(sock, e.size).1))
            || (sock'.rx == sock.rx && h' == h)
  {
    hide ReadOldest;
    assert h.arrivals + [] == h.arrivals;
  }

  lemma StepLawful(topo: Topology, w: World, e: Event)
    requires Lawful(w)
    ensures Lawful(WorldStep(topo, w, e))
  {
    hide Law, ReadOldest, Step, Observe, AfterRead;
    var u, w' := w.udp, WorldStep(topo, w, e);
    forall s | 0 <= s < |w'.hist| ensures Law(w'.udp.socks[s], w'.hist[s]) {
      if s >= |u.socks| {
        NewSocketLaw(topo, w, e, s);
      } else {
        StepCases(topo, u, e, s, w.hist[s]);
        if w'.udp.socks[s].rx == u.socks[s].rx && w'.hist[s] == w.hist[s] {
          SameQueue(u.socks[s], w'.udp.socks[s], w.hist[s]);
        } else if e.Arrive? {
          LawAfterArrival(u.socks[s], w.hist[s], e.d);
        } else {
          LawAfterRead(u.socks[s], w.hist[s], e.size);
        }
      }
    }
  }

  lemma NewSocketLaw(topo: Topology, w: World, e: Event, s: nat)
    requires |w.hist| == |w.udp.socks| <= s < |Step(topo, w.udp, e).u.socks|
    ensures var r := Step(topo, w.udp, e);
            Law(r.u.socks[s], Observe(w.udp, e, r, s, History([], [], 0)))
  {
    var r := Step(topo, w.udp, e);
    assert [] + [] == QueuedAt(w.udp, e, s);
    FreshLaw(r.u.socks[s]);
  }

  lemma FreshLaw(sock: Sock)
    requires sock.rx == []
    ensures Law(sock, History([], [], 0))
  {
  }

  lemma SameQueue(sock: Sock, sock': Sock, h: History)
    requires sock'.rx == sock.rx && Law(sock, h)
    ensures Law(sock', h)
  {
  }

  /**
   Delivery.  After every run, for every socket: reads come in datagram order and each reports the
   source of its own datagram; the reads of a used-up datagram are exactly its bytes; the reads of the
   current one followed by what the queue still holds of it are its bytes; nothing of later ones has
   been read; and the queue holds exactly the rest, oldest last.
   */
  lemma {:induction false} UdpDelivery(topo: Topology, events: seq<Event>)
    ensures Lawful(Run(topo, events))
  {
    hide Law;
    if events != [] {
      UdpDelivery(topo, events[..|events| - 1]);
      StepLawful(topo, Run(topo, events[..|events| - 1]), events[|events| - 1]);
    }
  }

  /** And no descriptor or list ever names a socket that is gone. */
  lemma {:induction false} UdpPointersGood(topo: Topology, events: seq<Event>)
    ensures Inv(Run(topo, events).udp)
  {
    if events == [] {
      forall intf: nat ensures ListOk(Init(), intf) {
      }
    } else {
      UdpPointersGood(topo, events[..|events| - 1]);
      StepKeepsInv(topo, Run(topo, events[..|events| - 1]).udp, events[|events| - 1]);
    }
  }
}
