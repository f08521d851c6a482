/**
 The TCP engine over whole runs.

 A `World` is the engine together with, for each connection, what an observer outside has seen of
 it: its peer's initial sequence number, the bytes handed to the application, whether a FIN was
 taken, and the segments given to `ip_output`.  A run is any sequence of arriving segments and API
 calls.  The theorems hold for every run.
 */
module TcpRuns {
  import opened Bytes
  import opened TcpFormat
  import opened Nodes
  import opened Tcp
  import opened TcpState

  /** `acked[i]` is how much of the peer's stream was taken when `emitted[i]` left. */
  datatype History = History(isn: u32, delivered: bytes, fin: nat, emitted: seq<Segment>, acked: seq<nat>)

  datatype World = World(tcp: Tcp, hist: seq<History>)

  /** The queued bytes of a receive queue, oldest first. */
  function Unread(rx: seq<RxBuf>): bytes {
    if rx == [] then [] else Unread(rx[1..]) + rx[0].data
  }

  /** Sequence space used up by what was taken from the peer. */
  function Taken(c: Conn, h: History): nat {
    |h.delivered| + |Unread(c.rx)| + h.fin
  }

  // ---------------------------------------------------------------- the observer

  function DeliveredTo(t: Tcp, e: Event, r: Result, c: nat): bytes {
    if e.RecvFrom? && ConnOf(t, e.fd) == Some(c) then r.data else []
  }

  /** A FIN in sequence arrives for an established connection. */
  function FinFor(t: Tcp, e: Event, c: nat): nat {
    if e.Arrive? && Dispatch(t, e.intf, e.srcIp, e.seg).Existing? && Dispatch(t, e.intf, e.srcIp, e.seg).c == c
       && t.conns[c].phase == Estab && e.seg.seqNo == t.conns[c].rcvNxt && e.seg.flags.fin && !e.seg.flags.rst
    then 1 else 0
  }

  function Observe(t: Tcp, e: Event, r: Result, c: nat, h: History): History
    requires c < |r.t.conns|
  {
    var h' := h.(delivered := h.delivered + DeliveredTo(t, e, r, c), fin := h.fin + FinFor(t, e, c));
    if r.out != None && r.out.value.conn == c then
      h'.(emitted := h'.emitted + [r.out.value.seg], acked := h'.acked + [Taken(r.t.conns[c], h')])
    else h'
  }

  /** The history a connection starts with: the sequence number of the SYN that created it. */
  function Before(w: World, e: Event, c: nat): History {
    if c < |w.hist| then w.hist[c]
    else History(if e.Arrive? then e.seg.seqNo else 0, [], 0, [], [])
  }

  function WorldStep(topo: Topology, w: World, e: Event): (w': World)
    ensures |w'.hist| == |w'.tcp.conns|
  {
    var r := Step(topo, w.tcp, e);
    World(r.t, seq(|r.t.conns|, c requires 0 <= c < |r.t.conns| => Observe(w.tcp, e, r, c, Before(w, e, c))))
  }

  function Run(topo: Topology, events: seq<Event>): (w: World)
    ensures |w.hist| == |w.tcp.conns|
  {
    if events == [] then World(Init(), [])
    else WorldStep(topo, Run(topo, events[..|events| - 1]), events[|events| - 1])
  }

  /** No socket is closed while it has connections, tcp.c:228-238. */
  predicate Legal(topo: Topology, events: seq<Event>) {
    events == [] ||
    (Legal(topo, events[..|events| - 1])
     && Allowed(Run(topo, events[..|events| - 1]).tcp, events[|events| - 1]))
  }

  lemma {:induction false} RunInv(topo: Topology, events: seq<Event>)
    requires Legal(topo, events)
    ensures Inv(Run(topo, events).tcp)
  {
    if events == [] {
      InitInv();
    } else {
      RunInv(topo, events[..|events| - 1]);
      StepKeeps(topo, Run(topo, events[..|events| - 1]).tcp, events[|events| - 1]);
    }
  }

  // ---------------------------------------------------------------- the law of one connection

  /** Payload bytes of a list of segments. */
  function PayloadBytes(segs: seq<Segment>): nat {
    if segs == [] then 0 else PayloadBytes(segs[..|segs| - 1]) + |segs[|segs| - 1].payload|
  }

  /** The `i`-th segment sent: a SYN-ACK first, then each segment where the one before ended. */
  predicate SentInOrder(c: Conn, h: History, i: nat)
    requires i < |h.emitted| && |h.acked| == |h.emitted|
  {
    var seg := h.emitted[i];
    && seg.dstPort == c.remotePort
    && seg.ackNo == Wrap(h.isn + 1 + h.acked[i])
    && (if i == 0 then seg.seqNo == 0 && seg.flags == SYN_ACK && seg.payload == []
        else seg.seqNo == 1 + PayloadBytes(h.emitted[..i]) && !seg.flags.syn && !seg.flags.fin && seg.flags.ack)
  }

  /** What a connection's fields say about its history. */
  predicate Law(c: Conn, h: History) {
    && c.irs == Htonl(h.isn)
    && c.rcvNxt == Wrap(h.isn + 1 + Taken(c, h))
    && |h.emitted| == |h.acked| >= 1
    && c.nxt == 1 + PayloadBytes(h.emitted)
    && forall i :: 0 <= i < |h.emitted| ==> SentInOrder(c, h, i)
  }

  lemma PayloadBytesAppend(segs: seq<Segment>, seg: Segment)
    ensures PayloadBytes(segs + [seg]) == PayloadBytes(segs) + |seg.payload|
  {
    assert (segs + [seg])[..|segs|] == segs;
  }

  /** Sending one more segment, or none, keeps the law. */
  lemma LawAfterOut(c: Conn, h: History, port: u16, payload: bytes, flags: Flags, taken: nat)
    requires Law(c, h) && ConnOk(c) && !flags.syn && !flags.fin && flags.ack && taken == Taken(c, h)
    ensures var (d, out) := TcpOut(c, port, payload, flags);
            var h' := if out == None then h
                      else h.(emitted := h.emitted + [out.value], acked := h.acked + [taken]);
            Law(d, h')
  {
    hide Wrap, Unread;
    TcpOutKeeps(c, port, payload, flags);
    var (d, out) := TcpOut(c, port, payload, flags);
    if out != None {
      var h' := h.(emitted := h.emitted + [out.value], acked := h.acked + [taken]);
      PayloadBytesAppend(h.emitted, out.value);
      forall i | 0 <= i < |h'.emitted| ensures SentInOrder(d, h', i) {
        if i < |h.emitted| {
          assert SentInOrder(c, h, i);
          assert h'.emitted[..i] == h.emitted[..i];
        } else {
          assert h'.emitted[..i] == h.emitted;
        }
      }
    }
  }

  /** Changing only the receive side keeps the sender's part of the law. */
  lemma LawAfterReceive(c: Conn, h: History, d: Conn, h': History)
    requires Law(c, h)
    requires h'.emitted == h.emitted && h'.acked == h.acked && h'.isn == h.isn
    requires d.irs == c.irs && d.nxt == c.nxt && d.remotePort == c.remotePort
    requires d.rcvNxt == Wrap(h.isn + 1 + Taken(d, h'))
    ensures Law(d, h')
  {
    hide Wrap, Unread;
    forall i | 0 <= i < |h'.emitted| ensures SentInOrder(d, h', i) {
      assert SentInOrder(c, h, i);
    }
  }

  lemma UnreadPush(rx: seq<RxBuf>, b: RxBuf)
    ensures Unread([b] + rx) == Unread(rx) + b.data
  {
    assert ([b] + rx)[1..] == rx;
  }

  /** The oldest buffer holds the first unread bytes. */
  lemma {:induction false} UnreadOldest(rx: seq<RxBuf>)
    requires rx != []
    ensures Unread(rx) == rx[|rx| - 1].data + Unread(rx[..|rx| - 1])
  {
    if |rx| == 1 {
      assert rx[1..] == [] && rx[..0] == [];
    } else {
      var k := |rx| - 1;
      UnreadOldest(rx[1..]);
      assert rx[1..][..k - 1] == rx[..k][1..];
      assert rx[k].data + Unread(rx[..k][1..]) + rx[0].data == rx[k].data + (Unread(rx[..k][1..]) + rx[0].data);
    }
  }

  /** A read moves bytes from the front of the queue to the application: none lost, none repeated. */
  lemma ReadOldestMoves(c: Conn, size: nat)
    requires c.rx != []
    ensures var (d, data, freed) := ReadOldest(c, size);
            && Unread(c.rx) == data + Unread(d.rx)
            && d.(rx := c.rx) == c
            && |data| == Min(|c.rx[|c.rx| - 1].data|, size)
  {
    var k := |c.rx| - 1;
    var skb := c.rx[k];
    var n := Min(|skb.data|, size);
    var (d, data, freed) := ReadOldest(c, size);
    UnreadOldest(c.rx);
    assert skb.data == skb.data[..n] + skb.data[n..];
    if n < |skb.data| {
      UnreadOldest(d.rx);
      assert d.rx[..k] == c.rx[..k];
      assert skb.data[..n] + (skb.data[n..] + Unread(c.rx[..k])) == skb.data + Unread(c.rx[..k]);
    }
  }

  /** What a segment does to a connection's law; `h'` is the history the observer writes. */
  lemma LawAfterSegment(c: Conn, h: History, port: u16, seg: Segment, buf: nat)
    requires Law(c, h) && ConnOk(c)
    ensures var r := HandleSegment(c, port, seg, buf);
            var fin := if c.phase == Estab && seg.seqNo == c.rcvNxt && seg.flags.fin && !seg.flags.rst then 1 else 0;
            var h1 := h.(fin := h.fin + fin);
            var h2 := if r.out == None then h1
                      else h1.(emitted := h.emitted + [r.out.value], acked := h.acked + [Taken(r.conn, h1)]);
            Law(r.conn, h2)
  {
    hide Wrap, TcpOut, Law, ConnOk;
    if c.phase == SynSent {
      LawAfterEstablish(c, h);
    } else if seg.seqNo == c.rcvNxt {
      if seg.flags.rst {
        LawAfterOut(c, h, port, [], RST_ACK, Taken(c, h));
        TcpOutKeeps(c, port, [], RST_ACK);
      } else if seg.flags.fin {
        var d, h1 := c.(rcvNxt := Wrap(c.rcvNxt + 1)), h.(fin := h.fin + 1);
        LawAfterFin(c, h);
        LawAfterOut(d, h1, port, [], RST_ACK, Taken(d, h1));
        TcpOutKeeps(d, port, [], RST_ACK);
      } else {
        LawAfterData(c, h, RxBuf(buf, seg.payload));
      }
    }
  }

  lemma LawAfterEstablish(c: Conn, h: History)
    requires Law(c, h)
    ensures Law(c.(phase := Estab), h)
  {
    LawAfterReceive(c, h, c.(phase := Estab), h);
  }

  lemma LawAfterFin(c: Conn, h: History)
    requires Law(c, h) && ConnOk(c)
    ensures Law(c.(rcvNxt := Wrap(c.rcvNxt + 1)), h.(fin := h.fin + 1)) && ConnOk(c.(rcvNxt := Wrap(c.rcvNxt + 1)))
  {
    hide Wrap, Unread;
    WrapAdd(h.isn + 1 + Taken(c, h), 1);
    LawAfterReceive(c, h, c.(rcvNxt := Wrap(c.rcvNxt + 1)), h.(fin := h.fin + 1));
  }

  lemma LawAfterData(c: Conn, h: History, b: RxBuf)
    requires Law(c, h)
    ensures Law(c.(rcvNxt := Wrap(c.rcvNxt + |b.data|), rx := [b] + c.rx), h)
  {
    hide Wrap, Unread;
    UnreadPush(c.rx, b);
    WrapAdd(h.isn + 1 + Taken(c, h), |b.data|);
    LawAfterReceive(c, h, c.(rcvNxt := Wrap(c.rcvNxt + |b.data|), rx := [b] + c.rx), h);
  }

  lemma LawAfterRead(c: Conn, h: History, size: nat)
    requires Law(c, h) && c.rx != []
    ensures var (d, data, freed) := ReadOldest(c, size);
            Law(d, h.(delivered := h.delivered + data))
  {
    hide Wrap, Unread, ReadOldest;
    var (d, data, freed) := ReadOldest(c, size);
    ReadOldestMoves(c, size);
    LawAfterReceive(c, h, d, h.(delivered := h.delivered + data));
  }

  lemma LawOfFresh(parent: nat, srcIp: u32, seg: Segment, port: u16)
    ensures var (c, out) := TcpOut(FreshConn(parent, srcIp, seg), port, [], SYN_ACK);
            out != None && Law(c, History(seg.seqNo, [], 0, [out.value], [0]))
  {
    hide Wrap, Htonl, TcpOut, ConnOk, Law;
    FreshConnKeeps(parent, srcIp, seg, port);
    var (c, out) := TcpOut(FreshConn(parent, srcIp, seg), port, [], SYN_ACK);
    LawOfFirst(c, seg.seqNo, out.value);
  }

  lemma LawOfFirst(c: Conn, isn: u32, synAck: Segment)
    requires c.irs == Htonl(isn) && c.rcvNxt == synAck.ackNo == Wrap(isn + 1) && c.nxt == 1 && c.rx == []
    requires synAck.dstPort == c.remotePort && synAck.seqNo == 0 && synAck.flags == SYN_ACK && synAck.payload == []
    ensures Law(c, History(isn, [], 0, [synAck], [0]))
  {
    hide Wrap, Htonl;
    PayloadBytesAppend([], synAck);
    assert [] + [synAck] == [synAck];
  }

  // ---------------------------------------------------------------- the law over a step

  /** The connection an event is about, if it exists already. */
  function Touched(t: Tcp, e: Event): Option<nat> {
    match e
    case Arrive(intf, srcIp, seg, _) =>
      (match Dispatch(t, intf, srcIp, seg) case Existing(_, c) => Some(c) case _ => None)
    case RecvFrom(fd, _) => ConnOf(t, fd)
    case SendTo(fd, _, _) => ConnOf(t, fd)
    case _ => None
  }

  /** Every other connection, and its history, stays as it was. */
  lemma OthersUntouched(topo: Topology, t: Tcp, e: Event, k: nat, h: History)
    requires k < |t.conns| && Touched(t, e) != Some(k)
    ensures var r := Step(topo, t, e);
            k < |r.t.conns| && r.t.conns[k] == t.conns[k] && Observe(t, e, r, k, h) == h
  {
    hide HandleSegment, TcpOut, ReadOldest;
  }

  lemma TouchedKeepsLaw(topo: Topology, t: Tcp, e: Event, c: nat, h: History)
    requires c < |t.conns| && Touched(t, e) == Some(c) && Law(t.conns[c], h) && ConnOk(t.conns[c])
    ensures var r := Step(topo, t, e);
            c < |r.t.conns| && Law(r.t.conns[c], Observe(t, e, r, c, h))
  {
    hide HandleSegment, TcpOut, ReadOldest, Law, ConnOk, Taken;
    var conn, r := t.conns[c], Step(topo, t, e);
    match e
    case Arrive(intf, srcIp, seg, buf) =>
      var d := Dispatch(t, intf, srcIp, seg);
      LawAfterSegment(conn, h, t.socks[d.s].localPort, seg, buf);
      assert h.delivered + [] == h.delivered;
    case RecvFrom(fd, size) =>
      if conn.phase == Estab && conn.rx != [] {
        LawAfterRead(conn, h, size);
      } else {
        assert h.delivered + [] == h.delivered;
      }
    case SendTo(fd, buff, ipOk) =>
      assert h.delivered + [] == h.delivered;
      if conn.phase == Estab && conn.parent < |t.socks| {
        var payload := buff[..Min(|buff|, MAX_TCP_PAYLOAD)];
        LawAfterOut(conn, h, t.socks[conn.parent].localPort, payload, ACK, Taken(conn, h));
        SameTaken(conn, t.socks[conn.parent].localPort, payload, h);
      }
  }

  lemma SameTaken(c: Conn, port: u16, payload: bytes, h: History)
    ensures Taken(TcpOut(c, port, payload, ACK).0, h) == Taken(c, h)
  {
  }

  /** A step adds at most one connection, the one a SYN creates. */
  lemma NewKeepsLaw(topo: Topology, t: Tcp, e: Event, w: World)
    requires |Step(topo, t, e).t.conns| > |t.conns| && |w.hist| == |t.conns|
    ensures var c, r := |t.conns|, Step(topo, t, e);
            |r.t.conns| == c + 1 && Law(r.t.conns[c], Observe(t, e, r, c, Before(w, e, c)))
  {
    hide HandleSegment, TcpOut, ReadOldest, Law;
    var s := Dispatch(t, e.intf, e.srcIp, e.seg).s;
    var port := t.socks[s].localPort;
    LawOfFresh(s, e.srcIp, e.seg, port);
    FreshConnKeeps(s, e.srcIp, e.seg, port);
    var (c, out) := TcpOut(FreshConn(s, e.srcIp, e.seg), port, [], SYN_ACK);
    var k, r := |t.conns|, Step(topo, t, e);
    var h := History(e.seg.seqNo, [], 0, [], []);
    assert Before(w, e, k) == h && r.t.conns[k] == c && r.out == Some(Emission(k, out.value));
    assert DeliveredTo(t, e, r, k) == [] && FinFor(t, e, k) == 0;
    assert h.(delivered := [] + [], fin := 0 + 0) == h && Taken(c, h) == 0;
    assert [] + [out.value] == [out.value] && [] + [0] == [0];
    assert Observe(t, e, r, k, h) == History(e.seg.seqNo, [], 0, [out.value], [0]);
  }

  ghost predicate Lawful(w: World) {
    && Inv(w.tcp)
    && |w.hist| == |w.tcp.conns|
    && forall c :: 0 <= c < |w.hist| ==> Law(w.tcp.conns[c], w.hist[c])
  }

  lemma StepLawful(topo: Topology, w: World, e: Event)
    requires Lawful(w) && Allowed(w.tcp, e)
    ensures Lawful(WorldStep(topo, w, e))
  {
    hide Law, Step, Observe, Inv, Touched, Later;
    var t, r, w' := w.tcp, Step(topo, w.tcp, e), WorldStep(topo, w, e);
    StepKeeps(topo, t, e);
    forall c | 0 <= c < |w'.hist| ensures Law(w'.tcp.conns[c], w'.hist[c]) {
      if c >= |t.conns| {
        NewKeepsLaw(topo, t, e, w);
      } else if Touched(t, e) == Some(c) {
        ConnIsOk(t, c);
        TouchedKeepsLaw(topo, t, e, c, w.hist[c]);
      } else {
        OthersUntouched(topo, t, e, c, w.hist[c]);
      }
    }
  }

  /** Every connection obeys the law after every run. */
  lemma {:induction false} RunLawful(topo: Topology, events: seq<Event>)
    requires Legal(topo, events)
    ensures Lawful(Run(topo, events))
  {
    if events == [] {
      InitInv();
    } else {
      RunLawful(topo, events[..|events| - 1]);
      StepLawful(topo, Run(topo, events[..|events| - 1]), events[|events| - 1]);
    }
  }
}
