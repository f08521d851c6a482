/** What the TCP engine guarantees after every run: the received stream, the sent one, and the lists. */
module TcpTheorems {
  import opened Bytes
  import opened Arithmetic
  import opened Sequences
  import opened TcpFormat
  import opened Nodes
  import opened Tcp
  import opened TcpState
  import opened TcpRuns

  // ---------------------------------------------------------------- the received stream

  /** The segment carries the bytes of the stream from `off` on, at the sequence number they belong to. */
  predicate CarriesAt(seg: Segment, isn: u32, stream: bytes, off: nat) {
    && off + |seg.payload| <= |stream|
    && seg.seqNo == Wrap(isn + 1 + off)
    && seg.payload == stream[off..off + |seg.payload|]
  }

  /**
   A segment that a peer with this stream may have sent at any time: some slice of the stream, its SYN
   again, a FIN, a RST, or a segment without data, whatever its number.  The network may lose, repeat
   and reorder such segments.
   */
  ghost predicate Conforms(seg: Segment, isn: u32, stream: bytes) {
    || seg.flags.rst || seg.flags.fin || seg.payload == []
    || (seg.flags.syn && seg.seqNo == isn)
    || exists off: nat :: CarriesAt(seg, isn, stream, off)
  }

  /**
   Only a segment in sequence for a connection past its handshake must conform.  The payload of any
   other is never looked at, tcp.c:111 and 127-136, so it may be old, damaged or padded.
   */
  ghost predicate EventConforms(w: World, e: Event, streams: nat -> bytes)
    requires |w.hist| == |w.tcp.conns|
  {
    e.Arrive? ==>
      match Dispatch(w.tcp, e.intf, e.srcIp, e.seg)
      case Existing(_, c) => InSequence(w.tcp.conns[c], e.seg) ==> Conforms(e.seg, w.hist[c].isn, streams(c))
      case _ => true
  }

  predicate InSequence(c: Conn, seg: Segment) {
    c.phase == Estab && seg.seqNo == c.rcvNxt
  }

  /** Every segment that reaches connection `c` during the run conforms to the stream of its peer. */
  ghost predicate RunConforms(topo: Topology, events: seq<Event>, streams: nat -> bytes) {
    events == [] ||
    (RunConforms(topo, events[..|events| - 1], streams)
     && EventConforms(Run(topo, events[..|events| - 1]), events[|events| - 1], streams))
  }

  ghost predicate ShortStreams(streams: nat -> bytes) {
    forall c: nat :: |streams(c)| < 0xFFFF_FFFF
  }

  /** What was delivered and what is still queued, oldest first, is a prefix of the peer's stream. */
  predicate StreamOk(c: Conn, h: History, stream: bytes) {
    h.delivered + Unread(c.rx) <= stream
  }

  /** A FIN has been taken only from connections that are on the closed list, and only one. */
  predicate FinOk(t: Tcp, c: nat, h: History)
    requires c < |t.conns|
  {
    h.fin == 0 || (h.fin == 1 && IsClosed(t, c))
  }

  lemma WrapInjective(a: nat, x: nat, y: nat)
    requires x < 0x1_0000_0000 && y < 0x1_0000_0000 && Wrap(a + x) == Wrap(a + y)
    ensures x == y
  {
    DivMod(a + x, 0x1_0000_0000);
    DivMod(a + y, 0x1_0000_0000);
    assert x - y == ((a + x) / 0x1_0000_0000 - (a + y) / 0x1_0000_0000) * 0x1_0000_0000;
  }

  /** In-sequence data from a conforming peer is the next slice of its stream. */
  lemma InSequenceIsNext(c: Conn, h: History, seg: Segment, stream: bytes)
    requires Law(c, h) && h.fin == 0 && StreamOk(c, h, stream) && |stream| < 0xFFFF_FFFF
    requires seg.seqNo == c.rcvNxt && !seg.flags.rst && !seg.flags.fin && Conforms(seg, h.isn, stream)
    ensures h.delivered + Unread(c.rx) + seg.payload <= stream
  {
    hide Wrap, Unread;
    var n := |h.delivered + Unread(c.rx)|;
    if seg.payload == [] {
      assert h.delivered + Unread(c.rx) + [] == h.delivered + Unread(c.rx);
      return;
    }
    assert c.rcvNxt == Wrap(h.isn + (1 + n));
    if seg.flags.syn && seg.seqNo == h.isn {
      WrapSmall(h.isn);
      WrapInjective(h.isn, 1 + n, 0);
    }
    var off: nat :| CarriesAt(seg, h.isn, stream, off);
    WrapInjective(h.isn, 1 + n, 1 + off);
    assert stream[..n] + stream[n..n + |seg.payload|] == stream[..n + |seg.payload|];
  }

  /** One segment keeps the stream of its connection right. */
  lemma SegmentKeepsStream(c: Conn, h: History, port: u16, seg: Segment, buf: nat, stream: bytes)
    requires Law(c, h) && h.fin == 0 && StreamOk(c, h, stream) && |stream| < 0xFFFF_FFFF
    requires InSequence(c, seg) ==> Conforms(seg, h.isn, stream)
    ensures StreamOk(HandleSegment(c, port, seg, buf).conn, h, stream)
  {
    hide Law, Conforms, Wrap;
    if c.phase == Estab && seg.seqNo == c.rcvNxt && !seg.flags.rst && !seg.flags.fin {
      InSequenceIsNext(c, h, seg, stream);
      UnreadPush(c.rx, RxBuf(buf, seg.payload));
      assert h.delivered + (Unread(c.rx) + seg.payload) == h.delivered + Unread(c.rx) + seg.payload;
    }
  }

  /** A read moves bytes from one part to the other. */
  lemma ReadKeepsStream(c: Conn, h: History, size: nat, stream: bytes)
    requires c.rx != [] && StreamOk(c, h, stream)
    ensures var (d, data, freed) := ReadOldest(c, size);
            StreamOk(d, h.(delivered := h.delivered + data), stream)
  {
    hide ReadOldest, Unread;
    var (d, data, freed) := ReadOldest(c, size);
    ReadOldestMoves(c, size);
    assert h.delivered + data + Unread(d.rx) == h.delivered + (data + Unread(d.rx));
  }

  lemma StepKeepsStream(topo: Topology, w: World, e: Event, c: nat, stream: bytes, streams: nat -> bytes)
    requires Lawful(w) && c < |w.tcp.conns| && FinOk(w.tcp, c, w.hist[c])
    requires StreamOk(w.tcp.conns[c], w.hist[c], streams(c)) && |streams(c)| < 0xFFFF_FFFF
    requires EventConforms(w, e, streams) && Touched(w.tcp, e) == Some(c)
    ensures var r := Step(topo, w.tcp, e);
            c < |r.t.conns| && StreamOk(r.t.conns[c], Observe(w.tcp, e, r, c, w.hist[c]), streams(c))
  {
    hide HandleSegment, TcpOut, ReadOldest, Law, Conforms, Unread, Inv;
    var t, h, r := w.tcp, w.hist[c], Step(topo, w.tcp, e);
    var conn := t.conns[c];
    assert h.delivered + [] == h.delivered;
    match e
    case Arrive(intf, srcIp, seg, buf) =>
      var d := Dispatch(t, intf, srcIp, seg);
      LiveNotClosed(t, d.s, c);
      SegmentKeepsStream(conn, h, t.socks[d.s].localPort, seg, buf, streams(c));
    case RecvFrom(fd, size) =>
      if conn.phase == Estab && conn.rx != [] {
        ReadKeepsStream(conn, h, size, streams(c));
      }
    case SendTo(fd, buff, ipOk) =>
      if conn.phase == Estab && conn.parent < |t.socks| {
        TcpOutKeepsRx(conn, t.socks[conn.parent].localPort, buff[..Min(|buff|, MAX_TCP_PAYLOAD)]);
      }
  }

  lemma TcpOutKeepsRx(c: Conn, port: u16, payload: bytes)
    ensures TcpOut(c, port, payload, ACK).0.rx == c.rx
  {
  }

  /** A connection whose FIN is taken moves to the closed list in the same step, and stays there. */
  lemma StepKeepsFin(topo: Topology, w: World, e: Event, c: nat)
    requires Lawful(w) && Allowed(w.tcp, e) && c < |w.tcp.conns| && FinOk(w.tcp, c, w.hist[c])
    ensures var r := Step(topo, w.tcp, e);
            c < |r.t.conns| && FinOk(r.t, c, Observe(w.tcp, e, r, c, w.hist[c]))
  {
    hide TcpOut, ReadOldest, Law, Inv, ConnLater;
    var t, r := w.tcp, Step(topo, w.tcp, e);
    StepKeeps(topo, t, e);
    if FinFor(t, e, c) == 1 {
      var d := Dispatch(t, e.intf, e.srcIp, e.seg);
      LiveNotClosed(t, d.s, c);
      var h := HandleSegment(t.conns[c], t.socks[d.s].localPort, e.seg, e.buf);
      ConnIsOk(t, c);
      HandleSegmentKeeps(t.conns[c], t.socks[d.s].localPort, e.seg, e.buf);
      assert h.close && r.t.conns[c].parent == d.s by { ParentKept(t.conns[c], h.conn); }
      assert r.t.socks[d.s].closed == [c] + t.socks[d.s].closed;
    }
  }

  lemma ParentKept(c: Conn, d: Conn)
    requires ConnLater(c, d)
    ensures d.parent == c.parent
  {
  }

  ghost predicate AllStreamsOk(w: World, streams: nat -> bytes)
    requires |w.hist| == |w.tcp.conns|
  {
    forall c: nat :: c < |w.hist| ==> StreamOk(w.tcp.conns[c], w.hist[c], streams(c)) && FinOk(w.tcp, c, w.hist[c])
  }

  lemma StepKeepsAllStreams(topo: Topology, w: World, e: Event, streams: nat -> bytes)
    requires Lawful(w) && Allowed(w.tcp, e) && ShortStreams(streams)
    requires EventConforms(w, e, streams) && AllStreamsOk(w, streams)
    ensures AllStreamsOk(WorldStep(topo, w, e), streams)
  {
    hide Step, Observe, Touched, EventConforms, StreamOk, FinOk, Allowed, Inv, Law;
    var t, r, w' := w.tcp, Step(topo, w.tcp, e), WorldStep(topo, w, e);
    forall c: nat | c < |w'.hist|
      ensures StreamOk(w'.tcp.conns[c], w'.hist[c], streams(c)) && FinOk(w'.tcp, c, w'.hist[c])
    {
      if c >= |t.conns| {
        NewConnectionStarts(topo, w, e, c, streams(c));
      } else {
        StepKeepsFin(topo, w, e, c);
        if Touched(t, e) == Some(c) {
          StepKeepsStream(topo, w, e, c, streams(c), streams);
        } else {
          OthersUntouched(topo, t, e, c, w.hist[c]);
        }
      }
    }
  }

  lemma NewConnectionStarts(topo: Topology, w: World, e: Event, c: nat, stream: bytes)
    requires Lawful(w) && |w.tcp.conns| <= c < |Step(topo, w.tcp, e).t.conns|
    ensures var r := Step(topo, w.tcp, e);
            var h := Observe(w.tcp, e, r, c, Before(w, e, c));
            StreamOk(r.t.conns[c], h, stream) && FinOk(r.t, c, h)
  {
    hide Wrap, HandleSegment, ReadOldest, Law, Inv, TcpOut, Htonl, FirstEstab, Dispatch;
    var d := Dispatch(w.tcp, e.intf, e.srcIp, e.seg);
    FreshConnKeeps(d.s, e.srcIp, e.seg, w.tcp.socks[d.s].localPort);
  }

  /** The connection has taken exactly the first `n` bytes, and `rcv.nxt` says which `n`. */
  predicate TakesPrefix(c: Conn, h: History, stream: bytes) {
    var n := |h.delivered + Unread(c.rx)|;
    && n <= |stream|
    && h.delivered + Unread(c.rx) == stream[..n]
    && c.rcvNxt == Wrap(Htonl(c.irs) + 1 + n + h.fin)
  }

  /**
   Stream safety.  In every run in which the segments that reach a connection come from a peer with a
   stream shorter than 2^32 - 1 bytes, over a network that loses, repeats and reorders them, the bytes
   already read followed by the bytes still queued, oldest first, are the first `n` bytes of that
   stream, for any segmentation and any read sizes, and `rcv.nxt` says exactly which `n`.
   */
  lemma StreamSafety(topo: Topology, events: seq<Event>, streams: nat -> bytes)
    requires Legal(topo, events) && RunConforms(topo, events, streams) && ShortStreams(streams)
    ensures var w := Run(topo, events);
            forall c: nat :: c < |w.hist| ==> TakesPrefix(w.tcp.conns[c], w.hist[c], streams(c))
  {
    hide TakesPrefix, Law, StreamOk, Inv;
    AllStreams(topo, events, streams);
    RunLawful(topo, events);
    var w := Run(topo, events);
    forall c: nat | c < |w.hist| ensures TakesPrefix(w.tcp.conns[c], w.hist[c], streams(c)) {
      LawAndStream(w.tcp.conns[c], w.hist[c], streams(c));
    }
  }

  lemma LawAndStream(c: Conn, h: History, stream: bytes)
    requires Law(c, h) && StreamOk(c, h, stream)
    ensures TakesPrefix(c, h, stream)
  {
    hide Unread, Wrap, Htonl;
    HtonlInvolution(h.isn);
  }

  lemma {:induction false} AllStreams(topo: Topology, events: seq<Event>, streams: nat -> bytes)
    requires Legal(topo, events) && RunConforms(topo, events, streams) && ShortStreams(streams)
    ensures AllStreamsOk(Run(topo, events), streams)
  {
    hide Step, Lawful, WorldStep;
    if events != [] {
      AllStreams(topo, events[..|events| - 1], streams);
      RunLawful(topo, events[..|events| - 1]);
      StepKeepsAllStreams(topo, Run(topo, events[..|events| - 1]), events[|events| - 1], streams);
    }
  }

  // ---------------------------------------------------------------- the wire's part in it

  /**
   Two ends of one connection, frame in between: `Padded(seg)` is what `SegmentOverTheWire` finds at
   the far end.  A segment that arrives in sequence is queued with exactly the payload that was sent
   if and only if that payload has at least six bytes: a shorter one is queued with the zeros of the
   Ethernet padding behind it, and `rcv.nxt` counts them.
   */
  lemma ShortSegmentsAreCorrupted(c: Conn, port: u16, seg: Segment, buf: nat)
    requires c.phase == Estab && 40 + |seg.payload| <= 0xFFFF
    requires seg.seqNo == c.rcvNxt && !seg.flags.rst && !seg.flags.fin
    ensures var h := HandleSegment(c, port, Padded(seg), buf);
            && h.consumed && h.conn.rx == [RxBuf(buf, Padded(seg).payload)] + c.rx
            && (h.conn.rx[0].data == seg.payload <==> |seg.payload| >= 6)
            && (h.conn.rcvNxt == Wrap(c.rcvNxt + |seg.payload|) <==> |seg.payload| >= 6)
  {
    var n, pad := |seg.payload|, if |seg.payload| < 6 then 6 - |seg.payload| else 0;
    if Wrap(c.rcvNxt + (n + pad)) == Wrap(c.rcvNxt + n) {
      WrapInjective(c.rcvNxt, n + pad, n);
    }
  }

  /**
   What the network brings, `e`, is the frame of what the peer sent, `sent`: any segment of its stream,
   possibly lost before, repeated or late.  If it is in sequence and neither RST nor FIN, and so taken
   for data, it has at least six bytes.
   */
  ghost predicate OverWire(w: World, e: Event, sent: Segment, streams: nat -> bytes)
    requires |w.hist| == |w.tcp.conns|
  {
    e.Arrive? ==>
      match Dispatch(w.tcp, e.intf, e.srcIp, e.seg)
      case Existing(_, c) =>
        && e.seg == Padded(sent)
        && Conforms(sent, w.hist[c].isn, streams(c))
        && (InSequence(w.tcp.conns[c], sent) && !sent.flags.rst && !sent.flags.fin ==> |sent.payload| >= 6)
      case _ => true
  }

  ghost predicate RunOverWire(topo: Topology, events: seq<Event>, sent: seq<Segment>, streams: nat -> bytes)
    requires |sent| == |events|
  {
    events == [] ||
    (RunOverWire(topo, events[..|events| - 1], sent[..|events| - 1], streams)
     && OverWire(Run(topo, events[..|events| - 1]), events[|events| - 1], sent[|events| - 1], streams))
  }

  /**
   Stream safety over Ethernet.  The peer's segments arrive as the driver hands them up, padded: the
   stream is still safe if every segment taken for data was long enough to need no padding.
   */
  lemma WireStreamSafety(topo: Topology, events: seq<Event>, sent: seq<Segment>, streams: nat -> bytes)
    requires |sent| == |events| && Legal(topo, events) && ShortStreams(streams)
    requires RunOverWire(topo, events, sent, streams)
    ensures var w := Run(topo, events);
            forall c: nat :: c < |w.hist| ==> TakesPrefix(w.tcp.conns[c], w.hist[c], streams(c))
  {
    hide Run, TakesPrefix, Legal;
    WireConforms(topo, events, sent, streams);
    StreamSafety(topo, events, streams);
  }

  lemma {:induction false} WireConforms(topo: Topology, events: seq<Event>, sent: seq<Segment>, streams: nat -> bytes)
    requires |sent| == |events| && RunOverWire(topo, events, sent, streams)
    ensures RunConforms(topo, events, streams)
  {
    hide Run, Conforms, Dispatch;
    if events != [] {
      var n := |events| - 1;
      WireConforms(topo, events[..n], sent[..n], streams);
      var w, e := Run(topo, events[..n]), events[n];
      if e.Arrive? && Dispatch(w.tcp, e.intf, e.srcIp, e.seg).Existing? {
        PaddedConforms(sent[n], w.hist[Dispatch(w.tcp, e.intf, e.srcIp, e.seg).c].isn,
                       streams(Dispatch(w.tcp, e.intf, e.srcIp, e.seg).c));
      }
    }
  }

  lemma PaddedConforms(sent: Segment, isn: u32, stream: bytes)
    ensures sent.flags.rst || sent.flags.fin ==> Conforms(Padded(sent), isn, stream)
    ensures |sent.payload| >= 6 ==> Padded(sent) == sent
  {
    assert sent.payload + [] == sent.payload;
  }

  /**
   And only then: what is taken after a conforming segment in sequence is the stream up to that
   segment's end if and only if the segment had at least six bytes.  Even one without data, a plain
   acknowledgment, is taken for six zeros.
   */
  lemma PaddingDecides(c: Conn, h: History, port: u16, sent: Segment, buf: nat, stream: bytes)
    requires Law(c, h) && h.fin == 0 && StreamOk(c, h, stream) && |stream| < 0xFFFF_FFFF
    requires InSequence(c, sent) && !sent.flags.rst && !sent.flags.fin && Conforms(sent, h.isn, stream)
    ensures var d := HandleSegment(c, port, Padded(sent), buf).conn;
            var n := |h.delivered + Unread(c.rx)| + |sent.payload|;
            && n <= |stream|
            && (h.delivered + Unread(d.rx) == stream[..n] <==> |sent.payload| >= 6)
  {
    hide Law, Conforms, Wrap, Unread;
    InSequenceIsNext(c, h, sent, stream);
    UnreadPush(c.rx, RxBuf(buf, Padded(sent).payload));
    PaddedConforms(sent, h.isn, stream);
    assert h.delivered + (Unread(c.rx) + sent.payload) == h.delivered + Unread(c.rx) + sent.payload;
  }

  /**
   A FIN in sequence takes one number and no byte, tcp.c:114-116, whatever the frame around it carried
   or was padded with.  What its sender put in is lost, and `rcv.nxt` is what the sender expects if and
   only if that was nothing.
   */
  lemma FinLosesPayload(c: Conn, port: u16, sent: Segment, buf: nat)
    requires InSequence(c, sent) && sent.flags.fin && !sent.flags.rst && |sent.payload| <= 0xFFFF
    ensures var h := HandleSegment(c, port, Padded(sent), buf);
            && h.close && h.conn.rx == c.rx
            && (h.conn.rcvNxt == Wrap(c.rcvNxt + |sent.payload| + 1) <==> sent.payload == [])
  {
    hide Wrap;
    if Wrap(c.rcvNxt + (|sent.payload| + 1)) == Wrap(c.rcvNxt + 1) {
      WrapInjective(c.rcvNxt, |sent.payload| + 1, 1);
    }
  }

  // ---------------------------------------------------------------- the sent stream

  /**
   The segments given to `ip_output` tile the sent stream: the SYN-ACK at 0, then each segment starts
   where the one before it ended, the first byte of all being number 1.  Each acknowledges exactly what
   had been taken from the peer.
   */
  lemma SenderTiling(topo: Topology, events: seq<Event>, c: nat, i: nat)
    requires Legal(topo, events)
    ensures var w := Run(topo, events);
            c < |w.hist| && i < |w.hist[c].emitted| ==>
            c < |w.tcp.conns| &&
            var (conn, h) := (w.tcp.conns[c], w.hist[c]);
            && |h.acked| == |h.emitted|
            && h.emitted[i].ackNo == Wrap(h.isn + 1 + h.acked[i])
            && h.emitted[i].dstPort == conn.remotePort
            && (if i == 0 then h.emitted[i].seqNo == 0 && h.emitted[i].flags == SYN_ACK && h.emitted[i].payload == []
                else h.emitted[i].seqNo == NextSeq(h.emitted[i - 1]))
  {
    hide Wrap, Run, Inv, Legal;
    RunLawful(topo, events);
    var w := Run(topo, events);
    if c < |w.hist| && i < |w.hist[c].emitted| {
      LawTiles(w.tcp.conns[c], w.hist[c], i);
    }
  }

  lemma LawTiles(conn: Conn, h: History, i: nat)
    requires Law(conn, h) && i < |h.emitted|
    ensures |h.acked| == |h.emitted|
    ensures h.emitted[i].ackNo == Wrap(h.isn + 1 + h.acked[i])
    ensures h.emitted[i].dstPort == conn.remotePort
    ensures if i == 0 then h.emitted[i].seqNo == 0 && h.emitted[i].flags == SYN_ACK && h.emitted[i].payload == []
            else h.emitted[i].seqNo == NextSeq(h.emitted[i - 1])
  {
    hide Wrap, PayloadBytes, Taken, Htonl;
    assert SentInOrder(conn, h, i);
    if i > 0 {
      assert SentInOrder(conn, h, i - 1);
      PrefixStep(h.emitted, i - 1);
    }
  }

  /**
   All that is sent lies within the window of the peer's SYN: `snt.nxt` is one more than the number of
   bytes emitted, no segment reaches beyond it, and it passes the window only by the SYN itself.  So it
   never wraps.
   */
  lemma SenderWindow(topo: Topology, events: seq<Event>, c: nat, i: nat)
    requires Legal(topo, events)
    ensures var w := Run(topo, events);
            c < |w.hist| && i < |w.hist[c].emitted| ==>
            c < |w.tcp.conns| &&
            var (conn, h) := (w.tcp.conns[c], w.hist[c]);
            && h.emitted[i].seqNo + |h.emitted[i].payload| <= conn.nxt
            && conn.nxt == 1 + PayloadBytes(h.emitted)
            && (conn.nxt <= conn.wnd || conn.nxt == 1)
  {
    hide Wrap, Run, Inv, Legal, Law;
    RunLawful(topo, events);
    var w := Run(topo, events);
    if c < |w.hist| && i < |w.hist[c].emitted| {
      ConnIsOk(w.tcp, c);
      LawWithinNxt(w.tcp.conns[c], w.hist[c], i);
    }
  }

  lemma LawWithinNxt(conn: Conn, h: History, i: nat)
    requires Law(conn, h) && i < |h.emitted|
    ensures h.emitted[i].seqNo + |h.emitted[i].payload| <= conn.nxt == 1 + PayloadBytes(h.emitted)
  {
    hide Wrap, PayloadBytes, Taken, Htonl;
    assert SentInOrder(conn, h, i);
    PrefixStep(h.emitted, i);
    PayloadBytesPrefix(h.emitted, i + 1);
  }

  /** The bytes a list of segments carries. */
  function Payloads(segs: seq<Segment>): bytes {
    if segs == [] then [] else Payloads(segs[..|segs| - 1]) + segs[|segs| - 1].payload
  }

  lemma PayloadsAppend(segs: seq<Segment>, seg: Segment)
    ensures Payloads(segs + [seg]) == Payloads(segs) + seg.payload
  {
    assert (segs + [seg])[..|segs|] == segs;
  }

  /** What one event adds to the bytes the application sends on `c`: a tcp_send that fits the window. */
  function SentBy(t: Tcp, e: Event, c: nat): bytes {
    if e.SendTo? && ConnOf(t, e.fd) == Some(c) && c < |t.conns| && t.conns[c].phase == Estab
       && FitsWindow(t.conns[c], Min(|e.buff|, MAX_TCP_PAYLOAD))
    then e.buff[..Min(|e.buff|, MAX_TCP_PAYLOAD)]
    else []
  }

  /** All that the application has sent on `c` during the run, each call clipped to one segment. */
  function SentByApp(topo: Topology, events: seq<Event>, c: nat): bytes {
    if events == [] then []
    else SentByApp(topo, events[..|events| - 1], c)
         + SentBy(Run(topo, events[..|events| - 1]).tcp, events[|events| - 1], c)
  }

  /** What a step emits for a connection is what the application sent on it; answers carry no data. */
  lemma EmissionIsSent(topo: Topology, t: Tcp, e: Event, c: nat)
    requires Inv(t)
    ensures var out := Step(topo, t, e).out;
            (if out != None && out.value.conn == c then out.value.seg.payload else []) == SentBy(t, e, c)
  {
    hide HandleSegment, ReadOldest, FirstEstab, FitsWindow, Dispatch, Inv, Wrap;
    if e.SendTo? && ConnOf(t, e.fd) != None {
      ConnPhase(t, e.fd);
    }
  }

  lemma StepSends(topo: Topology, w: World, e: Event, c: nat)
    requires |w.hist| == |w.tcp.conns| && Inv(w.tcp) && c < |WorldStep(topo, w, e).hist|
    ensures Payloads(WorldStep(topo, w, e).hist[c].emitted)
         == (if c < |w.hist| then Payloads(w.hist[c].emitted) else []) + SentBy(w.tcp, e, c)
  {
    hide Step, SentBy, Inv, Taken, DeliveredTo, FinFor;
    var r := Step(topo, w.tcp, e);
    EmissionIsSent(topo, w.tcp, e, c);
    if r.out != None {
      PayloadsAppend(Before(w, e, c).emitted, r.out.value.seg);
    }
  }

  lemma NothingSentBefore(t: Tcp, e: Event, c: nat)
    requires c >= |t.conns|
    ensures SentBy(t, e, c) == []
  {
  }

  lemma {:induction false} NothingSentBeforeSyn(topo: Topology, events: seq<Event>, c: nat)
    requires Legal(topo, events) && c >= |Run(topo, events).tcp.conns|
    ensures SentByApp(topo, events, c) == []
  {
    hide SentBy, Later, Inv, Step;
    if events != [] {
      var n := |events| - 1;
      RunInv(topo, events[..n]);
      StepKeeps(topo, Run(topo, events[..n]).tcp, events[n]);
      ConnsGrow(Run(topo, events[..n]).tcp, Run(topo, events).tcp);
      NothingSentBeforeSyn(topo, events[..n], c);
      NothingSentBefore(Run(topo, events[..n]).tcp, events[n], c);
    }
  }

  lemma ConnsGrow(t: Tcp, t': Tcp)
    requires Later(t, t')
    ensures |t.conns| <= |t'.conns|
  {
  }

  /**
   The emitted stream is the application's: over every run the payloads given to `ip_output` for a
   connection, one after the other, are the bytes of the tcp_send calls on it that fit the window, in
   the order of the calls, each clipped to 1446 bytes.
   */
  lemma {:induction false} EmittedIsSent(topo: Topology, events: seq<Event>, c: nat)
    requires Legal(topo, events) && c < |Run(topo, events).hist|
    ensures Payloads(Run(topo, events).hist[c].emitted) == SentByApp(topo, events, c)
  {
    hide Inv, WorldStep, SentBy;
    var n := |events| - 1;
    var w := Run(topo, events[..n]);
    RunInv(topo, events[..n]);
    StepSends(topo, w, events[n], c);
    if c < |w.hist| {
      EmittedIsSent(topo, events[..n], c);
    } else {
      NothingSentBeforeSyn(topo, events[..n], c);
    }
  }

  /** The sequence number after a segment; a SYN counts as one. */
  function NextSeq(seg: Segment): nat {
    seg.seqNo + |seg.payload| + (if seg.flags.syn then 1 else 0)
  }

  lemma PrefixStep(segs: seq<Segment>, i: nat)
    requires i < |segs|
    ensures PayloadBytes(segs[..i + 1]) == PayloadBytes(segs[..i]) + |segs[i].payload|
    ensures PayloadBytes(segs[..0]) == 0
  {
    assert segs[..i + 1][..i] == segs[..i];
  }

  lemma {:induction false} PayloadBytesPrefix(segs: seq<Segment>, k: nat)
    requires k <= |segs|
    ensures PayloadBytes(segs[..k]) <= PayloadBytes(segs)
  {
    if k < |segs| {
      PayloadBytesPrefix(segs[..|segs| - 1], k);
      assert segs[..|segs| - 1][..k] == segs[..k];
    } else {
      assert segs[..k] == segs;
    }
  }

  /**
   What tcp_send reports, `ipOk` being the answer of `ip_output`.  The bytes are emitted, and the state
   moves, exactly if they fit the window, whatever `ip_output` answers then.  It returns -1 exactly if
   they fit and `ip_output` fails, and the clipped size otherwise.  So the report is the number of bytes
   emitted if and only if they fit and were accepted, or did not fit and were none.
   */
  lemma SendReport(t: Tcp, fd: int, buff: bytes, ipOk: bool)
    requires Inv(t) && ConnOf(t, fd) != None
    ensures var c := ConnOf(t, fd).value;
            var n := Min(|buff|, MAX_TCP_PAYLOAD);
            var fits := t.conns[c].nxt + n <= t.conns[c].wnd;
            var r := Send(t, fd, buff, ipOk);
            var emitted := if r.out == None then [] else r.out.value.seg.payload;
            && r.ret == (if fits && !ipOk then -1 else n)
            && (r.out != None <==> fits)
            && (fits ==> emitted == buff[..n] && r.out.value.conn == c && r.out.value.seg.seqNo == t.conns[c].nxt
                         && r.t.conns[c] == t.conns[c].(nxt := t.conns[c].nxt + n))
            && (!fits ==> r.t == t)
            && (r.ret == |emitted| <==> if fits then ipOk else n == 0)
  {
    var c := ConnOf(t, fd).value;
    var conn := t.conns[c];
    ConnIsOk(t, c);
    assert ConnAt(t, c);
    TcpOutKeeps(conn, t.socks[conn.parent].localPort, buff[..Min(|buff|, MAX_TCP_PAYLOAD)], ACK);
    assert t.conns[c := conn] == t.conns;
  }

  // ---------------------------------------------------------------- connections and descriptors

  /** The socket is the newest on the list with that port. */
  predicate NewestAt(t: Tcp, list: seq<nat>, i: nat, port: u16) {
    && i < |list| && list[i] < |t.socks| && t.socks[list[i]].localPort == port
    && forall j :: 0 <= j < i ==> !(list[j] < |t.socks| && t.socks[list[j]].localPort == port)
  }

  lemma {:induction false} FindSockIsNewest(t: Tcp, list: seq<nat>, port: u16) returns (i: nat)
    ensures FindSock(t, list, port) != None ==> NewestAt(t, list, i, port) && FindSock(t, list, port) == Some(list[i])
    ensures FindSock(t, list, port) == None ==> forall k: nat :: !NewestAt(t, list, k, port)
  {
    i := 0;
    if list != [] {
      var rest := list[1..];
      var k := FindSockIsNewest(t, rest, port);
      assert forall j :: 1 <= j < |list| ==> list[j] == rest[j - 1];
      if !(list[0] < |t.socks| && t.socks[list[0]].localPort == port) {
        i := k + 1;
        forall m: nat ensures NewestAt(t, list, m, port) ==> m > 0 && NewestAt(t, rest, m - 1, port) {
        }
      }
    }
  }

  /** The remote end of a segment. */
  predicate From(c: Conn, srcIp: u32, seg: Segment) {
    c.remoteIp == srcIp && c.remotePort == seg.srcPort
  }

  /**
   Where a segment goes, by cases that exclude each other.  Of the sockets bound to the interface it came
   in by, only the newest with its destination port is looked at.  If that has a connection with the
   segment's source, the segment goes there, and there is only one; if not, a SYN without ACK goes to
   the listener; all else goes nowhere.
   */
  lemma DispatchCases(t: Tcp, intf: nat, srcIp: u32, seg: Segment) returns (i: nat)
    requires Inv(t)
    ensures var d := Dispatch(t, intf, srcIp, seg);
            var list := Bound(t, intf);
            if NewestAt(t, list, i, seg.dstPort) then
              var conns := t.socks[list[i]].conns;
              && (d.Existing? <==> exists c :: c in conns && c < |t.conns| && From(t.conns[c], srcIp, seg))
              && (forall c: nat :: d == Existing(list[i], c) <==> c in conns && c < |t.conns| && From(t.conns[c], srcIp, seg))
              && (d.Listener? <==> !d.Existing? && t.socks[list[i]].listening && seg.flags.syn && !seg.flags.ack)
              && (d.Listener? ==> d.s == list[i])
            else
              d == Nobody && forall s :: s in list && s < |t.socks| ==> t.socks[s].localPort != seg.dstPort
  {
    var list := Bound(t, intf);
    i := FindSockIsNewest(t, list, seg.dstPort);
    if FindSock(t, list, seg.dstPort) != None {
      var s := list[i];
      assert SockAt(t, s);
      var found := FindConn(t, t.socks[s].conns, srcIp, seg.srcPort);
      if found == None {
        FindConnNone(t, t.socks[s].conns, srcIp, seg.srcPort);
      } else {
        forall c | c in t.socks[s].conns && c < |t.conns| && From(t.conns[c], srcIp, seg) ensures c == found.value {
          assert SameRemote(t.conns[c], t.conns[found.value]);
        }
      }
    } else {
      FindSockNone(t, list, seg.dstPort);
    }
  }

  lemma {:induction false} FindSockNone(t: Tcp, list: seq<nat>, port: u16)
    requires FindSock(t, list, port) == None
    ensures forall s :: s in list && s < |t.socks| ==> t.socks[s].localPort != port
  {
    if list != [] {
      FindSockNone(t, list[1..], port);
    }
  }

  /** A listener's segments find their connection: the one with that remote end, if there is one. */
  lemma DispatchIsExact(t: Tcp, intf: nat, srcIp: u32, seg: Segment, c: nat)
    requires Inv(t) && c < |t.conns| && IsLive(t, c)
    requires FindSock(t, Bound(t, intf), seg.dstPort) == Some(t.conns[c].parent)
    ensures Dispatch(t, intf, srcIp, seg) == Existing(t.conns[c].parent, c)
       <==> t.conns[c].remoteIp == srcIp && t.conns[c].remotePort == seg.srcPort
  {
    hide Without;
    var s := t.conns[c].parent;
    assert SockAt(t, s);
    var found := FindConn(t, t.socks[s].conns, srcIp, seg.srcPort);
    if found == None {
      FindConnNone(t, t.socks[s].conns, srcIp, seg.srcPort);
    } else {
      assert SameRemote(t.conns[found.value], t.conns[c])
        <==> t.conns[c].remoteIp == srcIp && t.conns[c].remotePort == seg.srcPort;
    }
  }

  /** Every connection is on exactly one list of its socket, once, and no live two share a remote end. */
  lemma EveryConnectionListedOnce(topo: Topology, events: seq<Event>, c: nat, d: nat)
    requires Legal(topo, events) && c < |Run(topo, events).tcp.conns| && d < |Run(topo, events).tcp.conns|
    ensures var t := Run(topo, events).tcp;
            && (IsLive(t, c) != IsClosed(t, c))
            && Distinct(t.socks[t.conns[c].parent].conns) && Distinct(t.socks[t.conns[c].parent].closed)
            && ((IsLive(t, c) && IsLive(t, d) && t.conns[c].parent == t.conns[d].parent
                 && SameRemote(t.conns[c], t.conns[d])) ==> c == d)
  {
    hide Run, ConnOk;
    RunInv(topo, events);
    var t := Run(topo, events).tcp;
    assert ConnAt(t, c) && SockAt(t, t.conns[c].parent);
  }

  /** From any point of a run to its end, connections only move forward. */
  lemma {:induction false} RunLater(topo: Topology, events: seq<Event>, k: nat)
    requires Legal(topo, events) && k <= |events|
    ensures Later(Run(topo, events[..k]).tcp, Run(topo, events).tcp)
  {
    hide Inv, Later, Step;
    if k == |events| {
      assert events[..k] == events;
      LaterSelf(Run(topo, events).tcp);
    } else {
      var before := events[..|events| - 1];
      assert before[..k] == events[..k];
      RunLater(topo, before, k);
      RunInv(topo, before);
      StepKeeps(topo, Run(topo, before).tcp, events[|events| - 1]);
      LaterTrans(Run(topo, events[..k]).tcp, Run(topo, before).tcp, Run(topo, events).tcp);
    }
  }

  /** A descriptor handed out names the same connection, past its handshake, for the rest of the run. */
  lemma DescriptorsLast(topo: Topology, events: seq<Event>, k: nat, fd: nat, c: nat)
    requires Legal(topo, events) && k <= |events|
    ensures var t := Run(topo, events).tcp;
            ConnOf(Run(topo, events[..k]).tcp, fd) == Some(c) ==>
            c < |Run(topo, events[..k]).tcp.conns| && c < |t.conns|
            && ConnOf(t, fd) == Some(c) && t.conns[c].phase == Estab
            && t.conns[c].remoteIp == Run(topo, events[..k]).tcp.conns[c].remoteIp
            && t.conns[c].remotePort == Run(topo, events[..k]).tcp.conns[c].remotePort
  {
    hide Run;
    RunLater(topo, events, k);
    RunInv(topo, events);
  }

  /** Once closed, a connection stays closed and accepts nothing more. */
  lemma ClosedIsFrozen(topo: Topology, events: seq<Event>, k: nat, c: nat)
    requires Legal(topo, events) && k <= |events|
    ensures var before, t := Run(topo, events[..k]).tcp, Run(topo, events).tcp;
            c < |before.conns| && IsClosed(before, c) ==>
            c < |t.conns| && IsClosed(t, c) && t.conns[c].rcvNxt == before.conns[c].rcvNxt
  {
    hide Run;
    RunLater(topo, events, k);
  }
}
