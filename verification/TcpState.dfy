/**
 The state invariant of the TCP engine, kept by every segment and every API call in any interleaving,
 and the direction in which connections move.
 */
module TcpState {
  import opened Bytes
  import opened Sequences
  import opened TcpFormat
  import opened Nodes
  import opened Tcp

  datatype Event =
    | Arrive(intf: nat, srcIp: u32, seg: Segment, buf: nat)
    | NewSocket(node: nat)
    | CloseSocket(fd: int)
    | BindTo(fd: int, ip: u32, port: u16)
    | ListenOn(fd: int)
    | AcceptOn(fd: int)
    | RecvFrom(fd: int, size: nat)
    | SendTo(fd: int, buff: bytes, ipOk: bool)

  function Step(topo: Topology, t: Tcp, e: Event): Result {
    match e
    case Arrive(intf, srcIp, seg, buf) => Input(t, intf, srcIp, seg, buf)
    case NewSocket(node) => Socket(t, node)
    case CloseSocket(fd) => Close(t, fd)
    case BindTo(fd, ip, port) => Bind(topo, t, fd, ip, port)
    case ListenOn(fd) => Listen(t, fd)
    case AcceptOn(fd) => Accept(t, fd)
    case RecvFrom(fd, size) => Recv(t, fd, size)
    case SendTo(fd, buff, ipOk) => Send(t, fd, buff, ipOk)
  }

  /** tcp_close frees the socket and leaves its connections dangling: only a socket without any is closed. */
  predicate Allowed(t: Tcp, e: Event) {
    e.CloseSocket? && SockOf(t, e.fd) != None ==>
      var s := t.socks[SockOf(t, e.fd).value];
      s.conns == [] && s.closed == []
  }

  // ---------------------------------------------------------------- the invariant

  /** Descriptors name open sockets, each at most once. */
  predicate FdsOk(t: Tcp) {
    && |t.fds| == MAX_TCP_SOCKS
    && (forall i :: 0 <= i < |t.fds| && t.fds[i] != None ==> t.fds[i].value < |t.socks| && t.socks[t.fds[i].value].open)
    && (forall i, j :: 0 <= i < j < |t.fds| && t.fds[i] != None ==> t.fds[i] != t.fds[j])
  }

  /** An interface's list holds open sockets bound to it, once each. */
  predicate IntfListOk(t: Tcp, intf: nat) {
    && Distinct(Bound(t, intf))
    && (forall s :: s in Bound(t, intf) ==>
          s < |t.socks| && t.socks[s].open && t.socks[s].bound && t.socks[s].intf == intf)
  }

  /** The two lists of a socket: its connections, no two of them listed twice, none in both. */
  predicate SockListsOk(t: Tcp, s: nat)
    requires s < |t.socks|
  {
    var sock := t.socks[s];
    && Distinct(sock.conns) && Distinct(sock.closed)
    && (forall c :: c in sock.conns ==> c < |t.conns| && t.conns[c].parent == s && c !in sock.closed)
    && (forall c :: c in sock.closed ==> c < |t.conns| && t.conns[c].parent == s && t.conns[c].phase == Estab)
    && (!sock.open || !sock.bound ==> sock.conns == [] && sock.closed == [])
    && (sock.listening ==> sock.bound)
  }

  predicate SameRemote(c: Conn, d: Conn) {
    c.remoteIp == d.remoteIp && c.remotePort == d.remotePort
  }

  /** No two connections of a socket have the same remote end. */
  predicate RemotesUnique(t: Tcp, s: nat)
    requires s < |t.socks|
  {
    var list := t.socks[s].conns;
    forall c, d :: c in list && d in list && c < |t.conns| && d < |t.conns| && SameRemote(t.conns[c], t.conns[d]) ==> c == d
  }

  predicate IsLive(t: Tcp, c: nat)
    requires c < |t.conns|
  {
    t.conns[c].parent < |t.socks| && c in t.socks[t.conns[c].parent].conns
  }

  predicate IsClosed(t: Tcp, c: nat)
    requires c < |t.conns|
  {
    t.conns[c].parent < |t.socks| && c in t.socks[t.conns[c].parent].closed
  }

  /** `una`, `iss` and the advertised window never change; `nxt` stays within the peer's first window. */
  predicate ConnOk(c: Conn) {
    && c.una == 0 && c.iss == 0 && c.rcvWnd == TCP_WINDOW_SIZE
    && 1 <= c.nxt && (c.nxt <= c.wnd || c.nxt == 1)
  }

  predicate SockAt(t: Tcp, s: nat)
    requires s < |t.socks|
  {
    && SockListsOk(t, s)
    && RemotesUnique(t, s)
    && (t.socks[s].open && t.socks[s].bound ==> s in Bound(t, t.socks[s].intf))
  }

  predicate ConnAt(t: Tcp, c: nat)
    requires c < |t.conns|
  {
    ConnOk(t.conns[c]) && (IsLive(t, c) || IsClosed(t, c))
  }

  /** A connection descriptor names a connection past its handshake. */
  predicate ConnFdsOk(t: Tcp) {
    && |t.connFds| == MAX_TCP_CONN_SOCKS
    && forall i :: 0 <= i < |t.connFds| && t.connFds[i] != None ==>
         t.connFds[i].value < |t.conns| && t.conns[t.connFds[i].value].phase == Estab
  }

  ghost predicate Inv(t: Tcp) {
    && FdsOk(t) && ConnFdsOk(t)
    && (forall intf: nat :: IntfListOk(t, intf))
    && (forall s: nat :: s < |t.socks| ==> SockAt(t, s))
    && (forall c: nat :: c < |t.conns| ==> ConnAt(t, c))
  }

  /** Where connections may go: forward only, with what identifies them fixed. */
  predicate ConnLater(c: Conn, d: Conn) {
    && d.parent == c.parent && d.remoteIp == c.remoteIp && d.remotePort == c.remotePort
    && d.irs == c.irs && d.wnd == c.wnd
    && (c.phase == Estab ==> d.phase == Estab)
    && c.nxt <= d.nxt
  }

  ghost predicate Later(t: Tcp, t': Tcp) {
    && |t.conns| <= |t'.conns| && |t.socks| <= |t'.socks|
    && (forall c :: 0 <= c < |t.conns| ==> ConnLater(t.conns[c], t'.conns[c]))
    && (forall c :: 0 <= c < |t.conns| && IsClosed(t, c) ==>
          IsClosed(t', c) && t'.conns[c].rcvNxt == t.conns[c].rcvNxt)
    && (forall i :: 0 <= i < |t.connFds| && t.connFds[i] != None ==> i < |t'.connFds| && t'.connFds[i] == t.connFds[i])
  }

  // ---------------------------------------------------------------- lists

  lemma {:induction false} FindConnNone(t: Tcp, list: seq<nat>, ip: u32, port: u16)
    requires FindConn(t, list, ip, port) == None
    ensures forall c :: c in list && c < |t.conns| ==> !(t.conns[c].remoteIp == ip && t.conns[c].remotePort == port)
  {
    if list != [] {
      FindConnNone(t, list[1..], ip, port);
    }
  }

  // ---------------------------------------------------------------- pointers that are never dangling

  lemma SocksInRange(t: Tcp, intf: nat)
    requires Inv(t)
    ensures forall s :: s in Bound(t, intf) ==> s < |t.socks|
  {
    assert IntfListOk(t, intf);
  }

  lemma ConnsInRange(t: Tcp, s: nat)
    requires Inv(t) && s < |t.socks|
    ensures forall c :: c in t.socks[s].conns ==> c < |t.conns|
  {
    assert SockAt(t, s);
  }

  lemma FdsInRange(t: Tcp)
    requires Inv(t)
    ensures forall fd :: 0 <= fd < |t.fds| && t.fds[fd] != None ==> t.fds[fd].value < |t.socks|
    ensures forall fd :: 0 <= fd < |t.connFds| && t.connFds[fd] != None ==>
              t.connFds[fd].value < |t.conns| && t.conns[t.connFds[fd].value].parent < |t.socks|
  {
    forall fd | 0 <= fd < |t.connFds| && t.connFds[fd] != None
      ensures t.connFds[fd].value < |t.conns| && t.conns[t.connFds[fd].value].parent < |t.socks|
    {
      assert ConnAt(t, t.connFds[fd].value);
    }
  }

  /** A good connection descriptor is that of an established connection of some socket. */
  lemma ConnPhase(t: Tcp, fd: int)
    requires Inv(t) && ConnOf(t, fd) != None
    ensures var c := t.conns[ConnOf(t, fd).value];
            c.phase == Estab && c.parent < |t.socks|
  {
    assert ConnAt(t, ConnOf(t, fd).value);
  }

  // ---------------------------------------------------------------- one connection

  lemma TcpOutKeeps(c: Conn, port: u16, payload: bytes, flags: Flags)
    requires ConnOk(c) && !flags.syn && !flags.fin
    ensures var (d, out) := TcpOut(c, port, payload, flags);
            ConnOk(d) && ConnLater(c, d) && d.(nxt := c.nxt) == c
            && d.nxt == c.nxt + (if out != None then |payload| else 0)
            && (out == None <==> c.nxt + |payload| > c.wnd)
  {
    hide Wrap;
    WrapSmall(c.wnd);
    if FitsWindow(c, |payload|) {
      WrapSmall(c.nxt + |payload|);
    }
  }

  lemma HandleSegmentKeeps(c: Conn, port: u16, seg: Segment, buf: nat)
    requires ConnOk(c)
    ensures var h := HandleSegment(c, port, seg, buf);
            ConnOk(h.conn) && ConnLater(c, h.conn) && (h.close ==> c.phase == Estab)
  {
    TcpOutKeeps(c, port, [], RST_ACK);
    TcpOutKeeps(c.(rcvNxt := Wrap(c.rcvNxt + 1)), port, [], RST_ACK);
  }

  lemma FreshConnKeeps(parent: nat, srcIp: u32, seg: Segment, port: u16)
    ensures var (c, out) := TcpOut(FreshConn(parent, srcIp, seg), port, [], SYN_ACK);
            ConnOk(c) && c == FreshConn(parent, srcIp, seg).(nxt := 1)
            && out == Some(Segment(port, seg.srcPort, 0, Wrap(seg.seqNo + 1), SYN_ACK, TCP_WINDOW_SIZE, []))
  {
    hide Wrap;
    WrapSmall(seg.wnd);
    WrapSmall(1);
  }

  // ---------------------------------------------------------------- the steps

  /** A connection that changes without moving lists keeps everything. */
  lemma ReplaceConn(t: Tcp, c: nat, d: Conn)
    requires Inv(t) && c < |t.conns| && ConnOk(d) && ConnLater(t.conns[c], d)
    requires IsClosed(t, c) ==> d.rcvNxt == t.conns[c].rcvNxt
    ensures Inv(t.(conns := t.conns[c := d])) && Later(t, t.(conns := t.conns[c := d]))
  {
    hide ConnOk;
    var t' := t.(conns := t.conns[c := d]);
    forall intf: nat ensures IntfListOk(t', intf) {
      assert IntfListOk(t, intf) && Bound(t', intf) == Bound(t, intf);
    }
    forall s: nat | s < |t'.socks| ensures SockAt(t', s) {
      assert SockAt(t, s) && Bound(t', t.socks[s].intf) == Bound(t, t.socks[s].intf);
    }
    forall k: nat | k < |t'.conns| ensures ConnAt(t', k) && IsClosed(t', k) == IsClosed(t, k) {
      assert ConnAt(t, k);
    }
  }

  /** list_del from `conns` and list_add to `closed_conns`, tcp.c:102-103. */
  lemma MoveToClosed(t: Tcp, s: nat, c: nat)
    requires Inv(t) && s < |t.socks| && c < |t.conns| && c in t.socks[s].conns && t.conns[c].phase == Estab
    ensures var sock := t.socks[s];
            var t' := t.(socks := t.socks[s := sock.(conns := Without(sock.conns, c), closed := [c] + sock.closed)]);
            Inv(t') && Later(t, t') && IsClosed(t', c) && !IsLive(t', c)
  {
    hide ConnOk;
    var sock := t.socks[s];
    var t' := t.(socks := t.socks[s := sock.(conns := Without(sock.conns, c), closed := [c] + sock.closed)]);
    assert SockAt(t, s);
    WithoutIs(sock.conns, c);
    forall intf: nat ensures IntfListOk(t', intf) {
      assert IntfListOk(t, intf) && Bound(t', intf) == Bound(t, intf);
    }
    forall k: nat | k < |t'.socks| ensures SockAt(t', k) {
      assert SockAt(t, k) && Bound(t', t.socks[k].intf) == Bound(t, t.socks[k].intf);
    }
    forall k: nat | k < |t'.conns| ensures ConnAt(t', k) && (IsClosed(t, k) ==> IsClosed(t', k)) {
      assert ConnAt(t, k);
    }
  }

  lemma LaterTrans(a: Tcp, b: Tcp, c: Tcp)
    requires Later(a, b) && Later(b, c)
    ensures Later(a, c)
  {
    forall k | 0 <= k < |a.conns| ensures ConnLater(a.conns[k], c.conns[k]) {
      assert ConnLater(a.conns[k], b.conns[k]) && ConnLater(b.conns[k], c.conns[k]);
    }
  }

  lemma LiveNotClosed(t: Tcp, s: nat, c: nat)
    requires Inv(t) && s < |t.socks| && c in t.socks[s].conns
    ensures c < |t.conns| && t.conns[c].parent == s && IsLive(t, c) && !IsClosed(t, c)
  {
    assert SockAt(t, s);
  }

  lemma ExistingKeeps(t: Tcp, s: nat, c: nat, seg: Segment, buf: nat)
    requires Inv(t) && s < |t.socks| && c < |t.conns| && c in t.socks[s].conns
    ensures var r := ToExisting(t, s, c, seg, buf);
            Inv(r.t) && Later(t, r.t)
  {
    hide Inv, Later, ConnOk, ConnLater, HandleSegment, IsLive, IsClosed;
    LiveNotClosed(t, s, c);
    ConnIsOk(t, c);
    var h := HandleSegment(t.conns[c], t.socks[s].localPort, seg, buf);
    HandleSegmentKeeps(t.conns[c], t.socks[s].localPort, seg, buf);
    ReplaceConn(t, c, h.conn);
    var t1 := t.(conns := t.conns[c := h.conn]);
    if h.close {
      StillEstab(t.conns[c], h.conn);
      MoveToClosed(t1, s, c);
      var sock := t1.socks[s];
      LaterTrans(t, t1, t1.(socks := t1.socks[s := sock.(conns := Without(sock.conns, c), closed := [c] + sock.closed)]));
    } else {
      assert t.socks[s := t.socks[s]] == t.socks;
    }
  }

  lemma ConnIsOk(t: Tcp, c: nat)
    requires Inv(t) && c < |t.conns|
    ensures ConnOk(t.conns[c])
  {
    assert ConnAt(t, c);
  }

  lemma StillEstab(c: Conn, d: Conn)
    requires c.phase == Estab && ConnLater(c, d)
    ensures d.phase == Estab
  {
  }

  /** A new connection of an open, bound socket joins the front of its list. */
  lemma AddConn(t: Tcp, s: nat, conn: Conn)
    requires Inv(t) && s < |t.socks| && t.socks[s].open && t.socks[s].bound && ConnOk(conn) && conn.parent == s
    requires forall c :: c in t.socks[s].conns && c < |t.conns| ==> !SameRemote(t.conns[c], conn)
    ensures var t' := t.(conns := t.conns + [conn],
                         socks := t.socks[s := t.socks[s].(conns := [|t.conns|] + t.socks[s].conns)]);
            Inv(t') && Later(t, t')
  {
    hide ConnOk;
    var c := |t.conns|;
    var t' := t.(conns := t.conns + [conn], socks := t.socks[s := t.socks[s].(conns := [c] + t.socks[s].conns)]);
    forall intf: nat ensures IntfListOk(t', intf) {
      assert IntfListOk(t, intf) && Bound(t', intf) == Bound(t, intf);
    }
    assert SockAt(t, s);
    forall a: nat, b: nat | a in t'.socks[s].conns && b in t'.socks[s].conns && a < |t'.conns| && b < |t'.conns|
      && SameRemote(t'.conns[a], t'.conns[b])
      ensures a == b
    {
      assert a == c || (a in t.socks[s].conns && t'.conns[a] == t.conns[a]);
      assert b == c || (b in t.socks[s].conns && t'.conns[b] == t.conns[b]);
    }
    assert RemotesUnique(t', s);
    assert Distinct([c] + t.socks[s].conns) by {
      assert c !in t.socks[s].conns;
    }
    assert c !in t.socks[s].closed;
    assert SockListsOk(t', s);
    forall k: nat | k < |t'.socks| ensures SockAt(t', k) {
      assert SockAt(t, k) && Bound(t', t.socks[k].intf) == Bound(t, t.socks[k].intf);
    }
    forall k: nat | k < |t'.conns| ensures ConnAt(t', k) {
      if k < c {
        assert ConnAt(t, k);
      }
    }
  }

  lemma ListenerKeeps(t: Tcp, s: nat, srcIp: u32, seg: Segment)
    requires Inv(t) && s < |t.socks| && t.socks[s].open && t.socks[s].bound
    requires FindConn(t, t.socks[s].conns, srcIp, seg.srcPort) == None
    ensures var r := ToListener(t, s, srcIp, seg);
            Inv(r.t) && Later(t, r.t)
  {
    hide Inv, Later, TcpOut, ConnOk;
    FreshConnKeeps(s, srcIp, seg, t.socks[s].localPort);
    FindConnNone(t, t.socks[s].conns, srcIp, seg.srcPort);
    AddConn(t, s, TcpOut(FreshConn(s, srcIp, seg), t.socks[s].localPort, [], SYN_ACK).0);
  }

  lemma InputKeeps(t: Tcp, intf: nat, srcIp: u32, seg: Segment, buf: nat)
    requires Inv(t)
    ensures var r := Input(t, intf, srcIp, seg, buf);
            Inv(r.t) && Later(t, r.t)
  {
    hide ToExisting, ToListener, Later;
    LaterSelf(t);
    match Dispatch(t, intf, srcIp, seg)
    case Nobody =>
    case Existing(s, c) => ExistingKeeps(t, s, c, seg, buf);
    case Listener(s) =>
      assert IntfListOk(t, intf);
      ListenerKeeps(t, s, srcIp, seg);
  }

  lemma LaterSelf(t: Tcp)
    ensures Later(t, t)
  {
  }

  lemma SocketKeeps(t: Tcp, node: nat)
    requires Inv(t)
    ensures Inv(Socket(t, node).t) && Later(t, Socket(t, node).t)
  {
    hide ConnOk;
    var t' := Socket(t, node).t;
    forall intf: nat ensures IntfListOk(t', intf) {
      assert IntfListOk(t, intf) && Bound(t', intf) == Bound(t, intf);
    }
    forall k: nat | k < |t'.socks| ensures SockAt(t', k) {
      if k < |t.socks| {
        assert SockAt(t, k) && Bound(t', t.socks[k].intf) == Bound(t, t.socks[k].intf);
      }
    }
    forall k: nat | k < |t'.conns| ensures ConnAt(t', k) {
      assert ConnAt(t, k);
    }
  }

  /** Replacing a socket's other fields leaves the connection lists alone. */
  lemma ReplaceSock(t: Tcp, s: nat, sock: Sock, t': Tcp)
    requires Inv(t) && s < |t.socks| && t'.socks == t.socks[s := sock] && t'.conns == t.conns && t'.connFds == t.connFds
    requires sock.conns == t.socks[s].conns && sock.closed == t.socks[s].closed
    requires (sock.open && sock.bound) || (sock.conns == [] && sock.closed == [])
    requires sock.listening ==> sock.bound
    requires FdsOk(t') && (forall intf: nat :: IntfListOk(t', intf))
    requires sock.open && sock.bound ==> s in Bound(t', sock.intf)
    requires forall k: nat, intf :: k != s && k in Bound(t, intf) ==> k in Bound(t', intf)
    ensures Inv(t') && Later(t, t')
  {
    hide ConnOk;
    forall k: nat | k < |t'.socks| ensures SockAt(t', k) {
      assert SockAt(t, k);
    }
    forall k: nat | k < |t.conns| ensures ConnAt(t', k) && IsClosed(t', k) == IsClosed(t, k) {
      assert ConnAt(t, k);
    }
  }

  lemma BindKeeps(topo: Topology, t: Tcp, fd: int, ip: u32, port: u16)
    requires Inv(t)
    ensures Inv(Bind(topo, t, fd, ip, port).t) && Later(t, Bind(topo, t, fd, ip, port).t)
  {
    var r := Bind(topo, t, fd, ip, port);
    LaterSelf(t);
    if r.ret == 0 {
      var s := SockOf(t, fd).value;
      var intf := r.t.socks[s].intf;
      assert SockAt(t, s) && IntfListOk(t, intf);
      forall i: nat ensures IntfListOk(r.t, i) {
        assert IntfListOk(t, i) && Bound(r.t, i) == if i == intf then [s] + Bound(t, intf) else Bound(t, i);
      }
      ReplaceSock(t, s, r.t.socks[s], r.t);
    }
  }

  lemma CloseKeeps(t: Tcp, fd: int)
    requires Inv(t) && Allowed(t, CloseSocket(fd))
    ensures Inv(Close(t, fd).t) && Later(t, Close(t, fd).t)
  {
    var r := Close(t, fd);
    LaterSelf(t);
    if r.ret == 0 {
      var s := SockOf(t, fd).value;
      var intf := t.socks[s].intf;
      assert SockAt(t, s) && IntfListOk(t, intf);
      WithoutIs(Bound(t, intf), s);
      forall i: nat ensures IntfListOk(r.t, i) {
        assert IntfListOk(t, i);
        assert Bound(r.t, i) == if i == intf && t.socks[s].bound then Without(Bound(t, intf), s) else Bound(t, i);
      }
      ReplaceSock(t, s, r.t.socks[s], r.t);
    }
  }

  lemma ListenKeeps(t: Tcp, fd: int)
    requires Inv(t)
    ensures Inv(Listen(t, fd).t) && Later(t, Listen(t, fd).t)
  {
    var r := Listen(t, fd);
    LaterSelf(t);
    if r.ret == 0 {
      var s := SockOf(t, fd).value;
      assert SockAt(t, s);
      forall i: nat ensures IntfListOk(r.t, i) {
        assert IntfListOk(t, i) && Bound(r.t, i) == Bound(t, i);
      }
      ReplaceSock(t, s, r.t.socks[s], r.t);
    }
  }

  lemma AcceptKeeps(t: Tcp, fd: int)
    requires Inv(t)
    ensures Inv(Accept(t, fd).t) && Later(t, Accept(t, fd).t)
  {
    hide ConnOk;
    var t' := Accept(t, fd).t;
    forall i: nat ensures IntfListOk(t', i) {
      assert IntfListOk(t, i) && Bound(t', i) == Bound(t, i);
    }
    forall k: nat | k < |t'.socks| ensures SockAt(t', k) {
      assert SockAt(t, k) && Bound(t', t.socks[k].intf) == Bound(t, t.socks[k].intf);
    }
    forall k: nat | k < |t.conns| ensures ConnAt(t', k) && IsClosed(t', k) == IsClosed(t, k) {
      assert ConnAt(t, k);
    }
  }

  lemma RecvKeeps(t: Tcp, fd: int, size: nat)
    requires Inv(t)
    ensures Inv(Recv(t, fd, size).t) && Later(t, Recv(t, fd, size).t)
  {
    hide Inv, Later;
    LaterSelf(t);
    var c := ConnOf(t, fd);
    if c != None && t.conns[c.value].phase == Estab && t.conns[c.value].rx != [] {
      ConnIsOk(t, c.value);
      ReplaceConn(t, c.value, ReadOldest(t.conns[c.value], size).0);
    }
  }

  lemma SendKeeps(t: Tcp, fd: int, buff: bytes, ipOk: bool)
    requires Inv(t)
    ensures Inv(Send(t, fd, buff, ipOk).t) && Later(t, Send(t, fd, buff, ipOk).t)
  {
    hide Inv, Later, TcpOut, ConnOk, ConnLater;
    LaterSelf(t);
    var r := Send(t, fd, buff, ipOk);
    var c := ConnOf(t, fd);
    if c != None && t.conns[c.value].phase == Estab && t.conns[c.value].parent < |t.socks| {
      var conn := t.conns[c.value];
      ConnIsOk(t, c.value);
      var payload := buff[..Min(|buff|, MAX_TCP_PAYLOAD)];
      TcpOutKeeps(conn, t.socks[conn.parent].localPort, payload, ACK);
      ReplaceConn(t, c.value, TcpOut(conn, t.socks[conn.parent].localPort, payload, ACK).0);
    }
  }

  /** Every step keeps the invariant and moves connections forward only. */
  lemma StepKeeps(topo: Topology, t: Tcp, e: Event)
    requires Inv(t) && Allowed(t, e)
    ensures Inv(Step(topo, t, e).t) && Later(t, Step(topo, t, e).t)
  {
    hide Inv, Later;
    match e
    case Arrive(intf, srcIp, seg, buf) => InputKeeps(t, intf, srcIp, seg, buf);
    case NewSocket(node) => SocketKeeps(t, node);
    case CloseSocket(fd) => CloseKeeps(t, fd);
    case BindTo(fd, ip, port) => BindKeeps(topo, t, fd, ip, port);
    case ListenOn(fd) => ListenKeeps(t, fd);
    case AcceptOn(fd) => AcceptKeeps(t, fd);
    case RecvFrom(fd, size) => RecvKeeps(t, fd, size);
    case SendTo(fd, buff, ipOk) => SendKeeps(t, fd, buff, ipOk);
  }

  lemma InitInv()
    ensures Inv(Init())
  {
  }
}
