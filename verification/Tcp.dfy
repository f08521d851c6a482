/**
 The TCP engine of tcp.c as functions on values.

 Connections and sockets are numbered in the order in which calloc creates them; a number stands for
 the pointer.  Lists are sequences with the newest element first, as `list_add` builds them.  Module
 `TcpEngine` has the code and proves it against these functions, module `TcpRuns` proves what holds
 over whole runs.
 */
module Tcp {
  import opened Bytes
  import opened Sequences
  import opened TcpFormat
  import opened Nodes

  const MAX_TCP_SOCKS := 8
  const MAX_TCP_CONN_SOCKS := 8
  const MAX_TCP_PAYLOAD := 1446
  const TCP_WINDOW_SIZE: u16 := 1500

  // ---------------------------------------------------------------- one connection

  /** The handler a connection's `state` points at. */
  datatype Phase = SynSent | Estab

  /** A queued segment: the unread bytes of one `sk_buff`. */
  datatype RxBuf = RxBuf(id: nat, data: bytes)

  /** struct tcp_connection_sock, tcp.h:69-92; `rx` is newest first. */
  datatype Conn = Conn(parent: nat, phase: Phase, remoteIp: u32, remotePort: u16,
                       una: u32, nxt: u32, wnd: u16, iss: u32,
                       rcvNxt: u32, rcvWnd: u16, irs: u32, rx: seq<RxBuf>)

  /** The window check at tcp.c:194. */
  predicate FitsWindow(c: Conn, size: nat) {
    c.nxt + size <= Wrap(c.una + c.wnd)
  }

  /** tcp_out, tcp.c:184-211: nothing is sent when the window check fails. */
  function TcpOut(c: Conn, localPort: u16, payload: bytes, flags: Flags): (Conn, Option<Segment>) {
    if !FitsWindow(c, |payload|) then (c, None)
    else
      var seg := Segment(localPort, c.remotePort, c.nxt, c.rcvNxt, flags, c.rcvWnd, payload);
      var used := |payload| + (if flags.syn then 1 else 0) + (if flags.fin then 1 else 0);
      (c.(nxt := Wrap(c.nxt + used)), Some(seg))
  }

  /** What a connection does with a segment: `close` asks for the move to the closed list. */
  datatype Handled = Handled(conn: Conn, consumed: bool, out: Option<Segment>, close: bool)

  function CloseConnection(c: Conn, localPort: u16): (h: Handled)
    ensures h.out != None ==> h.out.value.payload == []
    ensures h.conn.rx == c.rx
  {
    var (c', out) := TcpOut(c, localPort, [], RST_ACK);
    Handled(c', true, out, true)
  }

  /** handle_syn_sent and handle_estab, tcp.c:107-136, chosen by the `state` pointer, tcp.c:178. */
  function HandleSegment(c: Conn, localPort: u16, seg: Segment, buf: nat): (h: Handled)
    ensures h.out != None ==> h.out.value.payload == []
    ensures h.conn.rx == c.rx || (h.conn.rx == [RxBuf(buf, seg.payload)] + c.rx && h.consumed)
  {
    match c.phase
    case SynSent =>
      if seg.flags.ack && !seg.flags.syn && seg.seqNo == c.rcvNxt then
        Handled(c.(phase := Estab), false, None, false)
      else
        Handled(c, false, None, false)
    case Estab =>
      if seg.seqNo != c.rcvNxt then Handled(c, false, None, false)
      else if seg.flags.rst then CloseConnection(c, localPort)
      else if seg.flags.fin then CloseConnection(c.(rcvNxt := Wrap(c.rcvNxt + 1)), localPort)
      else Handled(c.(rcvNxt := Wrap(c.rcvNxt + |seg.payload|), rx := [RxBuf(buf, seg.payload)] + c.rx), true, None, false)
  }

  /** The connection handle_new_connection sets up, before it answers: tcp.c:144-159. */
  function FreshConn(parent: nat, srcIp: u32, seg: Segment): Conn {
    Conn(parent, SynSent, srcIp, seg.srcPort, 0, 0, seg.wnd, 0,
         Wrap(seg.seqNo + 1), TCP_WINDOW_SIZE, Htonl(seg.seqNo), [])
  }

  /** A partial read of the oldest queued segment, tcp.c:293-305: the connection, the bytes and the freed buffer. */
  function ReadOldest(c: Conn, size: nat): (r: (Conn, bytes, Option<nat>))
    requires c.rx != []
  {
    var k := |c.rx| - 1;
    var skb := c.rx[k];
    var n := Min(|skb.data|, size);
    if n == |skb.data| then (c.(rx := c.rx[..k]), skb.data[..n], Some(skb.id))
    else (c.(rx := c.rx[k := skb.(data := skb.data[n..])]), skb.data[..n], None)
  }

  // ---------------------------------------------------------------- sockets and tables

  /** struct tcp_sock, tcp.h:57-67; `open` is false once tcp_close has freed it. */
  datatype Sock = Sock(open: bool, node: nat, bound: bool, listening: bool, localIp: u32, intf: nat, localPort: u16,
                       conns: seq<nat>, closed: seq<nat>)

  /** All of the engine's state; `bound` holds each interface's tcp_socks_manager list. */
  datatype Tcp = Tcp(socks: seq<Sock>, conns: seq<Conn>,
                     fds: seq<Option<nat>>, connFds: seq<Option<nat>>, bound: map<nat, seq<nat>>)

  datatype Emission = Emission(conn: nat, seg: Segment)

  /** A step's effect: the new state, what the caller gets, what goes to `ip_output`, and buffers freed. */
  datatype Result = Result(t: Tcp, ret: int, data: bytes, out: Option<Emission>, consumed: bool, freed: Option<nat>)

  function Init(): Tcp {
    Tcp([], [], seq(MAX_TCP_SOCKS, _ => None), seq(MAX_TCP_CONN_SOCKS, _ => None), map[])
  }

  function Bound(t: Tcp, intf: nat): seq<nat> {
    if intf in t.bound then t.bound[intf] else []
  }

  /** tcp_socks_manager_find, tcp.c:69-78. */
  function FindSock(t: Tcp, list: seq<nat>, port: u16): (r: Option<nat>)
    ensures r != None ==> r.value in list && r.value < |t.socks| && t.socks[r.value].localPort == port
  {
    if list == [] then None
    else if list[0] < |t.socks| && t.socks[list[0]].localPort == port then Some(list[0])
    else FindSock(t, list[1..], port)
  }

  /** find_matching_connection, tcp.c:80-90. */
  function FindConn(t: Tcp, list: seq<nat>, ip: u32, port: u16): (r: Option<nat>)
    ensures r != None ==> r.value in list && r.value < |t.conns|
                          && t.conns[r.value].remoteIp == ip && t.conns[r.value].remotePort == port
  {
    if list == [] then None
    else if list[0] < |t.conns| && t.conns[list[0]].remoteIp == ip && t.conns[list[0]].remotePort == port then Some(list[0])
    else FindConn(t, list[1..], ip, port)
  }

  function SockOf(t: Tcp, fd: int): (r: Option<nat>)
    ensures r != None ==> 0 <= fd < |t.fds| && t.fds[fd] == r && r.value < |t.socks|
  {
    if 0 <= fd < |t.fds| && t.fds[fd] != None && t.fds[fd].value < |t.socks| then t.fds[fd] else None
  }

  function ConnOf(t: Tcp, fd: int): (r: Option<nat>)
    ensures r != None ==> 0 <= fd < |t.connFds| && t.connFds[fd] == r && r.value < |t.conns|
  {
    if 0 <= fd < |t.connFds| && t.connFds[fd] != None && t.connFds[fd].value < |t.conns| then t.connFds[fd] else None
  }

  function Return(t: Tcp, ret: int): Result {
    Result(t, ret, [], None, false, None)
  }

  // ---------------------------------------------------------------- segments, tcp.c:138-182

  /** Where an arriving segment goes. */
  datatype Target = Nobody | Listener(s: nat) | Existing(s: nat, c: nat)

  function Dispatch(t: Tcp, intf: nat, srcIp: u32, seg: Segment): (d: Target)
    ensures !d.Nobody? ==> d.s < |t.socks| && d.s in Bound(t, intf)
    ensures d.Existing? ==> d.c < |t.conns| && d.c in t.socks[d.s].conns
  {
    var sock := FindSock(t, Bound(t, intf), seg.dstPort);
    if sock == None then Nobody
    else
      var conn := FindConn(t, t.socks[sock.value].conns, srcIp, seg.srcPort);
      if conn != None then Existing(sock.value, conn.value)
      else if t.socks[sock.value].listening && seg.flags.syn && !seg.flags.ack then Listener(sock.value)
      else Nobody
  }

  function Emit(c: nat, out: Option<Segment>): Option<Emission> {
    if out == None then None else Some(Emission(c, out.value))
  }

  function ToExisting(t: Tcp, s: nat, c: nat, seg: Segment, buf: nat): Result
    requires s < |t.socks| && c < |t.conns|
  {
    var sock := t.socks[s];
    var h := HandleSegment(t.conns[c], sock.localPort, seg, buf);
    var sock' := if h.close then sock.(conns := Without(sock.conns, c), closed := [c] + sock.closed) else sock;
    Result(t.(conns := t.conns[c := h.conn], socks := t.socks[s := sock']), 0, [], Emit(c, h.out), h.consumed, None)
  }

  /** handle_new_connection, tcp.c:138-166. */
  function ToListener(t: Tcp, s: nat, srcIp: u32, seg: Segment): Result
    requires s < |t.socks|
  {
    var c := |t.conns|;
    var (conn, out) := TcpOut(FreshConn(s, srcIp, seg), t.socks[s].localPort, [], SYN_ACK);
    Result(t.(conns := t.conns + [conn], socks := t.socks[s := t.socks[s].(conns := [c] + t.socks[s].conns)]),
           0, [], Emit(c, out), false, None)
  }

  /** tcp_input, tcp.c:168-182. */
  function Input(t: Tcp, intf: nat, srcIp: u32, seg: Segment, buf: nat): Result {
    match Dispatch(t, intf, srcIp, seg)
    case Nobody => Return(t, 0)
    case Existing(s, c) => ToExisting(t, s, c, seg, buf)
    case Listener(s) => ToListener(t, s, srcIp, seg)
  }

  // ---------------------------------------------------------------- the API, tcp.c:213-324

  function Socket(t: Tcp, node: nat): Result {
    var i := FirstFree(t.fds);
    if i == |t.fds| then Return(t, -1)
    else
      var s := |t.socks|;
      Return(t.(socks := t.socks + [Sock(true, node, false, false, 0, 0, 0, [], [])], fds := t.fds[i := Some(s)]), i)
  }

  function Close(t: Tcp, fd: int): Result {
    var s := SockOf(t, fd);
    if s == None then Return(t, -1)
    else
      var sock := t.socks[s.value];
      var bound := if sock.bound then t.bound[sock.intf := Without(Bound(t, sock.intf), s.value)] else t.bound;
      Return(t.(fds := t.fds[fd := None], bound := bound, socks := t.socks[s.value := sock.(open := false)]), 0)
  }

  function Bind(topo: Topology, t: Tcp, fd: int, ip: u32, port: u16): Result {
    var s := SockOf(t, fd);
    if s == None || t.socks[s.value].bound then Return(t, -1)
    else
      var sock := t.socks[s.value];
      var intf := MatchingInterface(topo.cfg, topo.slots(sock.node), ip);
      if intf == None then Return(t, -1)
      else
        var sock' := sock.(bound := true, intf := intf.value, localIp := ip, localPort := port);
        Return(t.(socks := t.socks[s.value := sock'],
                  bound := t.bound[intf.value := [s.value] + Bound(t, intf.value)]), 0)
  }

  function Listen(t: Tcp, fd: int): Result {
    var s := SockOf(t, fd);
    if s == None || !t.socks[s.value].bound then Return(t, -1)
    else Return(t.(socks := t.socks[s.value := t.socks[s.value].(listening := true)]), 0)
  }

  /** The first connection of a list that is past its handshake. */
  function FirstEstab(t: Tcp, list: seq<nat>): (r: Option<nat>)
    ensures r != None ==> r.value in list && r.value < |t.conns| && t.conns[r.value].phase == Estab
  {
    if list == [] then None
    else if list[0] < |t.conns| && t.conns[list[0]].phase == Estab then Some(list[0])
    else FirstEstab(t, list[1..])
  }

  /** tcp_accept, tcp.c:264-286; the connection is not marked, so it stays acceptable. */
  function Accept(t: Tcp, fd: int): Result {
    var s := SockOf(t, fd);
    if s == None || !t.socks[s.value].listening then Return(t, -1)
    else
      var c := FirstEstab(t, t.socks[s.value].conns);
      var i := FirstFree(t.connFds);
      if c == None || i == |t.connFds| then Return(t, -1)
      else Return(t.(connFds := t.connFds[i := c]), i)
  }

  function Recv(t: Tcp, fd: int, size: nat): Result {
    var c := ConnOf(t, fd);
    if c == None || t.conns[c.value].phase != Estab || t.conns[c.value].rx == [] then Return(t, -1)
    else
      var (conn, data, freed) := ReadOldest(t.conns[c.value], size);
      Result(t.(conns := t.conns[c.value := conn]), |data|, data, None, false, freed)
  }

  /** tcp_send, tcp.c:310-324; `ipOk` is what ip_output returns, if it is called. */
  function Send(t: Tcp, fd: int, buff: bytes, ipOk: bool): Result {
    var c := ConnOf(t, fd);
    if c == None || t.conns[c.value].phase != Estab || t.conns[c.value].parent >= |t.socks| then Return(t, -1)
    else
      var n := Min(|buff|, MAX_TCP_PAYLOAD);
      var conn := t.conns[c.value];
      var (conn', out) := TcpOut(conn, t.socks[conn.parent].localPort, buff[..n], ACK);
      Result(t.(conns := t.conns[c.value := conn']), if out != None && !ipOk then -1 else n, [],
             Emit(c.value, out), false, None)
  }
}
