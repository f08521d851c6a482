/**
 The code of tcp.c: connection and socket objects whose fields the handlers update, the descriptor
 tables, and the list walks.  Every method is proved to do exactly what the function of the same
 purpose in module `Tcp` says, on the whole state.

 The objects that calloc returns are kept in creation order, so that a number can stand for a pointer.
 */
module TcpEngine {
  import opened Bytes
  import opened Sequences
  import opened TcpFormat
  import opened Nodes
  import T = Tcp
  import opened TcpState

  class TcpConnectionSock {
    var parent: nat
    var state: T.Phase
    var remote_ip: u32
    var remote_port: u16
    var snt_una: u32
    var snt_nxt: u32
    var snt_wnd: u16
    var snt_iss: u32
    var rcv_nxt: u32
    var rcv_wnd: u16
    var rcv_irs: u32
    var rx_skb: seq<T.RxBuf>

    function Model(): T.Conn
      reads this
    {
      T.Conn(parent, state, remote_ip, remote_port, snt_una, snt_nxt, snt_wnd, snt_iss, rcv_nxt, rcv_wnd, rcv_irs, rx_skb)
    }

    /** tcp.c:144-159 */
    constructor (sock: nat, src_ip: u32, hdr: Segment)
      ensures Model() == T.FreshConn(sock, src_ip, hdr)
    {
      rx_skb := [];
      remote_ip := src_ip;
      remote_port := hdr.srcPort;
      parent := sock;
      snt_una := 0;
      snt_nxt := 0;
      snt_wnd := hdr.wnd;
      snt_iss := 0;
      rcv_nxt := Wrap(hdr.seqNo + 1);
      rcv_wnd := T.TCP_WINDOW_SIZE;
      rcv_irs := Htonl(hdr.seqNo);
      state := T.SynSent;
    }

    /** tcp.c:184-211, up to the call of ip_output; module `Transmit` builds the buffer. */
    method TcpOut(local_port: u16, buff: bytes, flags: Flags) returns (out: Option<Segment>)
      modifies this`snt_nxt
      ensures T.TcpOut(old(Model()), local_port, buff, flags) == (Model(), out)
    {
      hide Wrap;
      if snt_nxt + |buff| > Wrap(snt_una + snt_wnd) {
        return None;
      }
      out := Some(Segment(local_port, remote_port, snt_nxt, rcv_nxt, flags, rcv_wnd, buff));
      if |buff| > 0 {
        snt_nxt := Wrap(snt_nxt + |buff|);
      }
      if flags.syn {
        snt_nxt := Wrap(snt_nxt + 1);
      }
      if flags.fin {
        snt_nxt := Wrap(snt_nxt + 1);
      }
      UsedWraps(old(snt_nxt), |buff|, flags.syn, flags.fin);
    }

    /** tcp.c:107-125; `close` is the request that close_connection move this to the closed list. */
    method HandleEstab(local_port: u16, hdr: Segment, skb: nat)
      returns (consumed: bool, out: Option<Segment>, close: bool)
      requires state == T.Estab
      modifies this
      ensures T.HandleSegment(old(Model()), local_port, hdr, skb) == T.Handled(Model(), consumed, out, close)
    {
      consumed, out, close := false, None, false;
      if hdr.seqNo == rcv_nxt {
        if hdr.flags.rst {
          out := TcpOut(local_port, [], RST_ACK);
          consumed, close := true, true;
        } else if hdr.flags.fin {
          rcv_nxt := Wrap(rcv_nxt + 1);
          out := TcpOut(local_port, [], RST_ACK);
          consumed, close := true, true;
        } else {
          rcv_nxt := Wrap(rcv_nxt + |hdr.payload|);
          rx_skb := [T.RxBuf(skb, hdr.payload)] + rx_skb;
          consumed := true;
        }
      }
    }

    /** tcp.c:127-136 */
    method HandleSynSent(ghost local_port: u16, hdr: Segment, ghost skb: nat) returns (consumed: bool)
      requires state == T.SynSent
      modifies this`state
      ensures T.HandleSegment(old(Model()), local_port, hdr, skb) == T.Handled(Model(), consumed, None, false)
    {
      if hdr.flags.ack && !hdr.flags.syn && hdr.seqNo == rcv_nxt {
        state := T.Estab;
      }
      consumed := false;
    }

    /** The read of tcp.c:294-305. */
    method ReadOldest(size: nat) returns (buff: bytes, freed: Option<nat>)
      requires rx_skb != []
      modifies this`rx_skb
      ensures T.ReadOldest(old(Model()), size) == (Model(), buff, freed)
    {
      var last := |rx_skb| - 1;
      var skb := rx_skb[last];
      var final_size := Min(|skb.data|, size);
      buff := skb.data[..final_size];
      skb := skb.(data := skb.data[final_size..]);
      rx_skb := rx_skb[last := skb];
      freed := None;
      if |skb.data| == 0 {
        freed := Some(skb.id);
        rx_skb := rx_skb[..last];
      }
    }
  }

  class TcpSock {
    var open: bool
    var bound: bool
    var listening: bool
    var node: nat
    var local_ip: u32
    var intf: nat
    var local_port: u16
    var conns: seq<nat>
    var closed_conns: seq<nat>

    constructor (node: nat)
      ensures Model() == T.Sock(true, node, false, false, 0, 0, 0, [], [])
    {
      open, bound, listening := true, false, false;
      this.node := node;
      local_ip, intf, local_port := 0, 0, 0;
      conns, closed_conns := [], [];
    }

    function Model(): T.Sock
      reads this
    {
      T.Sock(open, node, bound, listening, local_ip, intf, local_port, conns, closed_conns)
    }
  }

  /** The additions of tcp.c:202-206, one by one, are the sum. */
  lemma UsedWraps(nxt: u32, size: nat, syn: bool, fin: bool)
    ensures var a := if size > 0 then Wrap(nxt + size) else nxt;
            var b := if syn then Wrap(a + 1) else a;
            var c := if fin then Wrap(b + 1) else b;
            c == Wrap(nxt + (size + (if syn then 1 else 0) + (if fin then 1 else 0)))
  {
    hide Wrap;
    WrapSmall(nxt);
    WrapAdd(nxt + size, 1);
    WrapAdd(nxt + size, 2);
    WrapAdd(nxt, 1);
    WrapAdd(nxt + size + 1, 1);
    WrapAdd(nxt + 1, 1);
  }

  class TcpStack {
    var socks: seq<TcpSock>
    var conns: seq<TcpConnectionSock>
    var fd_to_sock: seq<Option<nat>>
    var fd_conn_to_sock: seq<Option<nat>>
    var managers: map<nat, seq<nat>>

    constructor ()
      ensures Valid() && Model() == T.Init()
    {
      socks, conns := [], [];
      fd_to_sock := seq(T.MAX_TCP_SOCKS, _ => None);
      fd_conn_to_sock := seq(T.MAX_TCP_CONN_SOCKS, _ => None);
      managers := map[];
    }

    ghost predicate Valid()
      reads this
    {
      Distinct(socks) && Distinct(conns)
    }

    ghost function SockModels(): (m: seq<T.Sock>)
      reads this, socks
      ensures |m| == |socks|
    {
      seq(|socks|, i requires 0 <= i < |socks| reads this, socks => socks[i].Model())
    }

    ghost function ConnModels(): (m: seq<T.Conn>)
      reads this, conns
      ensures |m| == |conns|
    {
      seq(|conns|, i requires 0 <= i < |conns| reads this, conns => conns[i].Model())
    }

    ghost function Model(): T.Tcp
      reads this, socks, conns
    {
      T.Tcp(SockModels(), ConnModels(), fd_to_sock, fd_conn_to_sock, managers)
    }

    // -------------------------------------------------------------- lookups

    predicate IsGoodTcpSock(sockfd: int)
      reads this
    {
      0 <= sockfd < |fd_to_sock| && fd_to_sock[sockfd] != None
    }

    predicate IsGoodTcpConnectionSock(sockfd: int)
      reads this
    {
      0 <= sockfd < |fd_conn_to_sock| && fd_conn_to_sock[sockfd] != None
    }

    /** tcp.c:69-78 */
    method FindSock(list: seq<nat>, port: u16) returns (r: Option<nat>)
      requires forall s :: s in list ==> s < |socks|
      ensures r == T.FindSock(Model(), list, port)
    {
      for i := 0 to |list|
        invariant T.FindSock(Model(), list, port) == T.FindSock(Model(), list[i..], port)
      {
        assert list[i] in list;
        if socks[list[i]].local_port == port {
          return Some(list[i]);
        }
      }
      r := None;
    }

    /** tcp.c:80-90 */
    method FindMatchingConnection(list: seq<nat>, ip: u32, port: u16) returns (r: Option<nat>)
      requires forall c :: c in list ==> c < |conns|
      ensures r == T.FindConn(Model(), list, ip, port)
    {
      for i := 0 to |list|
        invariant T.FindConn(Model(), list, ip, port) == T.FindConn(Model(), list[i..], ip, port)
      {
        assert list[i] in list;
        var conn := conns[list[i]];
        if conn.remote_port == port && conn.remote_ip == ip {
          return Some(list[i]);
        }
      }
      r := None;
    }

    // -------------------------------------------------------------- segments

    /** tcp.c:138-166 */
    method HandleNewConnection(s: nat, src_ip: u32, hdr: Segment) returns (out: Option<T.Emission>)
      requires Valid() && s < |socks|
      modifies this`conns, socks[s]
      ensures Valid() && fresh(set c | c in conns && c !in old(conns))
      ensures T.ToListener(old(Model()), s, src_ip, hdr) == T.Result(Model(), 0, [], out, false, None)
    {
      ghost var before := Model();
      var conn := new TcpConnectionSock(s, src_ip, hdr);
      var c := |conns|;
      conns := conns + [conn];
      socks[s].conns := [c] + socks[s].conns;
      var seg := conn.TcpOut(socks[s].local_port, [], SYN_ACK);
      out := T.Emit(c, seg);
      assert ConnModels() == before.conns + [conn.Model()];
      assert SockModels() == before.socks[s := before.socks[s].(conns := [c] + before.socks[s].conns)];
    }

    /** The call through the connection's state pointer, and the list move of close_connection. */
    method HandleExisting(s: nat, c: nat, hdr: Segment, skb: nat) returns (consumed: bool, out: Option<T.Emission>)
      requires Valid() && s < |socks| && c < |conns|
      modifies conns[c], socks[s]
      ensures T.ToExisting(old(Model()), s, c, hdr, skb) == T.Result(Model(), 0, [], out, consumed, None)
    {
      ghost var before := Model();
      var conn, sock := conns[c], socks[s];
      var seg, close := None, false;
      if conn.state == T.SynSent {
        consumed := conn.HandleSynSent(sock.local_port, hdr, skb);
      } else {
        consumed, seg, close := conn.HandleEstab(sock.local_port, hdr, skb);
      }
      if close {
        sock.conns := Without(sock.conns, c);
        sock.closed_conns := [c] + sock.closed_conns;
      }
      out := T.Emit(c, seg);
      assert ConnModels() == before.conns[c := conn.Model()];
      assert SockModels() == before.socks[s := sock.Model()];
    }

    /** tcp.c:168-182 */
    method TcpInput(intf: nat, src_ip: u32, hdr: Segment, skb: nat) returns (consumed: bool, out: Option<T.Emission>)
      requires Valid() && Inv(Model())
      modifies this`conns, socks, conns
      ensures Valid() && socks == old(socks)
      ensures T.Input(old(Model()), intf, src_ip, hdr, skb) == T.Result(Model(), 0, [], out, consumed, None)
    {
      hide T.ToListener, T.ToExisting, T.FindSock, T.FindConn, Inv;
      SocksInRange(Model(), intf);
      consumed, out := false, None;
      var list := if intf in managers then managers[intf] else [];
      assert list == T.Bound(Model(), intf);
      var sock := FindSock(list, hdr.dstPort);
      if sock == None {
        return;
      }
      var s := sock.value;
      ConnsInRange(Model(), s);
      assert socks[s].conns == Model().socks[s].conns;
      var conn := FindMatchingConnection(socks[s].conns, src_ip, hdr.srcPort);
      if conn != None {
        consumed, out := HandleExisting(s, conn.value, hdr, skb);
      } else if socks[s].listening && hdr.flags.syn && !hdr.flags.ack {
        out := HandleNewConnection(s, src_ip, hdr);
      }
    }

    // -------------------------------------------------------------- the API

    /** tcp.c:213-226 */
    method TcpSocket(node: nat) returns (fd: int)
      requires Valid()
      modifies this
      ensures Valid() && conns == old(conns) && fresh(set s | s in socks && s !in old(socks))
      ensures T.Socket(old(Model()), node) == T.Return(Model(), fd)
    {
      ghost var before := Model();
      var i := FindFree(fd_to_sock);
      if i == |fd_to_sock| {
        return -1;
      }
      var sock := new TcpSock(node);
      fd_to_sock := fd_to_sock[i := Some(|socks|)];
      socks := socks + [sock];
      assert SockModels() == before.socks + [sock.Model()];
      assert ConnModels() == before.conns;
      fd := i;
    }

    /** tcp.c:228-238 */
    method TcpClose(sockfd: int) returns (r: int)
      requires Valid() && Inv(Model())
      modifies this, socks
      ensures Valid() && socks == old(socks) && conns == old(conns)
      ensures T.Close(old(Model()), sockfd) == T.Return(Model(), r)
    {
      hide Inv;
      FdsInRange(Model());
      if !IsGoodTcpSock(sockfd) {
        return -1;
      }
      ghost var before := Model();
      var s := fd_to_sock[sockfd].value;
      fd_to_sock := fd_to_sock[sockfd := None];
      var sock := socks[s];
      if sock.bound {
        var list := if sock.intf in managers then managers[sock.intf] else [];
        managers := managers[sock.intf := Without(list, s)];
      }
      sock.open := false;
      r := 0;
      assert SockModels() == before.socks[s := before.socks[s].(open := false)];
      assert ConnModels() == before.conns;
    }

    /** tcp.c:240-254 */
    method TcpBind(topo: Topology, sockfd: int, ip: u32, port: u16) returns (r: int)
      requires Valid() && Inv(Model())
      modifies this, socks
      ensures Valid() && socks == old(socks) && conns == old(conns)
      ensures T.Bind(topo, old(Model()), sockfd, ip, port) == T.Return(Model(), r)
    {
      hide Inv, MatchingInterface, T.FindSock, T.FindConn, T.Dispatch;
      FdsInRange(Model());
      if !IsGoodTcpSock(sockfd) || socks[fd_to_sock[sockfd].value].bound {
        return -1;
      }
      ghost var before := Model();
      var s := fd_to_sock[sockfd].value;
      var sock := socks[s];
      var intf := FindInterface(topo.cfg, topo.slots(sock.node), ip);
      if intf == None {
        return -1;
      }
      sock.bound := true;
      sock.intf := intf.value;
      sock.local_ip := ip;
      sock.local_port := port;
      var list := if intf.value in managers then managers[intf.value] else [];
      managers := managers[intf.value := [s] + list];
      r := 0;
      assert SockModels() == before.socks[s := before.socks[s].(bound := true, intf := intf.value, localIp := ip, localPort := port)];
      assert ConnModels() == before.conns;
    }

    /** tcp.c:256-262 */
    method TcpListen(sockfd: int) returns (r: int)
      requires Valid() && Inv(Model())
      modifies socks
      ensures T.Listen(old(Model()), sockfd) == T.Return(Model(), r)
    {
      hide Inv;
      FdsInRange(Model());
      if !IsGoodTcpSock(sockfd) || !socks[fd_to_sock[sockfd].value].bound {
        return -1;
      }
      ghost var before := Model();
      var s := fd_to_sock[sockfd].value;
      socks[s].listening := true;
      r := 0;
      assert SockModels() == before.socks[s := before.socks[s].(listening := true)];
      assert ConnModels() == before.conns;
    }

    /** The walk of tcp.c:270-271. */
    method FindEstablished(list: seq<nat>) returns (r: Option<nat>)
      requires forall c :: c in list ==> c < |conns|
      ensures r == T.FirstEstab(Model(), list)
    {
      for i := 0 to |list|
        invariant T.FirstEstab(Model(), list) == T.FirstEstab(Model(), list[i..])
      {
        assert list[i] in list;
        if conns[list[i]].state == T.Estab {
          return Some(list[i]);
        }
      }
      r := None;
    }

    /** tcp.c:264-286 */
    method TcpAccept(sockfd: int) returns (fd: int, ip: u32, port: u16)
      requires Valid() && Inv(Model())
      modifies this`fd_conn_to_sock
      ensures T.Accept(old(Model()), sockfd) == T.Return(Model(), fd)
      ensures fd >= 0 ==> var c := T.ConnOf(Model(), fd);
                          c != None && ip == Model().conns[c.value].remoteIp && port == Model().conns[c.value].remotePort
    {
      hide Inv, T.FirstEstab, FirstFree;
      FdsInRange(Model());
      fd, ip, port := -1, 0, 0;
      if !IsGoodTcpSock(sockfd) || !socks[fd_to_sock[sockfd].value].listening {
        return;
      }
      var s := fd_to_sock[sockfd].value;
      var list := socks[s].conns;
      ConnsInRange(Model(), s);
      assert list == Model().socks[s].conns;
      var c := FindEstablished(list);
      if c == None {
        return;
      }
      var i := FindFree(fd_conn_to_sock);
      if i < |fd_conn_to_sock| {
        fd_conn_to_sock := fd_conn_to_sock[i := c];
        fd, ip, port := i, conns[c.value].remote_ip, conns[c.value].remote_port;
      }
    }

    /** tcp.c:288-308 */
    method TcpRecv(connfd: int, size: nat) returns (ret: int, buff: bytes, freed: Option<nat>)
      requires Valid() && Inv(Model())
      modifies conns
      ensures T.Recv(old(Model()), connfd, size) == T.Result(Model(), ret, buff, None, false, freed)
    {
      hide Inv;
      FdsInRange(Model());
      ret, buff, freed := -1, [], None;
      if !IsGoodTcpConnectionSock(connfd) || conns[fd_conn_to_sock[connfd].value].state != T.Estab {
        return;
      }
      ghost var before := Model();
      var c := fd_conn_to_sock[connfd].value;
      var conn := conns[c];
      if conn.rx_skb != [] {
        buff, freed := conn.ReadOldest(size);
        ret := |buff|;
        assert ConnModels() == before.conns[c := conn.Model()];
        assert SockModels() == before.socks;
      }
    }

    /** tcp.c:310-324; `ip_ok` is the answer of ip_output if the segment is handed to it. */
    method TcpSend(connfd: int, buff: bytes, ip_ok: bool) returns (ret: int, out: Option<T.Emission>)
      requires Valid() && Inv(Model())
      modifies conns
      ensures T.Send(old(Model()), connfd, buff, ip_ok) == T.Result(Model(), ret, [], out, false, None)
    {
      hide Inv;
      FdsInRange(Model());
      ret, out := -1, None;
      if !IsGoodTcpConnectionSock(connfd) || conns[fd_conn_to_sock[connfd].value].state != T.Estab {
        return;
      }
      ghost var before := Model();
      var c := fd_conn_to_sock[connfd].value;
      var conn := conns[c];
      var final_size := Min(|buff|, T.MAX_TCP_PAYLOAD);
      var seg := conn.TcpOut(socks[conn.parent].local_port, buff[..final_size], ACK);
      out := T.Emit(c, seg);
      ret := if seg != None && !ip_ok then -1 else final_size;
      assert ConnModels() == before.conns[c := conn.Model()];
      assert SockModels() == before.socks;
    }
  }
}
