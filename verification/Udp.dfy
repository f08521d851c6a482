/** UDP sockets, udp.c: functions on values that say what each operation does. */
module Udp {
  import opened Bytes
  import opened Sequences
  import opened Nodes

  const MAX_UDP_SOCKS := 8

  /** A queued datagram: where it came from and its unread bytes. */
  datatype Datagram = Datagram(id: nat, srcIp: u32, srcPort: u16, data: bytes)

  /** struct udp_sock, udp.h:20-28; `rx` is newest first. */
  datatype Sock = Sock(open: bool, node: nat, bound: bool, intf: nat, localPort: u16, rx: seq<Datagram>)

  datatype Udp = Udp(socks: seq<Sock>, fds: seq<Option<nat>>, bound: map<nat, seq<nat>>)

  /** A read: the source of the datagram, the bytes, and the buffer if it was used up. */
  datatype ReadResult = ReadResult(srcIp: u32, srcPort: u16, data: bytes, freed: Option<nat>)

  datatype Result = Result(u: Udp, ret: int, read: Option<ReadResult>)

  function Init(): Udp {
    Udp([], seq(MAX_UDP_SOCKS, _ => None), map[])
  }

  function Bound(u: Udp, intf: nat): seq<nat> {
    if intf in u.bound then u.bound[intf] else []
  }

  /** udp_socks_manager_find, udp.c:133-142. */
  function FindSock(u: Udp, list: seq<nat>, port: u16): (r: Option<nat>)
    ensures r != None ==> r.value in list && r.value < |u.socks| && u.socks[r.value].localPort == port
  {
    if list == [] then None
    else if list[0] < |u.socks| && u.socks[list[0]].localPort == port then Some(list[0])
    else FindSock(u, list[1..], port)
  }

  function SockOf(u: Udp, fd: int): (r: Option<nat>)
    ensures r != None ==> 0 <= fd < |u.fds| && u.fds[fd] == r && r.value < |u.socks|
  {
    if 0 <= fd < |u.fds| && u.fds[fd] != None && u.fds[fd].value < |u.socks| then u.fds[fd] else None
  }

  /** udp_input, udp.c:20-31: the state, and whether the buffer was queued. */
  function Input(u: Udp, intf: nat, dstPort: u16, d: Datagram): (r: (Udp, bool)) {
    var s := FindSock(u, Bound(u, intf), dstPort);
    if s == None then (u, false)
    else (u.(socks := u.socks[s.value := Push(u.socks[s.value], d)]), true)
  }

  function Push(sock: Sock, d: Datagram): Sock {
    sock.(rx := [d] + sock.rx)
  }

  /** The read of udp.c:95-110: a part of the oldest datagram and of no other. */
  function ReadOldest(sock: Sock, size: nat): (Sock, ReadResult)
    requires sock.rx != []
  {
    var k := |sock.rx| - 1;
    var d := sock.rx[k];
    var n := Min(|d.data|, size);
    if n == |d.data| then (sock.(rx := sock.rx[..k]), ReadResult(d.srcIp, d.srcPort, d.data[..n], Some(d.id)))
    else (sock.(rx := sock.rx[k := d.(data := d.data[n..])]), ReadResult(d.srcIp, d.srcPort, d.data[..n], None))
  }

  /** udp_recvfrom, udp.c:89-113. */
  function RecvFrom(u: Udp, fd: int, size: nat): Result {
    var s := SockOf(u, fd);
    if s == None || !u.socks[s.value].bound || u.socks[s.value].rx == [] then Result(u, -1, None)
    else
      var (sock, read) := ReadOldest(u.socks[s.value], size);
      Result(u.(socks := u.socks[s.value := sock]), |read.data|, Some(read))
  }

  function Socket(u: Udp, node: nat): Result {
    var i := FirstFree(u.fds);
    if i == |u.fds| then Result(u, -1, None)
    else Result(u.(socks := u.socks + [Sock(true, node, false, 0, 0, [])], fds := u.fds[i := Some(|u.socks|)]), i, None)
  }

  function Close(u: Udp, fd: int): Result {
    var s := SockOf(u, fd);
    if s == None then Result(u, -1, None)
    else
      var sock := u.socks[s.value];
      var bound := if sock.bound then u.bound[sock.intf := Without(Bound(u, sock.intf), s.value)] else u.bound;
      Result(u.(fds := u.fds[fd := None], bound := bound, socks := u.socks[s.value := sock.(open := false)]), 0, None)
  }

  function Bind(topo: Topology, u: Udp, fd: int, ip: u32, port: u16): Result {
    var s := SockOf(u, fd);
    if s == None || u.socks[s.value].bound then Result(u, -1, None)
    else
      var sock := u.socks[s.value];
      var intf := MatchingInterface(topo.cfg, topo.slots(sock.node), ip);
      if intf == None then Result(u, -1, None)
      else
        Result(u.(socks := u.socks[s.value := sock.(bound := true, intf := intf.value, localPort := port)],
                  bound := u.bound[intf.value := [s.value] + Bound(u, intf.value)]), 0, None)
  }

  // ---------------------------------------------------------------- pointers stay good

  /** Descriptors and interface lists only name sockets that exist, bound to that interface. */
  ghost predicate Inv(u: Udp) {
    && (forall i :: 0 <= i < |u.fds| && u.fds[i] != None ==> u.fds[i].value < |u.socks| && u.socks[u.fds[i].value].open)
    && (forall i, j :: 0 <= i < j < |u.fds| && u.fds[i] != None ==> u.fds[i] != u.fds[j])
    && (forall intf: nat :: ListOk(u, intf))
  }

  predicate ListOk(u: Udp, intf: nat) {
    && Distinct(Bound(u, intf))
    && forall s :: s in Bound(u, intf) ==> s < |u.socks| && u.socks[s].open && u.socks[s].bound && u.socks[s].intf == intf
  }

  datatype Event =
    | Arrive(intf: nat, dstPort: u16, d: Datagram)
    | NewSocket(node: nat)
    | CloseSocket(fd: int)
    | BindTo(fd: int, ip: u32, port: u16)
    | Receive(fd: int, size: nat)

  function Step(topo: Topology, u: Udp, e: Event): Result {
    match e
    case Arrive(intf, dstPort, d) => Result(Input(u, intf, dstPort, d).0, 0, None)
    case NewSocket(node) => Socket(u, node)
    case CloseSocket(fd) => Close(u, fd)
    case BindTo(fd, ip, port) => Bind(topo, u, fd, ip, port)
    case Receive(fd, size) => RecvFrom(u, fd, size)
  }

  /** Sockets that change elsewhere than in their binding leave the lists right. */
  lemma SameListsKeepInv(u: Udp, u': Udp)
    requires Inv(u) && u'.bound == u.bound && |u.socks| <= |u'.socks|
    requires forall s :: 0 <= s < |u.socks| ==> u'.socks[s] == u.socks[s].(rx := u'.socks[s].rx)
    requires forall i :: 0 <= i < |u'.fds| && u'.fds[i] != None ==>
               u'.fds[i].value < |u'.socks| && u'.socks[u'.fds[i].value].open
    requires forall i, j :: 0 <= i < j < |u'.fds| && u'.fds[i] != None ==> u'.fds[i] != u'.fds[j]
    ensures Inv(u')
  {
    forall intf: nat ensures ListOk(u', intf) {
      assert ListOk(u, intf) && Bound(u', intf) == Bound(u, intf);
    }
  }

  lemma CloseKeepsInv(u: Udp, fd: int)
    requires Inv(u)
    ensures Inv(Close(u, fd).u)
  {
    var u' := Close(u, fd).u;
    if SockOf(u, fd) != None {
      var s := SockOf(u, fd).value;
      var sock := u.socks[s];
      forall intf: nat ensures ListOk(u', intf) {
        assert ListOk(u, intf);
        WithoutIs(Bound(u, intf), s);
        assert Bound(u', intf) == if sock.bound && intf == sock.intf then Without(Bound(u, intf), s) else Bound(u, intf);
      }
    }
  }

  lemma BindKeepsInv(topo: Topology, u: Udp, fd: int, ip: u32, port: u16)
    requires Inv(u)
    ensures Inv(Bind(topo, u, fd, ip, port).u)
  {
    var u' := Bind(topo, u, fd, ip, port).u;
    if u' != u {
      var s := SockOf(u, fd).value;
      var intf := u'.socks[s].intf;
      forall i: nat ensures ListOk(u', i) {
        assert ListOk(u, i);
        assert Bound(u', i) == if i == intf then [s] + Bound(u, i) else Bound(u, i);
      }
    }
  }

  lemma InputKeepsInv(u: Udp, intf: nat, port: u16, d: Datagram)
    requires Inv(u)
    ensures Inv(Input(u, intf, port, d).0)
  {
    hide ListOk, Bound;
    SameListsKeepInv(u, Input(u, intf, port, d).0);
  }

  lemma SocketKeepsInv(u: Udp, node: nat)
    requires Inv(u)
    ensures Inv(Socket(u, node).u)
  {
    hide ListOk, Bound;
    SameListsKeepInv(u, Socket(u, node).u);
  }

  lemma ReceiveKeepsInv(u: Udp, fd: int, size: nat)
    requires Inv(u)
    ensures Inv(RecvFrom(u, fd, size).u)
  {
    hide ListOk, Bound;
    SameListsKeepInv(u, RecvFrom(u, fd, size).u);
  }

  lemma StepKeepsInv(topo: Topology, u: Udp, e: Event)
    requires Inv(u)
    ensures Inv(Step(topo, u, e).u)
  {
    hide Inv, Input, Socket, Close, Bind, RecvFrom;
    match e
    case Arrive(intf, port, d) => InputKeepsInv(u, intf, port, d);
    case NewSocket(node) => SocketKeepsInv(u, node);
    case CloseSocket(fd) => CloseKeepsInv(u, fd);
    case BindTo(fd, ip, port) => BindKeepsInv(topo, u, fd, ip, port);
    case Receive(fd, size) => ReceiveKeepsInv(u, fd, size);
  }
}
