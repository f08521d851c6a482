/** The code of udp.c: sockets updated in place, the descriptor table, and the list walk. */
module UdpEngine {
  import opened Bytes
  import opened Sequences
  import opened Nodes
  import U = Udp

  class UdpSock {
    var open: bool
    var bound: bool
    var node: nat
    var intf: nat
    var local_port: u16
    var rx_skb: seq<U.Datagram>

    constructor (node: nat)
      ensures Model() == U.Sock(true, node, false, 0, 0, [])
    {
      open, bound := true, false;
      this.node := node;
      intf, local_port, rx_skb := 0, 0, [];
    }

    function Model(): U.Sock
      reads this
    {
      U.Sock(open, node, bound, intf, local_port, rx_skb)
    }

    /** The read of udp.c:95-110. */
    method ReadOldest(size: nat) returns (r: U.ReadResult)
      requires rx_skb != []
      modifies this`rx_skb
      ensures U.ReadOldest(old(Model()), size) == (Model(), r)
    {
      var last := |rx_skb| - 1;
      var skb := rx_skb[last];
      var final_size := Min(|skb.data|, size);
      r := U.ReadResult(skb.srcIp, skb.srcPort, skb.data[..final_size], None);
      skb := skb.(data := skb.data[final_size..]);
      rx_skb := rx_skb[last := skb];
      if |skb.data| == 0 {
        r := r.(freed := Some(skb.id));
        rx_skb := rx_skb[..last];
      }
    }
  }

  class UdpStack {
    var socks: seq<UdpSock>
    var fd_to_sock: seq<Option<nat>>
    var managers: map<nat, seq<nat>>

    constructor ()
      ensures Valid() && Model() == U.Init()
    {
      socks := [];
      fd_to_sock := seq(U.MAX_UDP_SOCKS, _ => None);
      managers := map[];
    }

    ghost predicate Valid()
      reads this
    {
      Distinct(socks)
    }

    ghost function SockModels(): (m: seq<U.Sock>)
      reads this, socks
      ensures |m| == |socks|
    {
      seq(|socks|, i requires 0 <= i < |socks| reads this, socks => socks[i].Model())
    }

    ghost function Model(): U.Udp
      reads this, socks
    {
      U.Udp(SockModels(), fd_to_sock, managers)
    }

    predicate IsGoodUdpSock(sockfd: int)
      reads this
    {
      0 <= sockfd < |fd_to_sock| && fd_to_sock[sockfd] != None
    }

    /** udp.c:133-142 */
    method UdpSocksManagerFind(list: seq<nat>, port: u16) returns (r: Option<nat>)
      requires forall s :: s in list ==> s < |socks|
      ensures r == U.FindSock(Model(), list, port)
    {
      for i := 0 to |list|
        invariant U.FindSock(Model(), list, port) == U.FindSock(Model(), list[i..], port)
      {
        assert list[i] in list;
        if socks[list[i]].local_port == port {
          return Some(list[i]);
        }
      }
      r := None;
    }

    /** udp.c:20-31 */
    method UdpInput(intf: nat, dst_port: u16, skb: U.Datagram) returns (consumed: bool)
      requires Valid() && U.Inv(Model())
      modifies socks
      ensures U.Input(old(Model()), intf, dst_port, skb) == (Model(), consumed)
    {
      ghost var before := Model();
      var list := if intf in managers then managers[intf] else [];
      assert list == U.Bound(before, intf) && U.ListOk(before, intf);
      var sock := UdpSocksManagerFind(list, dst_port);
      if sock == None {
        return false;
      }
      socks[sock.value].rx_skb := [skb] + socks[sock.value].rx_skb;
      consumed := true;
      assert SockModels() == before.socks[sock.value := U.Push(before.socks[sock.value], skb)];
    }

    /** udp.c:48-60 */
    method UdpSocket(node: nat) returns (fd: int)
      requires Valid()
      modifies this
      ensures Valid() && fresh(set s | s in socks && s !in old(socks))
      ensures U.Socket(old(Model()), node) == U.Result(Model(), fd, None)
    {
      ghost var before := Model();
      var i := FindFree(fd_to_sock);
      if i == |fd_to_sock| {
        return -1;
      }
      var sock := new UdpSock(node);
      fd_to_sock := fd_to_sock[i := Some(|socks|)];
      socks := socks + [sock];
      fd := i;
      assert SockModels() == before.socks + [sock.Model()];
    }

    /** udp.c:62-72 */
    method UdpClose(sockfd: int) returns (r: int)
      requires Valid() && U.Inv(Model())
      modifies this, socks
      ensures Valid() && socks == old(socks)
      ensures U.Close(old(Model()), sockfd) == U.Result(Model(), r, None)
    {
      if !IsGoodUdpSock(sockfd) {
        return -1;
      }
      ghost var before := Model();
      var s := fd_to_sock[sockfd].value;
      fd_to_sock := fd_to_sock[sockfd := None];
      var sock := socks[s];
      if sock.bound {
        var list := if sock.intf in managers then managers[sock.intf] else [];
        managers := managers[sock.intf := Without(list, s)];
      }
      sock.open := false;
      r := 0;
      assert SockModels() == before.socks[s := before.socks[s].(open := false)];
    }

    /** udp.c:74-87 */
    method UdpBind(topo: Topology, sockfd: int, ip: u32, port: u16) returns (r: int)
      requires Valid() && U.Inv(Model())
      modifies this, socks
      ensures Valid() && socks == old(socks)
      ensures U.Bind(topo, old(Model()), sockfd, ip, port) == U.Result(Model(), r, None)
    {
      if !IsGoodUdpSock(sockfd) || socks[fd_to_sock[sockfd].value].bound {
        return -1;
      }
      ghost var before := Model();
      var s := fd_to_sock[sockfd].value;
      var sock := socks[s];
      var intf := FindInterface(topo.cfg, topo.slots(sock.node), ip);
      if intf == None {
        return -1;
      }
      sock.bound := true;
      sock.intf := intf.value;
      sock.local_port := port;
      var list := if intf.value in managers then managers[intf.value] else [];
      managers := managers[intf.value := [s] + list];
      r := 0;
      assert SockModels() == before.socks[s := before.socks[s].(bound := true, intf := intf.value, localPort := port)];
    }

    /** udp.c:89-113 */
    method UdpRecvfrom(sockfd: int, size: nat) returns (ret: int, read: Option<U.ReadResult>)
      requires Valid() && U.Inv(Model())
      modifies socks
      ensures U.RecvFrom(old(Model()), sockfd, size) == U.Result(Model(), ret, read)
    {
      ret, read := -1, None;
      if !IsGoodUdpSock(sockfd) || !socks[fd_to_sock[sockfd].value].bound {
        return;
      }
      ghost var before := Model();
      var s := fd_to_sock[sockfd].value;
      var sock := socks[s];
      if sock.rx_skb != [] {
        var x := sock.ReadOldest(size);
        ret, read := |x.data|, Some(x);
        assert SockModels() == before.socks[s := sock.Model()];
      }
    }
  }
}
