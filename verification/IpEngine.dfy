/** The code of ip.c on the packet buffer: header fields are overwritten in place. */
module IpEngine {
  import opened Bytes
  import opened Wire
  import opened SkBuffs
  import opened Transmit
  import opened Nodes
  import opened Routing
  import opened Ip

  /** Loading a 32-bit field of the packet. */
  method ReadWord(skb: SkBuff, at: nat) returns (w: u32)
    requires skb.Valid() && at + 4 <= skb.len
    ensures w == Load32(skb.Contents(), at)
  {
    hide Load32;
    var field := skb.head[skb.data + at..skb.data + at + 4];
    w := Load32(field, 0);
    ghost var c := skb.Contents();
    assert c[at] == skb.head[skb.data + at] && c[at + 1] == skb.head[skb.data + at + 1];
    assert c[at + 2] == skb.head[skb.data + at + 2] && c[at + 3] == skb.head[skb.data + at + 3];
    assert c[at..at + 4] == field;
    SameBytesSameWord(skb.Contents(), at, field);
  }

  /** ip.c:86-87 */
  method RewriteSource(skb: SkBuff, ip: u32)
    requires skb.Valid() && WholeHeader(skb.Contents())
    modifies skb.head
    ensures skb.Contents() == Rewrite(old(skb.Contents()), ip)
    ensures forall i :: skb.tail <= i < skb.head.Length ==> skb.head[i] == old(skb.head[i])
  {
    hide CalcIpHcksum, FillIpHcksum, Store32;
    skb.Write(skb.data + 12, Store32(ip));
    FillHcksum(skb);
  }

  /** ip.c:71-101 */
  method IpPostroute(topo: Topology, routes: Routes, node: nat, forced: Option<nat>, skb: SkBuff) returns (v: Verdict)
    requires skb.Valid() && WholeHeader(skb.Contents())
    modifies skb.head
    ensures skb.Valid()
    ensures v == Postroute(topo, routes, node, forced, old(skb.Contents()))
    ensures !v.Drop? ==> v.packet == skb.Contents()
    ensures v.Drop? ==> skb.Contents() == old(skb.Contents())
    ensures old(ZeroTail(skb)) ==> ZeroTail(skb)
  {
    hide Rewrite, Lookup, Load32, IsIpLocal;
    var dst := ReadWord(skb, 16);
    var rt := RtLookupLpm(routes, dst);
    if rt == None || (forced != None && forced.value != rt.value.intf) {
      return Drop;
    }
    var entry := rt.value;
    RewriteSource(skb, topo.cfg(entry.intf).ip);
    var here := CheckIpLocal(topo, node, dst);
    if here {
      v := Local(skb.Contents());
    } else {
      v := Hop(entry.intf, if entry.next == 0 then dst else entry.next, skb.Contents());
    }
  }

  /** ip.c:45-58 */
  method IpForward(topo: Topology, routes: Routes, node: nat, enabled: bool, skb: SkBuff) returns (v: Verdict)
    requires skb.Valid() && WholeHeader(skb.Contents())
    modifies skb.head
    ensures skb.Valid()
    ensures v == Forward(topo, routes, node, enabled, old(skb.Contents()))
    ensures !v.Drop? ==> v.packet == skb.Contents()
    ensures old(ZeroTail(skb)) ==> ZeroTail(skb)
  {
    hide Postroute;
    ghost var b := skb.Contents();
    var ttl := skb.head[skb.data + 8];
    assert ttl == b[8];
    if !enabled || ttl == 0 {
      return Drop;
    }
    skb.Write(skb.data + 8, [ttl - 1]);
    assert skb.Contents() == b[8 := ttl - 1];
    if ttl - 1 == 0 {
      return Drop;
    }
    v := IpPostroute(topo, routes, node, None, skb);
  }

  /** ip.c:36-43 */
  method IpPreroute(topo: Topology, routes: Routes, node: nat, enabled: bool, skb: SkBuff) returns (v: Verdict)
    requires skb.Valid() && WholeHeader(skb.Contents())
    modifies skb.head
    ensures skb.Valid()
    ensures v == Preroute(topo, routes, node, enabled, old(skb.Contents()))
    ensures !v.Drop? ==> v.packet == skb.Contents()
    ensures old(ZeroTail(skb)) ==> ZeroTail(skb)
  {
    hide Forward, Load32, IsIpLocal;
    var dst := ReadWord(skb, 16);
    var here := CheckIpLocal(topo, node, dst);
    if here {
      v := Local(skb.Contents());
    } else {
      v := IpForward(topo, routes, node, enabled, skb);
    }
  }

  /** The receive buffer of comm.c:142-151: 2048 bytes with 4 of headroom, holding the frame. */
  method ReceiveFrame(f: bytes) returns (skb: SkBuff)
    requires |f| <= 2044
    ensures fresh(skb) && fresh(skb.head) && skb.Valid() && skb.data == 4 && skb.head.Length == 2048
    ensures skb.Contents() == f && ZeroTail(skb)
  {
    skb := new SkBuff.Alloc(2048);
    skb.Reserve(4);
    Append(skb, f);
  }

  /**
   A received IP frame forwarded to a resolved next hop: the 18 bytes in front of the IP header take the
   new Ethernet header, and what leaves is the forwarded packet in a frame of at least 60 bytes.
   */
  method ForwardFrame(topo: Topology, routes: Routes, node: nat, f: bytes, dstMac: Mac)
    returns (skb: SkBuff, v: Verdict)
    requires 34 <= |f| <= 2044 && WholeHeader(f[14..])
    ensures v == Preroute(topo, routes, node, true, f[14..])
    ensures skb.Valid()
    ensures v.Hop? ==> skb.Contents() == EthFrame(dstMac, topo.cfg(v.intf).mac, ETH_PROTO_IP, v.packet)
  {
    hide Preroute;
    skb := ReceiveFrame(f);
    skb.Pull(14);
    v := IpPreroute(topo, routes, node, true, skb);
    if v.Hop? {
      EthernetOutput(skb, dstMac, topo.cfg(v.intf).mac, ETH_PROTO_IP);
    }
  }
}
