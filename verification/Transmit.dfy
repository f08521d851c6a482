/**
 The output path on the buffer itself: tcp.c:23-53 and 184-211, udp.c:33-46, icmp.c:34-50,
 arp.c:27-75, ip.c:60-67 and 86-87, ethernet.c:40-53.

 Each method builds its packet in place in an `SkBuff`, and is proved to leave exactly the byte
 string of module `Wire`.  That they verify says that the 60 bytes of headroom and 46 of tailroom
 (net.h:12-13) suffice for every payload: no assertion of skbuff.h can fail.
 */
module Transmit {
  import opened Bytes
  import opened InternetChecksum
  import opened Wire
  import opened SkBuffs

  const BUFF_HEADROOM := 60
  const BUFF_TAILROOM := 46

  /** The bytes after the packet are still the zeros of calloc. */
  ghost predicate ZeroTail(skb: SkBuff)
    requires skb.Valid()
    reads skb, skb.head
  {
    forall i :: skb.tail <= i < skb.head.Length ==> skb.head[i] == 0
  }

  /** A fresh packet with `reserve` bytes of headroom to go and room for the Ethernet minimum behind. */
  ghost predicate Ready(skb: SkBuff, reserve: nat)
    reads skb, skb.head
  {
    skb.Valid() && skb.data >= reserve && skb.tail + BUFF_TAILROOM <= skb.head.Length && ZeroTail(skb)
  }

  /** A checksum goes, byte-swapped, into the packet's field at `field`: fill_ip_hcksum and its like. */
  method StoreCksum(skb: SkBuff, field: nat, cksum: u16)
    requires skb.Valid() && field + 2 <= skb.len
    modifies skb.head
    ensures skb.Contents() == Patch(old(skb.Contents()), field, cksum)
    ensures forall i :: skb.tail <= i < skb.head.Length ==> skb.head[i] == old(skb.head[i])
  {
    FieldInMemory(skb.Contents(), field, cksum);
    skb.Write(skb.data + field, Store16(Htons(cksum)));
  }

  /** skb_push and the stores that fill the new header. */
  method Prepend(skb: SkBuff, header: bytes)
    requires skb.Valid() && |header| <= skb.data
    modifies skb, skb.head
    ensures skb.Valid() && skb.data == old(skb.data) - |header| && skb.tail == old(skb.tail)
    ensures skb.Contents() == header + old(skb.Contents())
    ensures forall i :: skb.tail <= i < skb.head.Length ==> skb.head[i] == old(skb.head[i])
  {
    var hdr := skb.Push(|header|);
    skb.Write(hdr, header);
  }

  /** skb_put and the stores that fill the new space. */
  method Append(skb: SkBuff, src: bytes)
    requires skb.Valid() && skb.tail + |src| <= skb.head.Length
    modifies skb, skb.head
    ensures skb.Valid() && skb.data == old(skb.data) && skb.tail == old(skb.tail) + |src|
    ensures skb.Contents() == old(skb.Contents()) + src
    ensures forall i :: skb.tail <= i < skb.head.Length ==> skb.head[i] == old(skb.head[i])
  {
    var at := skb.Put(|src|);
    skb.Write(at, src);
  }

  // ---------------------------------------------------------------- ethernet.c:40-53

  method EthernetOutput(skb: SkBuff, dst: Mac, src: Mac, proto: u16)
    requires skb.Valid() && skb.data >= 14
    requires skb.len < 46 ==> skb.tail + (46 - skb.len) <= skb.head.Length
    modifies skb, skb.head
    ensures skb.Valid()
    ensures var pad := if old(skb.len) < 46 then 46 - old(skb.len) else 0;
            skb.Contents() == EthHeader(dst, src, proto) + old(skb.Contents())
                              + old(skb.head[skb.tail..skb.tail + pad])
    ensures skb.len >= 60
    ensures old(ZeroTail(skb)) ==> skb.Contents() == EthFrame(dst, src, proto, old(skb.Contents()))
  {
    ghost var payload := skb.Contents();
    ghost var tail0 := skb.tail;
    Prepend(skb, EthHeader(dst, src, proto));
    ghost var pad := if |payload| < 46 then 46 - |payload| else 0;
    assert skb.head[tail0..tail0 + pad] == old(skb.head[skb.tail..skb.tail + pad]);
    if skb.len < 60 {
      var unused := skb.Put(60 - skb.len);
    }
    assert old(ZeroTail(skb)) ==> old(skb.head[skb.tail..skb.tail + pad]) == Padding(payload);
  }

  // ---------------------------------------------------------------- ip.c:60-67, 86-87, 118-126

  method FillHcksum(skb: SkBuff)
    requires skb.Valid() && WholeHeader(skb.Contents())
    modifies skb.head
    ensures skb.Contents() == FillIpHcksum(old(skb.Contents()))
    ensures forall i :: skb.tail <= i < skb.head.Length ==> skb.head[i] == old(skb.head[i])
  {
    ghost var c := skb.Contents();
    var n := skb.head[skb.data] % 0x10 * 4;
    assert skb.head[skb.data] == c[0];
    assert skb.head[skb.data..skb.data + n] == c[..n];
    var cksum := CalcChecksum16(skb.head, skb.data, n);
    StoreCksum(skb, 10, cksum);
  }

  /** The header of a local packet: laid out by ip_output, completed and checksummed by ip_postroute. */
  method IpOutput(skb: SkBuff, src: u32, dst: u32, proto: u8)
    requires Ready(skb, 34) && 20 + skb.len < 0x1_0000
    modifies skb, skb.head
    ensures Ready(skb, 14)
    ensures skb.Contents() == IpPacket(src, dst, proto, old(skb.Contents()))
  {
    hide FillIpHcksum, IpHeaderRaw;
    ghost var payload := skb.Contents();
    LayOutIp(skb, src, dst, proto);
    assert 20 + |payload| < 0x1_0000 && IpPacket(src, dst, proto, payload)
        == FillIpHcksum(IpHeaderRaw(src, dst, proto, 20 + |payload|) + payload);
    FillHcksum(skb);
  }

  /** The header without its checksum: all but the source by ip_output, the source by ip_postroute. */
  method LayOutIp(skb: SkBuff, src: u32, dst: u32, proto: u8)
    requires Ready(skb, 34) && 20 + skb.len < 0x1_0000
    modifies skb, skb.head
    ensures Ready(skb, 14)
    ensures skb.Contents() == IpHeaderRaw(src, dst, proto, 20 + old(skb.len)) + old(skb.Contents())
    ensures WholeHeader(skb.Contents())
  {
    hide Net16, Store32;
    ghost var payload := skb.Contents();
    Prepend(skb, IpHeaderRaw(0, dst, proto, 20 + skb.len));
    assert skb.Contents() == IpHeaderRaw(0, dst, proto, 20 + |payload|) + payload;
    skb.Write(skb.data + 12, Store32(src));
    assert skb.Contents() == IpHeaderRaw(src, dst, proto, 20 + |payload|) + payload;
    assert skb.Contents()[0] == 0x45;
  }

  // ---------------------------------------------------------------- tcp.c:23-53

  /**
   The pseudo header is written over the 12 bytes before the segment, and those bytes are put back:
   the buffer ends exactly as it was.
   */
  method CalcTcpCksumInPlace(buf: array<u8>, hdr: nat, size: nat, src: u32, dst: u32) returns (r: u16)
    requires 12 <= hdr && hdr + size <= buf.Length
    modifies buf
    ensures buf[..] == old(buf[..])
    ensures r == MachineChecksum(PseudoHeader(src, dst, size) + old(buf[hdr..hdr + size]))
    ensures size <= 0xFFFF ==> r == CalcTcpCksum(old(buf[hdr..hdr + size]), src, dst)
  {
    hide MachineChecksum, Checksum, PseudoHeader;
    var pip := hdr - 12;
    var backup := buf[pip..hdr];
    StoreAt(buf, pip, PseudoHeader(src, dst, size));
    assert buf[pip..hdr] == PseudoHeader(src, dst, size);
    assert buf[hdr..hdr + size] == old(buf[hdr..hdr + size]);
    assert buf[pip..pip + (size + 12)] == buf[pip..hdr] + buf[hdr..hdr + size];
    r := CalcChecksum16(buf, pip, size + 12);
    StoreAt(buf, pip, backup);
  }

  method StoreAt(buf: array<u8>, at: nat, src: bytes)
    requires at + |src| <= buf.Length
    modifies buf
    ensures buf[..] == Splice(old(buf[..]), at, src)
    ensures forall i :: at <= i < at + |src| ==> buf[i] == src[i - at]
    ensures forall i :: 0 <= i < buf.Length && !(at <= i < at + |src|) ==> buf[i] == old(buf[i])
  {
    forall i | 0 <= i < |src| {
      buf[at + i] := src[i];
    }
  }

  /** A fresh buffer with the full headroom and tailroom that holds a header and a payload. */
  method FreshPacket(header: bytes, payload: bytes) returns (skb: SkBuff)
    ensures fresh(skb) && fresh(skb.head) && Ready(skb, 60)
    ensures skb.Contents() == header + payload
  {
    skb := new SkBuff.Alloc(BUFF_HEADROOM + BUFF_TAILROOM + |header| + |payload|);
    skb.Reserve(BUFF_HEADROOM);
    Append(skb, header);
    assert skb.Contents() == header;
    if |payload| > 0 {
      Append(skb, payload);
    }
  }

  // ---------------------------------------------------------------- tcp.c:184-209

  method TcpSegmentBuffer(srcPort: u16, dstPort: u16, seqNo: u32, ackNo: u32, flags: u8, wnd: u16,
                          payload: bytes, src: u32, dst: u32) returns (skb: SkBuff)
    requires 20 + |payload| <= 0xFFFF
    ensures fresh(skb) && fresh(skb.head) && Ready(skb, 60)
    ensures skb.Contents()
         == FillTcpCksum(TcpHeaderRaw(srcPort, dstPort, seqNo, ackNo, flags, wnd) + payload, src, dst)
  {
    hide Checksum, TcpHeaderRaw, CalcTcpCksum, PseudoHeader, CheckTcpCksum, Field, Patch;
    ghost var raw := TcpHeaderRaw(srcPort, dstPort, seqNo, ackNo, flags, wnd) + payload;
    skb := FreshPacket(TcpHeaderRaw(srcPort, dstPort, seqNo, ackNo, flags, wnd), payload);
    var hdr := skb.data;
    assert skb.head[hdr..hdr + skb.len] == skb.Contents();
    var cksum := CalcTcpCksumInPlace(skb.head, hdr, skb.len, src, dst);
    assert skb.Contents() == raw;
    StoreCksum(skb, 16, cksum);
  }

  // ---------------------------------------------------------------- udp.c:33-46

  method UdpDatagramBuffer(srcPort: u16, dstPort: u16, payload: bytes) returns (skb: SkBuff)
    requires 8 + |payload| <= 0xFFFF
    ensures fresh(skb) && fresh(skb.head) && Ready(skb, 60)
    ensures skb.Contents() == UdpHeader(srcPort, dstPort, 8 + |payload|) + payload
  {
    skb := FreshPacket(UdpHeader(srcPort, dstPort, 8 + |payload|), payload);
  }

  // ---------------------------------------------------------------- icmp.c:34-45

  method IcmpBuffer(kind: u8, code: u8, payload: bytes) returns (skb: SkBuff)
    requires 4 + |payload| <= 0xFFFF
    ensures fresh(skb) && fresh(skb.head) && Ready(skb, 60)
    ensures skb.Contents() == IcmpMessage(kind, code, payload)
  {
    hide Checksum;
    skb := FreshPacket([kind, code, 0, 0], payload);
    ghost var raw := [kind, code, 0, 0] + payload;
    assert skb.head[skb.data..skb.data + skb.len] == raw;
    var cksum := CalcChecksum16(skb.head, skb.data, skb.len);
    StoreCksum(skb, 2, cksum);
  }

  // ---------------------------------------------------------------- arp.c:27-75

  /** A request or a reply: ARP pushes its header into the reserved headroom. */
  method ArpFrame(opcode: u16, senderHw: Mac, senderProto: u32, targetHw: Mac, targetProto: u32, dst: Mac)
    returns (skb: SkBuff)
    ensures fresh(skb) && fresh(skb.head) && skb.Valid()
    ensures skb.Contents() == EthFrame(dst, senderHw, ETH_PROTO_ARP,
                                       ArpPacket(opcode, senderHw, senderProto, targetHw, targetProto))
  {
    skb := new SkBuff.Alloc(BUFF_HEADROOM + BUFF_TAILROOM + 28);
    skb.Reserve(BUFF_HEADROOM);
    Prepend(skb, ArpPacket(opcode, senderHw, senderProto, targetHw, targetProto));
    assert skb.Contents() == ArpPacket(opcode, senderHw, senderProto, targetHw, targetProto);
    EthernetOutput(skb, dst, senderHw, ETH_PROTO_ARP);
  }

  // ---------------------------------------------------------------- whole paths

  /** tcp_out, ip_output, ip_postroute, ethernet_output: the frame on the wire, for every payload. */
  method TcpFrame(srcPort: u16, dstPort: u16, seqNo: u32, ackNo: u32, flags: u8, wnd: u16,
                  payload: bytes, src: u32, dst: u32, srcMac: Mac, dstMac: Mac) returns (skb: SkBuff)
    requires 40 + |payload| <= 0xFFFF
    ensures skb.Valid()
    ensures skb.Contents() == EthFrame(dstMac, srcMac, ETH_PROTO_IP, IpPacket(src, dst, IP_PROTO_TCP,
              FillTcpCksum(TcpHeaderRaw(srcPort, dstPort, seqNo, ackNo, flags, wnd) + payload, src, dst)))
  {
    hide Checksum, IpPacket, FillTcpCksum;
    skb := TcpSegmentBuffer(srcPort, dstPort, seqNo, ackNo, flags, wnd, payload, src, dst);
    IpOutput(skb, src, dst, IP_PROTO_TCP);
    EthernetOutput(skb, dstMac, srcMac, ETH_PROTO_IP);
  }

  method UdpFrame(srcPort: u16, dstPort: u16, payload: bytes, src: u32, dst: u32, srcMac: Mac, dstMac: Mac)
    returns (skb: SkBuff)
    requires 28 + |payload| <= 0xFFFF
    ensures skb.Valid()
    ensures skb.Contents() == EthFrame(dstMac, srcMac, ETH_PROTO_IP, IpPacket(src, dst, IP_PROTO_UDP,
              UdpHeader(srcPort, dstPort, 8 + |payload|) + payload))
  {
    hide Checksum, IpPacket;
    skb := UdpDatagramBuffer(srcPort, dstPort, payload);
    IpOutput(skb, src, dst, IP_PROTO_UDP);
    EthernetOutput(skb, dstMac, srcMac, ETH_PROTO_IP);
  }

  method IcmpFrame(kind: u8, code: u8, payload: bytes, src: u32, dst: u32, srcMac: Mac, dstMac: Mac)
    returns (skb: SkBuff)
    requires 24 + |payload| <= 0xFFFF
    ensures skb.Valid()
    ensures skb.Contents() == EthFrame(dstMac, srcMac, ETH_PROTO_IP,
                                       IpPacket(src, dst, IP_PROTO_ICMP, IcmpMessage(kind, code, payload)))
  {
    hide Checksum, IpPacket, IcmpMessage;
    skb := IcmpBuffer(kind, code, payload);
    IpOutput(skb, src, dst, IP_PROTO_ICMP);
    EthernetOutput(skb, dstMac, srcMac, ETH_PROTO_IP);
  }
}
