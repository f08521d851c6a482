/** A datagram and its trip over the wire; `udp_input` takes all that follows the header for data, udp.c:28. */
module UdpFormat {
  import opened Bytes
  import opened Wire
  import opened TcpFormat
  import opened Udp

  /** The frame that carries a datagram, udp.c:33-46 down to ethernet.c:40-53. */
  function DatagramFrame(srcPort: u16, dstPort: u16, payload: bytes, src: u32, dst: u32, srcMac: Mac, dstMac: Mac): bytes
    requires 28 + |payload| <= 0xFFFF
  {
    EthFrame(dstMac, srcMac, ETH_PROTO_IP, IpPacket(src, dst, IP_PROTO_UDP, UdpHeader(srcPort, dstPort, 8 + |payload|) + payload))
  }

  /** What `udp_input` queues of an IP packet. */
  function ReceivedDatagram(b: bytes, buf: nat): Datagram
    requires |b| >= 28
  {
    Datagram(buf, Load32(b, 12), Htons(Load16(b, 20)), b[28..])
  }

  function DestPort(b: bytes): u16
    requires |b| >= 28
  {
    Htons(Load16(b, 22))
  }

  /**
   A datagram crosses the wire unchanged if and only if it has at least 18 bytes.  A shorter one is
   queued with the Ethernet padding behind it: its own length field is not read.
   */
  lemma DatagramOverTheWire(srcPort: u16, dstPort: u16, payload: bytes, src: u32, dst: u32, srcMac: Mac, dstMac: Mac, buf: nat)
    requires 28 + |payload| <= 0xFFFF
    ensures var b := DatagramFrame(srcPort, dstPort, payload, src, dst, srcMac, dstMac)[14..];
            var pad := Zeros(if |payload| < 18 then 18 - |payload| else 0);
            && |b| >= 28 && DestPort(b) == dstPort
            && ReceivedDatagram(b, buf) == Datagram(buf, src, srcPort, payload + pad)
            && (ReceivedDatagram(b, buf).data == payload <==> |payload| >= 18)
  {
    hide IpPacket, EthHeader, Net16, Load16, Load32, Htons, CheckIpHcksum;
    var udp := UdpHeader(srcPort, dstPort, 8 + |payload|) + payload;
    var ip := IpPacket(src, dst, IP_PROTO_UDP, udp);
    var b := DatagramFrame(srcPort, dstPort, payload, src, dst, srcMac, dstMac)[14..];
    assert b == ip + Padding(ip);
    assert b[12..16] == ip[12..16];
    SameBytesSameWord(b, 12, ip[12..16]);
    SameBytesSameWord(ip, 12, ip[12..16]);
    assert b[20..22] == udp[0..2] == Net16(srcPort) by { assert udp == ip[20..]; }
    assert b[22..24] == udp[2..4] == Net16(dstPort) by { assert udp == ip[20..]; }
    Load16At(b, 20, srcPort);
    Load16At(b, 22, dstPort);
    assert b[28..] == payload + Padding(ip);
  }
}
