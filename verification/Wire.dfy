/**
 The packet formats: Ethernet (ethernet.h:13-19), ARP (arp.h:29-39), IPv4 (ip.h:16-29) and TCP with
 its pseudo header (tcp.h:19-55), as byte strings.
 */
module Wire {
  import opened Arithmetic
  import opened Bytes
  import opened InternetChecksum

  const ETH_PROTO_IP: u16 := 0x0800
  const ETH_PROTO_ARP: u16 := 0x0806
  const IP_PROTO_ICMP: u8 := 1
  const IP_PROTO_TCP: u8 := 6
  const IP_PROTO_UDP: u8 := 17
  const ARP_OP_REQUEST: u16 := 1
  const ARP_OP_REPLY: u16 := 2

  /** The type fields and the opcodes are told apart in network order, too. */
  lemma HtonsDistinct()
    ensures Htons(ETH_PROTO_ARP) != Htons(ETH_PROTO_IP)
    ensures Htons(ARP_OP_REQUEST) != Htons(ARP_OP_REPLY)
  {
  }

  type Mac = m: bytes | |m| == 6 witness [0, 0, 0, 0, 0, 0]

  const BROADCAST: Mac := [0xFF, 0xFF, 0xFF, 0xFF, 0xFF, 0xFF]

  /** A 16-bit and a 32-bit field as stored after HTONS and HTONL. */
  function Net16(n: u16): (b: bytes)
    ensures |b| == 2
  {
    Store16(Htons(n))
  }

  function Net32(n: u32): (b: bytes)
    ensures |b| == 4
  {
    Store32(Htonl(n))
  }

  // ---------------------------------------------------------------- Ethernet

  function EthHeader(dst: Mac, src: Mac, proto: u16): (h: bytes)
    ensures |h| == 14
  {
    dst + src + Net16(proto)
  }

  /** The padding that brings a frame with this payload up to 60 bytes, ethernet.c:47-51. */
  function Padding(payload: bytes): bytes {
    if 14 + |payload| < 60 then Zeros(46 - |payload|) else []
  }

  function EthFrame(dst: Mac, src: Mac, proto: u16, payload: bytes): (f: bytes)
    ensures |f| >= 60 && |f| >= 14 + |payload|
    ensures f[14..14 + |payload|] == payload
  {
    EthHeader(dst, src, proto) + payload + Padding(payload)
  }

  // ---------------------------------------------------------------- ARP

  function ArpPacket(opcode: u16, senderHw: Mac, senderProto: u32, targetHw: Mac, targetProto: u32): (p: bytes)
    ensures |p| == 28
  {
    Net16(1) + Net16(0x0800) + [6, 4] + Net16(opcode)
    + senderHw + Store32(senderProto) + targetHw + Store32(targetProto)
  }

  // ---------------------------------------------------------------- IPv4

  /** The header `ip_output` lays out before the checksum is filled in, ip.c:60-67 and ip.c:172-178. */
  function IpHeaderRaw(src: u32, dst: u32, proto: u8, totalLen: u16): (h: bytes)
    ensures |h| == 20
  {
    [0x45, 0] + Net16(totalLen) + [0, 0, 0, 0, 64, proto, 0, 0] + Store32(src) + Store32(dst)
  }

  /** The bytes covered by the header checksum: `hlen * 4`, ip.c:118-121. */
  function HlenBytes(b: bytes): nat
    requires |b| > 0
  {
    b[0] % 0x10 * 4
  }

  /** A packet that holds its fixed header and everything `hlen` claims. */
  predicate WholeHeader(b: bytes) {
    |b| >= 20 && HlenBytes(b) <= |b|
  }

  function CalcIpHcksum(b: bytes): u16
    requires WholeHeader(b)
  {
    Checksum(b[..HlenBytes(b)])
  }

  /** ip.c:128-131 */
  predicate CheckIpHcksum(b: bytes)
    requires WholeHeader(b)
  {
    CalcIpHcksum(b) == 0
  }

  /**
   fill_ip_hcksum, ip.c:123-126: the field is not cleared first.  So the result verifies if and only
   if the field held 0x0000 or 0xFFFF before.
   */
  function FillIpHcksum(b: bytes): (r: bytes)
    requires WholeHeader(b)
    ensures |r| == |b| && r[0] == b[0]
    ensures HlenBytes(b) >= 12 ==> (CheckIpHcksum(r) <==> Field(b, 10) in {0, 0xFFFF})
  {
    if HlenBytes(b) >= 12 then
      IpFillThenCheck(b);
      Patch(b, 10, CalcIpHcksum(b))
    else
      Patch(b, 10, CalcIpHcksum(b))
  }

  /** What `ip_output` and `ip_postroute` put around a payload; the header checksum always verifies. */
  function IpPacket(src: u32, dst: u32, proto: u8, payload: bytes): (p: bytes)
    requires 20 + |payload| < 0x1_0000
    ensures |p| == 20 + |payload| && p[20..] == payload
    ensures WholeHeader(p) && CheckIpHcksum(p)
    ensures Load32(p, 12) == src && Load32(p, 16) == dst && p[9] == proto
  {
    hide CalcIpHcksum, CheckIpHcksum, Load32, Net16, Store32, IpHeaderRaw;
    var raw := IpHeaderRaw(src, dst, proto, 20 + |payload|) + payload;
    IpHeaderFields(src, dst, proto, 20 + |payload|, payload);
    IpAddresses(raw, src, dst, CalcIpHcksum(raw));
    FillIpHcksum(raw)
  }

  // ---------------------------------------------------------------- TCP

  /** HTONS(size) stored in a `u16`, for a `size_t` argument, tcp.c:36. */
  function HtonsOfSize(size: nat): u16 {
    (Hi(size) + Lo(size) * 0x100) % 0x1_0000
  }

  function PseudoHeader(src: u32, dst: u32, size: nat): (h: bytes)
    ensures |h| == 12
  {
    Store32(src) + Store32(dst) + [0, IP_PROTO_TCP] + Store16(HtonsOfSize(size))
  }

  function TcpHeaderRaw(srcPort: u16, dstPort: u16, seqNo: u32, ackNo: u32, flags: u8, wnd: u16): (h: bytes)
    ensures |h| == 20
  {
    Net16(srcPort) + Net16(dstPort) + Net32(seqNo) + Net32(ackNo) + [0x50, flags] + Net16(wnd) + [0, 0, 0, 0]
  }

  function CalcTcpCksum(seg: bytes, src: u32, dst: u32): u16 {
    Checksum(PseudoHeader(src, dst, |seg|) + seg)
  }

  predicate CheckTcpCksum(seg: bytes, src: u32, dst: u32) {
    CalcTcpCksum(seg, src, dst) == 0
  }

  /** fill_tcp_cksum, tcp.c:43-47: over a zero field, the check that follows succeeds. */
  function FillTcpCksum(seg: bytes, src: u32, dst: u32): (r: bytes)
    requires |seg| >= 20
    ensures |r| == |seg|
    ensures Field(seg, 16) == 0 ==> CheckTcpCksum(r, src, dst)
  {
    if Field(seg, 16) == 0 then
      TcpFillThenCheck(seg, src, dst);
      Patch(seg, 16, CalcTcpCksum(seg, src, dst))
    else
      Patch(seg, 16, CalcTcpCksum(seg, src, dst))
  }

  // ---------------------------------------------------------------- UDP and ICMP

  function UdpHeader(srcPort: u16, dstPort: u16, totalLen: u16): (h: bytes)
    ensures |h| == 8
  {
    Net16(srcPort) + Net16(dstPort) + Net16(totalLen) + [0, 0]
  }

  /** icmp.c:34-50; the checksum covers the whole message and sits at offset 2. */
  function IcmpMessage(kind: u8, code: u8, payload: bytes): (m: bytes)
    ensures |m| == 4 + |payload|
  {
    var raw := [kind, code, 0, 0] + payload;
    Patch(raw, 2, Checksum(raw))
  }

  // ---------------------------------------------------------------- checksum laws of the formats

  /** The checksum field of a segment is word 14 of pseudo header and segment together. */
  lemma TcpFillThenCheck(seg: bytes, src: u32, dst: u32)
    requires |seg| >= 20 && Field(seg, 16) == 0
    ensures CheckTcpCksum(Patch(seg, 16, CalcTcpCksum(seg, src, dst)), src, dst)
  {
    hide Checksum;
    var p := PseudoHeader(src, dst, |seg|);
    var b := p + seg;
    assert Field(b, 28) == Field(seg, 16);
    FillZeroField(b, 14);
    assert Patch(b, 28, Checksum(b)) == p + Patch(seg, 16, Checksum(b));
  }

  lemma IpFillThenCheck(b: bytes)
    requires WholeHeader(b) && HlenBytes(b) >= 12
    ensures var r := Patch(b, 10, CalcIpHcksum(b));
            && WholeHeader(r)
            && (CheckIpHcksum(r) <==> Field(b, 10) in {0, 0xFFFF})
  {
    hide Checksum;
    var n := HlenBytes(b);
    var h := b[..n];
    assert h[0] != 0;
    FillThenCheck(h, 5);
    assert Patch(b, 10, CalcIpHcksum(b))[..n] == Patch(h, 10, Checksum(h));
  }

  lemma SameBytesSameWord(b: bytes, i: nat, w: bytes)
    requires i + 4 <= |b| && b[i..i + 4] == w
    ensures Load32(b, i) == Load32(w, 0)
  {
    assert w[0] == b[i] && w[1] == b[i + 1] && w[2] == b[i + 2] && w[3] == b[i + 3];
  }

  lemma IpHeaderFields(src: u32, dst: u32, proto: u8, totalLen: u16, payload: bytes)
    ensures var raw := IpHeaderRaw(src, dst, proto, totalLen) + payload;
            && raw[0] == 0x45 && WholeHeader(raw) && HlenBytes(raw) == 20 && Field(raw, 10) == 0
            && raw[9] == proto && raw[12..16] == Store32(src) && raw[16..20] == Store32(dst)
            && raw[20..] == payload
  {
    hide Net16, Store32;
  }

  /** The address fields of a header, whatever the checksum field holds. */
  lemma IpAddresses(raw: bytes, src: u32, dst: u32, cksum: u16)
    requires |raw| >= 20 && raw[12..16] == Store32(src) && raw[16..20] == Store32(dst)
    ensures Load32(Patch(raw, 10, cksum), 12) == src && Load32(Patch(raw, 10, cksum), 16) == dst
  {
    LoadStore32(src);
    LoadStore32(dst);
    SameBytesSameWord(Patch(raw, 10, cksum), 12, Store32(src));
    SameBytesSameWord(Patch(raw, 10, cksum), 16, Store32(dst));
  }
}
