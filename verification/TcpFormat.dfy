/**
 A TCP segment as the engine sees it, and its trip over the wire: encoded by the sender, framed and
 padded by Ethernet, and read back by `tcp_input`, which takes everything after the fixed 20-byte
 header for payload (tcp.c:118).
 */
module TcpFormat {
  import opened Bytes
  import opened InternetChecksum
  import opened Wire

  /** The flags the engine looks at or sets, tcp.h:27-41. */
  datatype Flags = Flags(fin: bool, syn: bool, rst: bool, ack: bool)

  datatype Segment = Segment(srcPort: u16, dstPort: u16, seqNo: u32, ackNo: u32,
                             flags: Flags, wnd: u16, payload: bytes)

  const SYN_ACK := Flags(false, true, false, true)
  const RST_ACK := Flags(false, false, true, true)
  const ACK := Flags(false, false, false, true)

  function Bit(b: bool, w: u8): u8 {
    if b then w else 0
  }

  function FlagsVal(f: Flags): (v: u8) {
    Bit(f.fin, 1) + Bit(f.syn, 2) + Bit(f.rst, 4) + Bit(f.ack, 16)
  }

  function FlagsOf(v: u8): Flags {
    Flags(v % 2 == 1, v / 2 % 2 == 1, v / 4 % 2 == 1, v / 16 % 2 == 1)
  }

  function Encode(seg: Segment): (b: bytes)
    ensures |b| == 20 + |seg.payload|
  {
    TcpHeaderRaw(seg.srcPort, seg.dstPort, seg.seqNo, seg.ackNo, FlagsVal(seg.flags), seg.wnd) + seg.payload
  }

  function Decode(b: bytes): Segment
    requires |b| >= 20
  {
    Segment(Htons(Load16(b, 0)), Htons(Load16(b, 2)), Htonl(Load32(b, 4)), Htonl(Load32(b, 8)),
            FlagsOf(b[13]), Htons(Load16(b, 14)), b[20..])
  }

  /**
   The IP packet that carries a segment.  Both of its checksums verify, the TCP one against the
   addresses found in its own IP header.
   */
  function SegmentPacket(seg: Segment, src: u32, dst: u32): (p: bytes)
    requires 40 + |seg.payload| <= 0xFFFF
    ensures |p| == 40 + |seg.payload|
    ensures WholeHeader(p) && CheckIpHcksum(p)
    ensures Load32(p, 12) == src && Load32(p, 16) == dst
    ensures CheckTcpCksum(p[20..], src, dst)
  {
    ZeroCksumField(seg);
    IpPacket(src, dst, IP_PROTO_TCP, FillTcpCksum(Encode(seg), src, dst))
  }

  lemma ZeroCksumField(seg: Segment)
    ensures Field(Encode(seg), 16) == 0
  {
  }

  /** The frame that carries a segment, tcp.c:184-211 down to ethernet.c:40-53. */
  function SegmentFrame(seg: Segment, src: u32, dst: u32, srcMac: Mac, dstMac: Mac): bytes
    requires 40 + |seg.payload| <= 0xFFFF
  {
    EthFrame(dstMac, srcMac, ETH_PROTO_IP, SegmentPacket(seg, src, dst))
  }

  /** What `tcp_input` finds in a frame: the Ethernet and IP headers pulled at their fixed sizes. */
  function ReceivedSegment(frame: bytes): Segment
    requires |frame| >= 54
  {
    Decode(frame[34..])
  }

  lemma FlagsRoundTrip(f: Flags)
    ensures FlagsOf(FlagsVal(f)) == f
  {
  }

  lemma Net16RoundTrip(n: u16)
    ensures Htons(Load16(Net16(n), 0)) == n
  {
    LoadStore16(Htons(n));
    HtonsInvolution(n);
  }

  lemma Net32RoundTrip(n: u32)
    ensures Htonl(Load32(Net32(n), 0)) == n
  {
    LoadStore32(Htonl(n));
    HtonlInvolution(n);
  }

  lemma Load16At(b: bytes, i: nat, n: u16)
    requires i + 2 <= |b| && b[i..i + 2] == Net16(n)
    ensures Htons(Load16(b, i)) == n
  {
    hide Htons, Htonl, Net16, Net32;
    Net16RoundTrip(n);
    var w := Net16(n);
    assert w[0] == b[i..i + 2][0] && w[1] == b[i..i + 2][1];
    assert Load16(b, i) == Load16(w, 0);
  }

  lemma Load32At(b: bytes, i: nat, n: u32)
    requires i + 4 <= |b| && b[i..i + 4] == Net32(n)
    ensures Htonl(Load32(b, i)) == n
  {
    hide Htons, Htonl, Net16, Net32;
    Net32RoundTrip(n);
    SameBytesSameWord(b, i, Net32(n));
  }

  /** Decoding gives back what was encoded, with whatever follows the segment added to the payload. */
  lemma DecodeEncode(seg: Segment, cksum: u16, pad: bytes)
    ensures Decode(Patch(Encode(seg), 16, cksum) + pad) == seg.(payload := seg.payload + pad)
  {
    hide Htons, Htonl, Load16, Load32, Net16, Net32, FlagsVal, FlagsOf, Store16, Store32;
    var b := Patch(Encode(seg), 16, cksum) + pad;
    HeaderFields(seg, cksum, pad);
    Load16At(b, 0, seg.srcPort);
    Load16At(b, 2, seg.dstPort);
    Load32At(b, 4, seg.seqNo);
    Load32At(b, 8, seg.ackNo);
    Load16At(b, 14, seg.wnd);
    FlagsRoundTrip(seg.flags);
    assert b[20..] == seg.payload + pad;
  }

  lemma HeaderFields(seg: Segment, cksum: u16, pad: bytes)
    ensures var b := Patch(Encode(seg), 16, cksum) + pad;
            && b[0..2] == Net16(seg.srcPort) && b[2..4] == Net16(seg.dstPort)
            && b[4..8] == Net32(seg.seqNo) && b[8..12] == Net32(seg.ackNo)
            && b[13] == FlagsVal(seg.flags) && b[14..16] == Net16(seg.wnd)
  {
    hide Htons, Htonl, Load16, Load32, FlagsVal, FlagsOf;
  }

  /** What the wire makes of a segment: the Ethernet padding of a short frame is payload to `tcp_input`. */
  function Padded(seg: Segment): Segment {
    seg.(payload := seg.payload + Zeros(if |seg.payload| < 6 then 6 - |seg.payload| else 0))
  }

  /**
   A segment crosses the wire unchanged if and only if its payload has at least six bytes.  A
   shorter one reaches `tcp_input` with the Ethernet padding as payload.
   */
  lemma SegmentOverTheWire(seg: Segment, src: u32, dst: u32, srcMac: Mac, dstMac: Mac)
    requires 40 + |seg.payload| <= 0xFFFF
    ensures var r := ReceivedSegment(SegmentFrame(seg, src, dst, srcMac, dstMac));
            && r == Padded(seg)
            && (r == seg <==> |seg.payload| >= 6)
  {
    hide CalcTcpCksum, CalcIpHcksum, Decode, Encode, PseudoHeader, IpHeaderRaw, EthHeader;
    var tcp := FillTcpCksum(Encode(seg), src, dst);
    var ip := IpPacket(src, dst, IP_PROTO_TCP, tcp);
    var f := SegmentFrame(seg, src, dst, srcMac, dstMac);
    assert ip[20..] == tcp;
    assert f[34..] == tcp + Padding(ip);
    DecodeEncode(seg, CalcTcpCksum(Encode(seg), src, dst), Padding(ip));
  }
}
