# simple_tcpip: a verified model

This project models a small IPv4 stack, simple_tcpip, in Dafny and proves what its protocols guarantee.
`dafny verify dfyconfig.toml` checks everything.

## What is modelled

The stack has five connected parts, and so has the model.

* **Bytes and buffers.** `Bytes` has the byte-order macros, `SkBuff.dfy` the packet buffer with its
  headroom and tailroom, `Lists` the intrusive circular list, `InternetChecksum` the accumulator loop and
  the ones' complement definition of RFC 1071, `Wire` the packet formats as byte strings, and `Transmit`
  the code that builds packets in place.
* **Routing and IP.** `Routing` has masks and the single-pass lookup, `Ip` and `IpEngine` the decisions
  and header writes of `ip_preroute`, `ip_forward`, `ip_postroute` and `ip_output`.
* **ARP.** `Arp` has the table with its held packets, `ArpRuns` the law of held packets over whole runs of a
  node and which reply decides it, `ArpNetwork` the agreement of all tables of a network on a wire of byte frames.
* **TCP and UDP.** `Tcp` says on values what each operation of `tcp.c` does; `TcpEngine` is the code, with
  objects, descriptor tables and list walks, proved against `Tcp`; `TcpState` is the invariant; `TcpRuns` and
  `TcpTheorems` are about whole runs, `TcpAccept` about `tcp_accept`; `TcpFormat` and `TcpOverIp` follow a
  segment over the wire. `RxQueue.dfy` is a connection's receive queue of packet buffers on the circular
  list. `Udp`, `UdpEngine`, `UdpRuns` and `UdpFormat` do the same for `udp.c`.
* **The stack as a whole.** `Stack` puts the layers together and follows every packet buffer; `Ownership`
  proves that each is queued once, freed once or lost once; `Leaks` says exactly which are lost. `FrameRuns`
  proves that in a run over byte frames and calls, TCP, UDP and each ARP table go through a run of that layer
  alone, so the theorems of the layers hold of frames.

Code that works step by step is written as classes and methods with loops. Each such method is proved to do
exactly what a function on values says (`ensures T.Input(old(Model()), ...) == T.Result(Model(), ...)`), and
the protocol properties are proved about those functions. Pointers to heap objects are numbers in order of
allocation; lists are sequences with the newest element first, which is how `list_add` builds them. Each API
call and each received frame is one atomic step. What the driver or `ip_output` answers is a parameter.

## Where the code does less than one would expect

Each of these is stated and proved with its exact condition.

* A header checksum filled in over a field that is not cleared verifies only if the field held 0x0000 or
  0xFFFF. Local packets always do; forwarded packets usually do not (`Wire.FillIpHcksum`, `Ip.ForwardedPacket`),
  and one that does not is given (`Ip.ForwardingBreaksChecksum`).
* `calc_checksum_16` is right for every buffer of a given size exactly up to 131074 bytes
  (`InternetChecksum.CorrectExactlyUpTo`).
* A mask names a network prefix, for all addresses, exactly when it is a whole number of octets
  (`Routing.MaskIsPrefixExactlyForOctets`).
* A segment with fewer than six payload bytes is received with Ethernet padding as data, even a plain
  acknowledgment (`TcpTheorems.PaddingDecides`), and a datagram with fewer than 18 bytes likewise
  (`UdpFormat.DatagramOverTheWire`).
* A FIN that is sent with data loses it (`TcpTheorems.FinLosesPayload`).
* `tcp_out` returns -1, which is `true`, when the window is full. So `tcp_send` reports bytes it never
  emitted; its report is true exactly when the bytes fit and `ip_output` accepts them, or do not fit and are
  none (`TcpTheorems.SendReport`). A run with a false report is given (`TcpAccept.FalseReportHappens`).
* `tcp_accept` marks nothing. It hands a connection out again exactly when the newest established connection
  of the listener already has a descriptor (`TcpAccept.AcceptRepeats`); a second call straight after the
  first does so exactly when a descriptor is free (`TcpAccept.AcceptTwice`); a run in which it happens is
  given (`TcpAccept.AcceptTwiceHappens`).
* Packets held for ARP resolution leave in reverse order (`ArpRuns.HoldingConservation`).
* Buffers are lost, neither queued nor freed: in every step that sends nothing to the node's own addresses,
  exactly those that `Leaks.Leaks` names (`Leaks.LeaksExactly`).
  The buffer of a received frame is lost exactly when it is a RST or FIN in sequence for an established
  connection (`Leaks.FrameBufferLost`), that of `tcp_send` exactly when the window or `ip_output` refuses it
  (`Leaks.TcpSendLoses`).

## Model

| member | source | states |
|---|---|---|
| Bytes.HtonsInvolution | utils.h:6-7 | HTONS undoes itself on every 16-bit value |
| Bytes.HtonlInvolution | utils.h:8-12 | HTONL undoes itself, and what it stores is the big-endian representation |
| Lists.ListHead.constructor | list.h:12-15 | a new head is an empty ring |
| Lists.ListEmpty | list.h:7-10 | true exactly when the ring holds no entry |
| Lists.ListAdd | list.h:17-23 | the ring then holds the new entry followed by the old ones, next and prev mutually inverse |
| Lists.ListDel | list.h:25-29 | exactly that entry leaves the ring, wherever it stands, and keeps its own pointers |
| Lists.ListForEach | list.h:50-53 | the walk ends after visiting every entry once, in order |
| Lists.ListDrain | list.h:55-58 | the safe walk with deletion visits every entry once, in order, and empties the ring |
| Lists.ListTakeLast | tcp.c:295-304 | the entry taken from the tail is the oldest one, so prepending and taking last is a FIFO queue |
| Lists.ListMove | tcp.c:102-103 | list_del and list_add move one entry between two disjoint rings and change nothing else |
| SkBuffs.SkBuff.Push | skbuff.h:50-56 | the packet grows at the front by the bytes of the headroom |
| SkBuffs.SkBuff.Pull | skbuff.h:58-64 | the packet loses its first bytes |
| SkBuffs.SkBuff.Put | skbuff.h:66-73 | the packet grows at the back by the bytes of the tailroom |
| InternetChecksum.CalcChecksum16 | utils.c:66-78 | the loop with its wrapping accumulator and two folds gives the RFC 1071 checksum for up to 131074 bytes, and for every size the stated machine value |
| InternetChecksum.FoldKeepsNorm | utils.c:75-76 | a fold keeps the value modulo 65535 and a second one always reaches 16 bits |
| InternetChecksum.CorrectExactlyUpTo | utils.c:66-78 | every buffer of n bytes gets its right checksum if and only if n is at most 131074 |
| InternetChecksum.WordOrderIrrelevant | utils.c:70-72 | buffers with the same multiset of words have the same checksum |
| InternetChecksum.PiecesCompose | utils.c:66-78 | the checksum of an even-length piece followed by anything follows from the two checksums |
| InternetChecksum.FillThenCheck | ip.c:123-131 | filling a checksum field and checking succeeds if and only if it held 0, or 0xFFFF with something else not zero |
| Wire.FillIpHcksum | ip.c:118-131 | the filled header verifies if and only if its field held 0x0000 or 0xFFFF |
| Wire.IpPacket | ip.c:60-87 | every packet built by ip_output and ip_postroute has a verifying header checksum and the addresses given |
| Wire.FillTcpCksum | tcp.c:43-53 | over a zero field, the filled segment passes check_tcp_cksum |
| Transmit.CalcTcpCksumInPlace | tcp.c:23-41 | the pseudo header written over the headroom gives the checksum of pseudo header and segment, and the buffer ends exactly as it was |
| Transmit.EthernetOutput | ethernet.c:40-53 | the frame is header, packet and padding of at least 60 bytes; no buffer assertion fails given 14 bytes of headroom |
| Transmit.IpOutput | ip.c:60-87 | the buffer holds exactly the IP packet of its former contents |
| Transmit.FillHcksum | ip.c:118-126 | the checksum field is overwritten in place and nothing else |
| Transmit.TcpSegmentBuffer | tcp.c:184-209 | the fresh buffer holds exactly the segment with its checksum, with full headroom left |
| Transmit.TcpFrame | tcp.c:184-211 | for every payload the frame on the wire is the specified one and no buffer assertion fails |
| Transmit.UdpFrame | udp.c:33-46 | the same for UDP datagrams |
| Transmit.IcmpFrame | icmp.c:34-50 | the same for ICMP messages |
| Transmit.ArpFrame | arp.c:27-75 | the same for ARP requests and replies |
| TcpFormat.SegmentPacket | tcp.c:184-211 | the packet of a segment has two verifying checksums, the TCP one against its own IP header |
| TcpFormat.DecodeEncode | tcp.h:43-55 | decoding gives back the encoded segment, with anything that follows added to the payload |
| TcpFormat.SegmentOverTheWire | tcp.c:118-120 | a segment crosses the wire unchanged if and only if it has at least six payload bytes; shorter ones gain zeros |
| Routing.RtLookupLpm | ip.c:180-194 | the answer is the matching route of greatest mask, newest on ties, else the oldest default, else none |
| Routing.LookupUnique | ip.c:180-194 | that specification determines the answer |
| Routing.OrderIndependent | ip.c:161-194 | without ties, every order of the same rt_table_add_route calls gives the same answer for every address |
| Routing.OctetMasks | ip.h:80-83 | masks 8, 16 and 24 compare exactly the leading octets |
| Routing.LongestOctetPrefix | ip.c:180-194 | with such masks the lookup is longest octet-prefix matching |
| Routing.MaskIsModulo | ip.h:81 | the bit mask keeps the word modulo a power of two |
| Routing.MaskIsPrefixExactlyForOctets | ip.h:80-83 | a mask stands for the network prefix of its length, for all addresses, if and only if it is a multiple of 8 |
| Ip.RewriteFields | ip.c:85-87 | the header writes of ip_postroute keep TTL, destination and payload and set the source |
| Ip.ForwardedPacket | ip.c:45-58 | TTL drops by one and stays positive, source becomes the output interface, and the checksum verifies iff the arriving field was 0 or 0xFFFF |
| Ip.ForwardingBreaksChecksum | ip.c:45-58 | a given header verifies on arrival and fails once forwarded, on every node that has a route and is not its destination |
| Ip.ForwardIsNeverLocal | ip.c:36-58 | the forward path never re-enters local delivery on the forwarding node |
| Ip.ForwardingTerminates | ip.c:45-58 | with any tables and cabling, loops included, a packet is forwarded less often than its TTL |
| Ip.LocalPacketsDieOut | ip.c:172-178 | a packet built with TTL 64 is forwarded at most 63 times |
| Ip.RoutingLoop | ip.c:45-58 | where no node has the destination and all have a route, the bound is reached exactly |
| Ip.OutputPacket | ip.c:60-87 | what leaves is the packet from the address of the interface it leaves by, the forced one if any |
| Ip.SegmentLeavesVerified | ip.c:60-87 | a segment checksummed with the address of its interface leaves with both checksums verifying |
| IpEngine.RewriteSource | ip.c:86-87 | the packet in the buffer gets the given source and a refilled checksum; the bytes behind it stay |
| IpEngine.IpPostroute | ip.c:71-101 | the in-place code makes exactly the specified decision and header |
| IpEngine.IpForward | ip.c:45-58 | the in-place TTL test and write, and the routing after it, make exactly the specified decision and header |
| IpEngine.IpPreroute | ip.c:36-43 | a packet for the node itself is kept as it is, any other is forwarded as specified |
| Nodes.FindInterface | net.c:78-89 | the slot walk finds the first configured interface with the address |
| Nodes.CheckIpLocal | ip.c:196-203 | the slot walk finds any interface with the address, configured or not |
| IpEngine.ForwardFrame | comm.c:142-151 | a received frame is forwarded within the receive buffer's headroom and leaves as the forwarded packet |
| Arp.ArpTable.Lookup | arp.c:105-113 | the walk finds the first entry for the address |
| Arp.ArpTable.EnsureEntry | ip.c:102-108 | the code finds the entry of a next hop or creates an unresolved one at the front |
| Arp.ArpTable.PostrouteTo | ip.c:92-115 | the code finds or creates the entry and holds or sends the packet as specified |
| Arp.ArpTable.UpdateFromArpReply | arp.c:83-103 | the code resolves the entry and hands out every held packet, head first |
| Arp.ArpTable.ArpInput | arp.c:8-25 | the code answers requests for its own address and takes replies, as specified |
| ArpRuns.StepKeepsTable | arp.c:83-103 | entries stay unique per address, resolved ones hold nothing, and resolution never reverts |
| ArpRuns.UnsolicitedReplyIgnored | arp.c:87-91 | a reply nobody asked for changes nothing and sends nothing |
| ArpRuns.HoldingConservation | ip.c:102-115 | over every run, for each next hop: as long as no reply has answered, all packets are held newest first and none has left; once an event was the first to answer, none is held, the packets submitted before it have left newest first and the later ones in order, each exactly once |
| ArpRuns.EntriesOfRun | arp.c:83-103 | after every run: an address has an entry exactly if a packet was submitted for it, the entry is resolved exactly if a reply came after that, and its MAC is that of the latest such reply |
| ArpRuns.DeparturesUseLatestReply | arp.c:94-102 | every packet that leaves, at any event of any run, goes to the MAC of the latest reply that answers for its next hop |
| ArpRuns.NothingLostOrDuplicated | arp.c:94-102 | over every run, packets held plus packets gone are the packets submitted |
| ArpNetwork.ArpRoundTrip | arp.h:29-39 | a parsed ARP message has the fields it was built with, whatever padding follows |
| ArpNetwork.NetworkAgreement | arp.c:27-113 | in any network, under loss, duplication and reordering, every resolved entry on every node names an interface that owns that IP and MAC |
| ArpNetwork.RoundTrip | arp.c:27-103 | a request frame that reaches the owner of the address is answered, and that reply, back at the asker, resolves its entry to the owner's MAC and lets go of exactly the packets held, newest first |
| Nodes.MatchingInterface | net.c:78-89 | the result is the first slot whose interface is configured and has the address, and no result means that there is none |
| TcpEngine.TcpConnectionSock.TcpOut | tcp.c:184-210 | the code emits and advances exactly as specified, or does nothing when the window check fails |
| TcpEngine.TcpConnectionSock.HandleEstab | tcp.c:107-125 | the code handles a segment of an established connection as specified |
| TcpEngine.TcpConnectionSock.HandleSynSent | tcp.c:127-136 | the code completes the handshake exactly on an ACK in sequence |
| TcpEngine.TcpConnectionSock.ReadOldest | tcp.c:294-305 | the code reads from the oldest segment only and frees it when used up |
| TcpEngine.TcpStack.HandleNewConnection | tcp.c:138-166 | the code sets up and answers a new connection as specified |
| TcpEngine.TcpStack.HandleExisting | tcp.c:92-105 | the handler call and the list move of a close change exactly that connection and socket |
| TcpEngine.TcpStack.TcpInput | tcp.c:168-182 | the code finds listener and connection and reaches exactly the specified state |
| TcpEngine.TcpStack.TcpSocket | tcp.c:213-226 | the code takes the first free descriptor as specified |
| TcpEngine.TcpStack.TcpClose | tcp.c:228-238 | the code frees descriptor and list entry as specified |
| TcpEngine.TcpStack.TcpBind | tcp.c:240-254 | the code binds to the interface with the address as specified |
| TcpEngine.TcpStack.TcpListen | tcp.c:256-262 | only a bound socket starts to listen |
| TcpEngine.TcpStack.TcpAccept | tcp.c:264-286 | the code hands out the first established connection under the first free descriptor |
| TcpEngine.TcpStack.TcpRecv | tcp.c:288-308 | the code returns and consumes exactly what is specified |
| TcpEngine.TcpStack.TcpSend | tcp.c:310-324 | the code emits and reports exactly what is specified |
| TcpState.StepKeeps | tcp.c:80-182 | every segment and API call keeps the invariant of lists, descriptors and windows, and moves connections only forward |
| TcpState.HandleSegmentKeeps | tcp.c:107-136 | una, iss and the advertised window never change; nxt stays within the peer's first window |
| TcpRuns.RunLawful | tcp.c:107-211 | over every run, each connection's rcv.nxt, snt.nxt and emitted segments agree with what was taken from and sent to its peer |
| TcpRuns.ReadOldestMoves | tcp.c:294-305 | a read of any size takes exactly the first unread bytes |
| TcpTheorems.StreamSafety | tcp.c:107-182 | over every run in which what arrives in sequence is a slice of the peer's stream, carries no data, or is a RST or FIN (all else, lost, repeated, late, damaged or padded, is free), bytes read and then bytes queued are a prefix of the stream, and rcv.nxt says which |
| TcpTheorems.WireStreamSafety | tcp.c:107-182 | the same where every arrival is the padded frame of a segment the peer sent, if those taken for data have at least six bytes |
| TcpTheorems.PaddingDecides | tcp.c:118-120 | what is taken after a segment in sequence is the stream up to its end if and only if it had at least six bytes, acknowledgments included |
| TcpTheorems.FinLosesPayload | tcp.c:114-116 | a FIN, as it arrives padded, takes no byte, and rcv.nxt is what its sender expects if and only if it was sent without data |
| TcpTheorems.InSequenceIsNext | tcp.c:111-121 | data in sequence modulo 2^32 is the next slice of the stream, old duplicates and the SYN excluded |
| TcpTheorems.ShortSegmentsAreCorrupted | tcp.c:118-120 | what Ethernet makes of a segment (`TcpFormat.SegmentOverTheWire`) is queued with the payload that was sent, and counted in `rcv.nxt` as such, if and only if that has at least six bytes |
| TcpTheorems.SenderTiling | tcp.c:184-211 | over every run, emitted segments tile the sent stream from 1 on behind the SYN-ACK and acknowledge exactly what was taken |
| TcpTheorems.SenderWindow | tcp.c:194-206 | over every run, snt.nxt is one more than the bytes emitted, no segment reaches beyond it, and it passes the peer's window only by the SYN, so it never wraps |
| TcpTheorems.EmittedIsSent | tcp.c:310-324 | over every run, the payloads emitted for a connection, one after the other, are the clipped bytes of the tcp_send calls on it that fit the window, in call order |
| TcpTheorems.SendReport | tcp.c:310-324 | whatever ip_output answers: bytes are emitted and snt.nxt moves exactly if they fit the window, -1 is returned exactly if they fit and ip_output fails, and the report is the number of bytes emitted exactly if they fit and were accepted, or did not fit and were none |
| TcpTheorems.DispatchCases | tcp.c:168-182 | the target of a segment by cases, both ways: the newest socket of its interface with its port; there the one connection with its source, else a listener if it is a SYN without ACK, else nobody |
| TcpTheorems.DispatchIsExact | tcp.c:80-90 | a segment reaches a live connection if and only if its remote address and port are that connection's |
| TcpTheorems.EveryConnectionListedOnce | tcp.c:92-105 | after every run each connection is on exactly one list of its socket, once, and live remote ends are unique |
| TcpTheorems.DescriptorsLast | tcp.c:264-286 | a descriptor handed out names the same established connection for the rest of the run |
| TcpTheorems.ClosedIsFrozen | tcp.c:92-105 | a closed connection stays closed and its rcv.nxt never changes |
| TcpAccept.AcceptSucceeds | tcp.c:264-286 | tcp_accept succeeds if and only if the socket listens, an established connection is on its list and a descriptor is free |
| TcpAccept.AcceptTakesNewest | tcp.c:270-279 | tcp_accept returns the newest established connection |
| TcpAccept.AcceptRepeats | tcp.c:270-281 | what it returns already had a descriptor if and only if the newest established connection of the listener has one |
| TcpAccept.AcceptTwice | tcp.c:270-281 | a second tcp_accept straight after a successful one succeeds if and only if a descriptor is free, and then returns the same connection under another descriptor |
| TcpAccept.AcceptTwiceHappens | tcp.c:270-281 | a legal run, on every topology where node 0 has a bindable address, ends with the same connection under two descriptors |
| TcpAccept.FalseReportHappens | tcp.c:194-195 | in a legal run, tcp_send of 1446 bytes to a peer with window 1000 reports 1446, emits nothing and changes nothing |
| TcpOverIp.RunKeepsTies | tcp.c:245-251 | over every run a bound socket's address is that of its interface |
| TcpOverIp.EmittedSegmentsVerify | tcp.c:184-211 | every segment any run emits leaves, if at all, by its socket's interface with both checksums verifying |
| Udp.StepKeepsInv | udp.c:48-87 | descriptors and interface lists only name open sockets bound as listed |
| UdpEngine.UdpStack.UdpInput | udp.c:20-31 | the code queues the datagram at the specified socket |
| UdpEngine.UdpStack.UdpRecvfrom | udp.c:89-113 | the code reads from the oldest datagram as specified |
| UdpEngine.UdpStack.UdpSocket | udp.c:48-60 | the code takes the first free descriptor as specified |
| UdpEngine.UdpStack.UdpBind | udp.c:74-87 | the code binds as specified |
| UdpEngine.UdpStack.UdpClose | udp.c:62-72 | the code frees descriptor and list entry as specified |
| UdpEngine.UdpStack.UdpSocksManagerFind | udp.c:133-142 | the walk finds the first socket with the port |
| UdpRuns.UdpDelivery | udp.c:89-113 | over every run, datagrams are read in arrival order, one read never mixes two, the reads of one datagram are its bytes, and each read reports its source |
| UdpRuns.UdpPointersGood | udp.c:62-87 | over every run no descriptor or list names a closed socket |
| UdpFormat.DatagramOverTheWire | udp.c:20-31 | a datagram is queued with its source and its own bytes if and only if it has at least 18; a shorter one gains zeros |
| RxQueues.RxQueue.Queue | tcp.c:118-120 | list_add of a packet buffer prepends it to the receive queue |
| RxQueues.RxQueue.ReadOldest | tcp.c:293-305 | on the ring of packet buffers, a read copies, pulls and unlinks exactly as specified on the sequence |
| Ownership.StepMoved | ethernet.c:17-38 | any possible frame or call gives each buffer it allocates exactly one place, queued, freed or lost, and changes the number of places of no other |
| Ownership.RejectedBufferIsFree | comm.c:152-155 | the frame's buffer is in no queue, not freed and not lost if and only if the chain returns false, so the receiver's free is safe and needed |
| Ownership.EveryBufferOnce | comm.c:64-89 | over every run of frames and calls, none of which sends to the node's own address or closes a TCP socket in use, each buffer ever allocated is in one queue slot, freed once or lost once, and never two of these |
| Leaks.LeaksExactly | tcp.c:107-123 | every possible step, in any state, loses exactly the buffers that `Leaks.Leaks` names, branch by branch |
| Leaks.FrameBufferLost | tcp.c:111-117 | a received buffer is lost if and only if it holds a local TCP segment in sequence for an established connection with RST or FIN |
| Leaks.TcpSendLoses | tcp.c:184-211 | tcp_send loses its buffer if and only if the bytes do not fit the window or ip_output refuses the segment |
| Ownership.HandledIds | tcp.c:107-125 | a buffer that the handler consumes is queued if and only if the segment is not a RST or FIN in sequence |
| FrameRuns.StepIsLayered | ethernet.c:17-38 | any possible frame or call is one step of TCP, of UDP or of neither, and what it does to the ARP tables is one ARP message or the one packet it gives to ip_postroute |
| FrameRuns.TcpOfRun | tcp.c:168-182 | in every run over frames and calls, TCP goes through a legal run of TCP alone |
| FrameRuns.UdpOfRun | udp.c:20-31 | and UDP through a run of UDP |
| FrameRuns.ArpOfRun | arp.c:8-25 | and the ARP table of each node through a run of that table |
| FrameRuns.FrameStreamSafety | tcp.c:107-182 | over every run of byte frames and calls, if each frame that reaches an existing connection is that of a segment of its peer's stream, with at least six bytes if it is taken for data, the bytes read and then queued are a prefix of the stream, and rcv.nxt says which |
| FrameRuns.FrameEmissionsVerify | tcp.c:184-211 | at every event of every run, a segment TCP emits is given to ip_postroute and, if it leaves, leaves by its socket's interface with both checksums verifying |

## Left out

- Ownership.EveryBufferOnce: what ip_postroute delivers to its own node (ip.c:88-91) is not modelled: `Stack.Possible` excludes events that send to an address of the node, calls and answers alike. `tcp_input` and a read that asks for the source would follow the `ip_hdr` pointer that this path leaves unset; `udp_input` would queue the datagram.
- Stack.Step: frames hold the IP header they announce, and the transport header if they are for the node, because the code has no length checks after Ethernet.
- TcpEngine.TcpStack.TcpClose: its effect is stated in full, but runs of TCP (`TcpState.Allowed`) and of the stack (`Stack.Possible`) exclude closing a socket that still has connections, because the freed socket would leave them dangling.
- TcpEngine.TcpConnectionSock.TcpOut: the check at tcp.c:194 and the fields are modelled here, the building of the buffer in `Transmit`, and what becomes of the buffer, also when the check fails, in `Stack` and `Leaks`.
- TcpEngine.TcpStack.HandleExisting: the code of list_del inside a socket's list is the function `Without`; module `Lists` proves the pointer version. `TcpEngine` and `UdpEngine` keep their queues as sequences; `RxQueues` has one on the ring.
- Lists.ListAdd: `container_of` arithmetic is not modelled; a list node stands for its object.
- Arp.ArpTable.UpdateFromArpReply: held packets are values, since nothing changes them while they are held; aliasing of buffers is the subject of `Ownership` instead.
- Routing.RtLookupLpm: masks are at most 30, where the shift of ip.h:81 is defined.
- ArpNetwork.NetworkAgreement: entries added by hand with `arp_table_entry_add` and changes of interface addresses are excluded.
- Receive-side checksum checks: the code never makes them on TCP or IP input, so the model has none.
- Threads, epoll, sockets and tap devices (comm.c, comm_udp.c, comm_tuntap.c): the wire is a set or list of frames; unsynchronised access by several threads is not modelled.
- Topology construction and teardown (graph.c), the switch stub (switch.c), MAC assignment, flooding, dumps and string conversion of addresses.
