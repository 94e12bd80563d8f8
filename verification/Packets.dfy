/** IPv4 packets, UDP datagrams and TCP segments on the wire: how they are built and what a receiver accepts. */
module Packets {
  import opened Wrappers
  import opened Words
  import opened Checksum
  import opened TcpSegments

  type Address = a: seq<Byte> | |a| == 4 witness [0, 0, 0, 0]

  datatype Datagram = Datagram(source: Address, destination: Address, protocol: Byte, payload: seq<Byte>)

  datatype UdpMessage = UdpMessage(sourcePort: Half, destinationPort: Half, payload: seq<Byte>)

  function Be16(v: Half): (b: seq<Byte>)
    ensures |b| == 2
  {
    [High(v), Low(v)]
  }

  function Be32(v: Word): (b: seq<Byte>)
    ensures |b| == 4
  {
    Be16(v / 0x1_0000) + Be16(v % 0x1_0000)
  }

  function Read32(b: seq<Byte>): Word
    requires |b| == 4
  {
    var high: int, low: int := Pair(b[0], b[1]), Pair(b[2], b[3]);
    high * 0x1_0000 + low
  }

  lemma Read32Be32(v: Word)
    ensures Read32(Be32(v)) == v
  {
    PairSplit(v / 0x1_0000);
    PairSplit(v % 0x1_0000);
  }

  // ----- IPv4 -----

  /** The first ten header bytes. */
  function IpStart(total: Half, id: Half, protocol: Byte): (b: seq<Byte>)
    ensures |b| == 10
  {
    [0x45, 0, High(total), Low(total), High(id), Low(id), 0x40, 0, 64, protocol]
  }

  function IpHeader(total: Half, id: Half, d: Datagram): (b: seq<Byte>)
    ensures |b| == 20
  {
    var start := IpStart(total, id, d.protocol);
    start + Be16(ChecksumOf(start + [0, 0] + (d.source + d.destination))) + (d.source + d.destination)
  }

  function Ipv4Packet(id: Half, d: Datagram): seq<Byte>
    requires |d.payload| <= 1480
  {
    IpHeader(20 + |d.payload|, id, d) + d.payload
  }

  predicate Broadcast(a: Address) {
    a == [255, 255, 255, 255]
  }

  predicate LocalDestination(ip: Address, a: Address) {
    if a == [0, 0, 0, 0] then ip[0] == 0 else Broadcast(a) || a == ip
  }

  /** A host without an address takes every datagram for the DHCP client's port. */
  predicate PendingDhcp(ip: Address, d: Datagram) {
    ip[0] == 0 && d.protocol == 17 && |d.payload| >= 4 && Pair(d.payload[2], d.payload[3]) == 68
  }

  /** The receiver's checks; `packet` may be padded by the link layer. */
  function ReceiveIpv4(ip: Address, packet: seq<Byte>): Option<Datagram> {
    if |packet| < 20 || packet[0] / 16 != 4 then None
    else
      var headerLength := packet[0] % 16 * 4;
      var total := Pair(packet[2], packet[3]);
      if headerLength < 20 || headerLength > |packet| || total < headerLength || total > |packet| ||
         ChecksumOf(packet[..headerLength]) != 0 then None
      else if Pair(packet[6], packet[7]) % 0x4000 != 0 then None
      else
        var d := Datagram(packet[12..16], packet[16..20], packet[9], packet[headerLength..total]);
        if !LocalDestination(ip, d.destination) && !PendingDhcp(ip, d) then None else Some(d)
  }

  lemma IpHeaderBytes(total: Half, id: Half, d: Datagram)
    ensures var h := IpHeader(total, id, d);
            && ChecksumOf(h) == 0 && h[0] == 0x45 && Pair(h[2], h[3]) == total && Pair(h[6], h[7]) == 0x4000
            && h[9] == d.protocol && h[12..16] == d.source && h[16..20] == d.destination
  {
    FilledPasses(IpStart(total, id, d.protocol), d.source + d.destination);
    hide ChecksumOf;
    PairSplit(total);
    var h := IpHeader(total, id, d);
    assert h[..10] == IpStart(total, id, d.protocol);
  }

  /** Every packet built for an address passes the checks of the host with that address, padding and all. */
  lemma Ipv4Delivers(ip: Address, id: Half, d: Datagram, padding: seq<Byte>)
    requires |d.payload| <= 1480 && (LocalDestination(ip, d.destination) || PendingDhcp(ip, d))
    ensures ReceiveIpv4(ip, Ipv4Packet(id, d) + padding) == Some(d)
  {
    var total := 20 + |d.payload|;
    var h := IpHeader(total, id, d);
    IpHeaderBytes(total, id, d);
    hide ChecksumOf, IpHeader, IpStart;
    var packet := Ipv4Packet(id, d) + padding;
    assert packet[..20] == h && packet[20..total] == d.payload;
    assert packet[12..16] == h[12..16] && packet[16..20] == h[16..20];
  }

  // ----- UDP -----

  function Pseudo(source: Address, destination: Address, protocol: Byte, length: Half): (b: seq<Byte>)
    ensures |b| == 12
  {
    source + destination + [0, protocol] + Be16(length)
  }

  function UdpStart(m: UdpMessage): (b: seq<Byte>)
    requires |m.payload| <= 1472
    ensures |b| == 6
  {
    Be16(m.sourcePort) + Be16(m.destinationPort) + Be16(8 + |m.payload|)
  }

  /** Zero means "no checksum" on the wire, so a zero checksum is sent as 0xFFFF. */
  function UdpChecksum(source: Address, destination: Address, m: UdpMessage): (c: Half)
    requires |m.payload| <= 1472
    ensures c != 0
  {
    var c := ChecksumOf(Pseudo(source, destination, 17, 8 + |m.payload|) + UdpStart(m) + [0, 0] + m.payload);
    if c == 0 then 0xFFFF else c
  }

  function UdpPacket(source: Address, destination: Address, m: UdpMessage): (b: seq<Byte>)
    requires |m.payload| <= 1472
    ensures |b| == 8 + |m.payload|
  {
    UdpStart(m) + Be16(UdpChecksum(source, destination, m)) + m.payload
  }

  function ReceiveUdp(source: Address, destination: Address, packet: seq<Byte>): Option<UdpMessage> {
    if |packet| < 8 then None
    else
      var length := Pair(packet[4], packet[5]);
      if length < 8 || length > |packet| then None
      else if Pair(packet[6], packet[7]) != 0 &&
              ChecksumOf(Pseudo(source, destination, 17, length) + packet[..length]) != 0 then None
      else Some(UdpMessage(Pair(packet[0], packet[1]), Pair(packet[2], packet[3]), packet[8..length]))
  }

  lemma UdpBytes(source: Address, destination: Address, m: UdpMessage)
    requires |m.payload| <= 1472
    ensures var p := UdpPacket(source, destination, m);
            && Pair(p[0], p[1]) == m.sourcePort && Pair(p[2], p[3]) == m.destinationPort
            && Pair(p[4], p[5]) == |p| && Pair(p[6], p[7]) != 0 && p[8..] == m.payload
  {
    hide ChecksumOf, UdpChecksum;
    PairSplit(m.sourcePort);
    PairSplit(m.destinationPort);
    PairSplit(8 + |m.payload|);
    PairSplit(UdpChecksum(source, destination, m));
  }

  lemma UdpSums(source: Address, destination: Address, m: UdpMessage)
    requires |m.payload| <= 1472
    ensures ChecksumOf(Pseudo(source, destination, 17, 8 + |m.payload|) + UdpPacket(source, destination, m)) == 0
  {
    var pseudo := Pseudo(source, destination, 17, 8 + |m.payload|);
    var pre := pseudo + UdpStart(m);
    FilledPasses(pre, m.payload);
    var c := UdpChecksum(source, destination, m);
    assert High(0xFFFF) == 0xFF && Low(0xFFFF) == 0xFF;
    hide ChecksumOf, Pseudo, UdpStart;
    assert pseudo + UdpPacket(source, destination, m) == pre + Be16(c) + m.payload;
  }

  /** Every datagram built passes the receiver's checks and delivers its ports and payload unchanged. */
  lemma UdpDelivers(source: Address, destination: Address, m: UdpMessage)
    requires |m.payload| <= 1472
    ensures ReceiveUdp(source, destination, UdpPacket(source, destination, m)) == Some(m)
  {
    hide ChecksumOf, UdpPacket, Pseudo;
    var p := UdpPacket(source, destination, m);
    UdpBytes(source, destination, m);
    UdpSums(source, destination, m);
    assert p[..|p|] == p;
  }

  // ----- TCP -----

  function TcpStart(sourcePort: Half, destinationPort: Half, s: Sent): (b: seq<Byte>)
    ensures |b| == 16
  {
    Be16(sourcePort) + Be16(destinationPort) + Be32(s.seqno) + Be32(s.ackno) + [0x50, s.flags] + Be16(32768)
  }

  function TcpPacket(source: Address, destination: Address, sourcePort: Half, destinationPort: Half, s: Sent): (b: seq<Byte>)
    requires |s.payload| <= MAX_PAYLOAD
    ensures |b| == 20 + |s.payload|
  {
    var start := TcpStart(sourcePort, destinationPort, s);
    var c := ChecksumOf(Pseudo(source, destination, 6, 20 + |s.payload|) + start + [0, 0] + ([0, 0] + s.payload));
    start + Be16(c) + ([0, 0] + s.payload)
  }

  function ReceiveTcp(source: Address, destination: Address, remotePort: Half, localPort: Half, packet: seq<Byte>)
    : Option<Segment>
    requires |packet| < 0x1_0000
  {
    if |packet| < 20 || Pair(packet[0], packet[1]) != remotePort || Pair(packet[2], packet[3]) != localPort then None
    else
      var headerLength := packet[12] / 16 * 4;
      if headerLength < 20 || headerLength > |packet| ||
         ChecksumOf(Pseudo(source, destination, 6, |packet|) + packet) != 0 then None
      else Some(Segment(packet[13], Read32(packet[4..8]), Read32(packet[8..12]), packet[20..headerLength],
                        packet[headerLength..]))
  }

  lemma TcpBytes(source: Address, destination: Address, sourcePort: Half, destinationPort: Half, s: Sent)
    requires |s.payload| <= MAX_PAYLOAD
    ensures var p := TcpPacket(source, destination, sourcePort, destinationPort, s);
            && Pair(p[0], p[1]) == sourcePort && Pair(p[2], p[3]) == destinationPort
            && p[4..8] == Be32(s.seqno) && p[8..12] == Be32(s.ackno)
            && p[12] == 0x50 && p[13] == s.flags && p[20..] == s.payload
  {
    hide ChecksumOf, Be32, Pseudo;
    PairSplit(sourcePort);
    PairSplit(destinationPort);
    var p := TcpPacket(source, destination, sourcePort, destinationPort, s);
    assert p[..16] == TcpStart(sourcePort, destinationPort, s);
    assert p[4..8] == p[..16][4..8] && p[8..12] == p[..16][8..12];
  }

  lemma TcpSums(source: Address, destination: Address, sourcePort: Half, destinationPort: Half, s: Sent)
    requires |s.payload| <= MAX_PAYLOAD
    ensures ChecksumOf(Pseudo(source, destination, 6, 20 + |s.payload|) +
                       TcpPacket(source, destination, sourcePort, destinationPort, s)) == 0
  {
    var pseudo := Pseudo(source, destination, 6, 20 + |s.payload|);
    var start := TcpStart(sourcePort, destinationPort, s);
    var post := [0, 0] + s.payload;
    FilledPasses(pseudo + start, post);
    hide ChecksumOf, Pseudo, TcpStart;
    var c := ChecksumOf(pseudo + start + [0, 0] + post);
    assert pseudo + TcpPacket(source, destination, sourcePort, destinationPort, s) == pseudo + start + Be16(c) + post;
  }

  /** Every segment built is accepted by the client it is addressed to, with its numbers, flags and payload. */
  lemma TcpDelivers(source: Address, destination: Address, sourcePort: Half, destinationPort: Half, s: Sent)
    requires |s.payload| <= MAX_PAYLOAD
    ensures ReceiveTcp(source, destination, sourcePort, destinationPort,
                       TcpPacket(source, destination, sourcePort, destinationPort, s)) ==
            Some(Segment(s.flags, s.seqno, s.ackno, [], s.payload))
  {
    hide ChecksumOf, TcpPacket, Pseudo, Be32, Read32;
    TcpBytes(source, destination, sourcePort, destinationPort, s);
    TcpSums(source, destination, sourcePort, destinationPort, s);
    Read32Be32(s.seqno);
    Read32Be32(s.ackno);
    assert TcpPacket(source, destination, sourcePort, destinationPort, s)[20..20] == [];
  }

  /** A segment with any one byte changed is dropped. */
  lemma CorruptedSegmentDropped(source: Address, destination: Address, sourcePort: Half, destinationPort: Half, s: Sent,
                                i: nat, b: Byte)
    requires |s.payload| <= MAX_PAYLOAD
    requires i < 20 + |s.payload| && TcpPacket(source, destination, sourcePort, destinationPort, s)[i] != b
    ensures ReceiveTcp(source, destination, sourcePort, destinationPort,
                       TcpPacket(source, destination, sourcePort, destinationPort, s)[i := b]) == None
  {
    hide ChecksumOf, TcpPacket, Pseudo, Read32;
    var p := TcpPacket(source, destination, sourcePort, destinationPort, s);
    var pseudo := Pseudo(source, destination, 6, |p|);
    TcpSums(source, destination, sourcePort, destinationPort, s);
    var whole: seq<Byte> := pseudo + p;
    ByteChangeDetected(whole, 12 + i, b);
    assert whole[12 + i := b] == pseudo + p[i := b];
  }

  /** From one host's UDP sender to the UDP receiver of any host that takes the datagram: by its own address, by
      broadcast, or without an address and on the DHCP client's port. */
  lemma UdpEndToEnd(ip: Address, id: Half, source: Address, destination: Address, m: UdpMessage, padding: seq<Byte>)
    requires |m.payload| <= 1472
    requires LocalDestination(ip, destination) || (ip[0] == 0 && m.destinationPort == 68)
    ensures var d := ReceiveIpv4(ip, Ipv4Packet(id, Datagram(source, destination, 17, UdpPacket(source, destination, m))) + padding);
            d.Some? && d.value.protocol == 17 && d.value.source == source &&
            ReceiveUdp(d.value.source, d.value.destination, d.value.payload) == Some(m)
  {
    UdpPort(source, destination, m);
    hide UdpPacket, Ipv4Packet, ReceiveIpv4, ReceiveUdp;
    UdpDelivers(source, destination, m);
    Ipv4Delivers(ip, id, Datagram(source, destination, 17, UdpPacket(source, destination, m)), padding);
  }

  lemma UdpPort(source: Address, destination: Address, m: UdpMessage)
    requires |m.payload| <= 1472
    ensures var p := UdpPacket(source, destination, m);
            |p| >= 4 && Pair(p[2], p[3]) == m.destinationPort
  {
    hide ChecksumOf;
    PairSplit(m.destinationPort);
  }

  /** From the peer's segment to the handler of the client it is addressed to, through both headers. */
  lemma TcpEndToEnd(id: Half, source: Address, destination: Address, sourcePort: Half, destinationPort: Half, s: Sent,
                    padding: seq<Byte>)
    requires |s.payload| <= MAX_PAYLOAD && LocalDestination(destination, destination)
    ensures var segment := TcpPacket(source, destination, sourcePort, destinationPort, s);
            var d := ReceiveIpv4(destination, Ipv4Packet(id, Datagram(source, destination, 6, segment)) + padding);
            && d.Some? && d.value.protocol == 6 && |d.value.payload| < 0x1_0000
            && ReceiveTcp(d.value.source, d.value.destination, sourcePort, destinationPort, d.value.payload) ==
               Some(Segment(s.flags, s.seqno, s.ackno, [], s.payload))
  {
    hide TcpPacket, Ipv4Packet, ReceiveIpv4, ReceiveTcp;
    var segment := TcpPacket(source, destination, sourcePort, destinationPort, s);
    TcpDelivers(source, destination, sourcePort, destinationPort, s);
    Ipv4Delivers(destination, id, Datagram(source, destination, 6, segment), padding);
  }

  // ----- filling the buffers -----

  /** The bytes land at `at`; the rest of the buffer stays. */
  method CopyInto(buffer: array<Byte>, at: nat, bytes: seq<Byte>)
    requires at + |bytes| <= buffer.Length
    modifies buffer
    ensures forall i | 0 <= i < buffer.Length ::
              buffer[i] == if at <= i < at + |bytes| then bytes[i - at] else old(buffer[i])
  {
    for index := 0 to |bytes|
      invariant forall i | 0 <= i < buffer.Length ::
                  buffer[i] == if at <= i < at + index then bytes[i - at] else old(buffer[i])
    {
      buffer[at + index] := bytes[index];
    }
  }

  method WriteBe16(buffer: array<Byte>, at: nat, v: Half)
    requires at + 2 <= buffer.Length
    modifies buffer
    ensures forall i | 0 <= i < buffer.Length ::
              buffer[i] == if at <= i < at + 2 then Be16(v)[i - at] else old(buffer[i])
  {
    buffer[at] := High(v);
    buffer[at + 1] := Low(v);
  }

  /** The pseudo header of the transport checksums followed by the packet. */
  method MakePseudoPacket(source: Address, destination: Address, protocol: Byte, packet: seq<Byte>) returns (check: array<Byte>)
    requires |packet| < 0x1_0000
    ensures fresh(check) && check[..] == Pseudo(source, destination, protocol, |packet|) + packet
  {
    check := new Byte[12 + |packet|](_ => 0);
    CopyInto(check, 0, source);
    CopyInto(check, 4, destination);
    check[9] := protocol;
    WriteBe16(check, 10, |packet|);
    CopyInto(check, 12, packet);
    assert check[..] == Pseudo(source, destination, protocol, |packet|) + packet;
  }

  method BuildUdp(source: Address, destination: Address, m: UdpMessage) returns (packet: array<Byte>)
    requires |m.payload| <= 1472
    ensures fresh(packet) && packet[..] == UdpPacket(source, destination, m)
  {
    hide ChecksumOf;
    packet := new Byte[8 + |m.payload|](_ => 0);
    WriteBe16(packet, 0, m.sourcePort);
    WriteBe16(packet, 2, m.destinationPort);
    WriteBe16(packet, 4, 8 + |m.payload|);
    CopyInto(packet, 8, m.payload);
    assert packet[..] == UdpStart(m) + [0, 0] + m.payload;
    var check := MakePseudoPacket(source, destination, 17, packet[..]);
    assert check[..] == Pseudo(source, destination, 17, 8 + |m.payload|) + UdpStart(m) + [0, 0] + m.payload;
    var c := MakeChecksum(check[..]);
    if c == 0 {
      c := 0xFFFF;
    }
    WriteBe16(packet, 6, c);
    assert packet[..] == UdpStart(m) + Be16(c) + m.payload;
  }

  /** The first sixteen bytes of a segment. */
  method WriteTcpStart(packet: array<Byte>, sourcePort: Half, destinationPort: Half, s: Sent)
    requires packet.Length >= 20
    modifies packet
    ensures packet[..16] == TcpStart(sourcePort, destinationPort, s)
    ensures forall i | 16 <= i < packet.Length :: packet[i] == old(packet[i])
  {
    hide High, Low, Be32;
    WriteBe16(packet, 0, sourcePort);
    WriteBe16(packet, 2, destinationPort);
    CopyInto(packet, 4, Be32(s.seqno));
    CopyInto(packet, 8, Be32(s.ackno));
    packet[12] := 5 * 16;
    packet[13] := s.flags;
    WriteBe16(packet, 14, 32768);
  }

  method BuildSegment(source: Address, destination: Address, sourcePort: Half, destinationPort: Half, s: Sent)
    returns (packet: array<Byte>)
    requires |s.payload| <= MAX_PAYLOAD
    ensures fresh(packet) && packet[..] == TcpPacket(source, destination, sourcePort, destinationPort, s)
  {
    hide ChecksumOf, High, Low, TcpStart, Pseudo;
    ghost var start, post := TcpStart(sourcePort, destinationPort, s), [0, 0] + s.payload;
    packet := new Byte[20 + |s.payload|](_ => 0);
    WriteTcpStart(packet, sourcePort, destinationPort, s);
    CopyInto(packet, 20, s.payload);
    assert packet[..16] == start;
    assert packet[..] == packet[..16] + [0, 0] + post;
    var check := MakePseudoPacket(source, destination, 6, packet[..]);
    assert check[..] == Pseudo(source, destination, 6, 20 + |s.payload|) + start + [0, 0] + post;
    var c := MakeChecksum(check[..]);
    WriteBe16(packet, 16, c);
    assert packet[..16] == start;
    assert packet[..] == packet[..16] + Be16(c) + post;
  }

  /** The IPv4 header with a zero checksum field. */
  method WriteIpHeader(packet: array<Byte>, id: Half, d: Datagram)
    requires |d.payload| <= 1480 && packet.Length == 20 + |d.payload|
    requires forall i | 0 <= i < packet.Length :: packet[i] == 0
    modifies packet
    ensures packet[..10] == IpStart(20 + |d.payload|, id, d.protocol)
    ensures packet[10..12] == [0, 0] && packet[12..20] == d.source + d.destination
  {
    hide High, Low;
    packet[0] := 0x45;
    WriteBe16(packet, 2, 20 + |d.payload|);
    WriteBe16(packet, 4, id);
    packet[6] := 0x40;
    packet[8] := 64;
    packet[9] := d.protocol;
    CopyInto(packet, 12, d.source);
    CopyInto(packet, 16, d.destination);
  }

  method BuildIpv4(id: Half, d: Datagram) returns (packet: array<Byte>)
    requires |d.payload| <= 1480
    ensures fresh(packet) && packet[..] == Ipv4Packet(id, d)
  {
    hide ChecksumOf, High, Low, IpStart;
    ghost var start, ends := IpStart(20 + |d.payload|, id, d.protocol), d.source + d.destination;
    packet := new Byte[20 + |d.payload|](_ => 0);
    WriteIpHeader(packet, id, d);
    assert packet[..20] == packet[..10] + packet[10..12] + packet[12..20];
    var c := MakeChecksum(packet[..20]);
    WriteBe16(packet, 10, c);
    CopyInto(packet, 20, d.payload);
    assert packet[..10] == start && packet[10..12] == Be16(c) && packet[12..20] == ends && packet[20..] == d.payload;
    assert packet[..] == packet[..10] + packet[10..12] + packet[12..20] + packet[20..];
  }
}
