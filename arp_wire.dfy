/** The wire layout the responder reads and writes: the 14-byte Ethernet II
    header and the 28-byte ARP packet of RFC 826 for Ethernet hardware
    and IPv4 protocol addresses, all multi-octet fields in network order.
    The ARP field offsets are those of pnet's `ArpPacket`. */
module ArpWire {
  import opened Wrappers
  import opened Bytes
  import opened Addresses

  /** `MutableEthernetPacket::minimum_packet_size()`. */
  const ETHERNET_HEADER_LEN: nat := 14
  /** The size of an ARP packet with 6-octet and 4-octet addresses. */
  const ARP_PACKET_LEN: nat := 28
  /** The size of a reply frame: header plus ARP packet. */
  const REPLY_FRAME_LEN: nat := 42

  /** `EtherTypes::Arp`. */
  const ETHERTYPE_ARP: uint16 := 0x0806
  /** `EtherTypes::Ipv4`, used as the ARP protocol type. */
  const ETHERTYPE_IPV4: uint16 := 0x0800
  /** `ArpHardwareTypes::Ethernet`. */
  const HARDWARE_TYPE_ETHERNET: uint16 := 1
  /** `ArpOperations::Request` and `ArpOperations::Reply`. */
  const OPERATION_REQUEST: uint16 := 1
  const OPERATION_REPLY: uint16 := 2

  datatype EthernetHeader = EthernetHeader(destination: MacAddr, source: MacAddr, ethertype: uint16)

  datatype ArpPacket = ArpPacket(
    hardwareType: uint16,
    protocolType: uint16,
    hwAddrLen: byte,
    protoAddrLen: byte,
    operation: uint16,
    senderHwAddr: MacAddr,
    senderProtoAddr: Ipv4Addr,
    targetHwAddr: MacAddr,
    targetProtoAddr: Ipv4Addr)

  function EncodeEthernetHeader(h: EthernetHeader): (r: seq<byte>)
    ensures |r| == ETHERNET_HEADER_LEN
  {
    MacOctets(h.destination) + MacOctets(h.source) + BigEndian16(h.ethertype)
  }

  /** Reading an Ethernet header: fails only when fewer than 14 octets are
      given, and otherwise reads back exactly the first 14 octets. */
  function DecodeEthernetHeader(s: seq<byte>): (r: Option<EthernetHeader>)
    ensures r.Some? <==> |s| >= ETHERNET_HEADER_LEN
    ensures r.Some? ==> EncodeEthernetHeader(r.value) == s[..ETHERNET_HEADER_LEN]
  {
    if |s| < ETHERNET_HEADER_LEN then None
    else
      var h := EthernetHeader(MacAt(s, 0), MacAt(s, 6), ReadBigEndian16(s, 12));
      assert s[..14] == s[0..6] + s[6..12] + s[12..14];
      Some(h)
  }

  function EncodeArp(p: ArpPacket): (r: seq<byte>)
    ensures |r| == ARP_PACKET_LEN
  {
    BigEndian16(p.hardwareType) + BigEndian16(p.protocolType)
    + [p.hwAddrLen] + [p.protoAddrLen] + BigEndian16(p.operation)
    + MacOctets(p.senderHwAddr) + Ipv4Octets(p.senderProtoAddr)
    + MacOctets(p.targetHwAddr) + Ipv4Octets(p.targetProtoAddr)
  }

  /** `ArpPacket::new`: fails only when fewer than 28 octets are given, and
      otherwise reads back exactly the first 28 octets; whatever follows
      them is ignored. */
  function DecodeArp(s: seq<byte>): (r: Option<ArpPacket>)
    ensures r.Some? <==> |s| >= ARP_PACKET_LEN
    ensures r.Some? ==> EncodeArp(r.value) == s[..ARP_PACKET_LEN]
  {
    if |s| < ARP_PACKET_LEN then None
    else
      var p := ArpPacket(ReadBigEndian16(s, 0), ReadBigEndian16(s, 2), s[4], s[5],
                         ReadBigEndian16(s, 6), MacAt(s, 8), Ipv4At(s, 14),
                         MacAt(s, 18), Ipv4At(s, 24));
      assert s[..28] == s[0..2] + s[2..4] + [s[4]] + [s[5]] + s[6..8] + s[8..14]
                        + s[14..18] + s[18..24] + s[24..28];
      Some(p)
  }

  lemma EthernetHeaderRoundTrip(h: EthernetHeader, rest: seq<byte>)
    ensures DecodeEthernetHeader(EncodeEthernetHeader(h) + rest) == Some(h)
  {
    var s := EncodeEthernetHeader(h) + rest;
    assert s[0..6] == MacOctets(h.destination);
    assert s[6..12] == MacOctets(h.source);
    assert s[12..14] == BigEndian16(h.ethertype);
    MacRoundTrip(h.destination, s, 0);
    MacRoundTrip(h.source, s, 6);
    BigEndian16RoundTrip(h.ethertype, s, 12);
  }

  lemma ArpRoundTrip(p: ArpPacket, rest: seq<byte>)
    ensures DecodeArp(EncodeArp(p) + rest) == Some(p)
  {
    var s := EncodeArp(p) + rest;
    assert s[0..2] == BigEndian16(p.hardwareType);
    assert s[2..4] == BigEndian16(p.protocolType);
    assert s[6..8] == BigEndian16(p.operation);
    assert s[8..14] == MacOctets(p.senderHwAddr);
    assert s[14..18] == Ipv4Octets(p.senderProtoAddr);
    assert s[18..24] == MacOctets(p.targetHwAddr);
    assert s[24..28] == Ipv4Octets(p.targetProtoAddr);
    BigEndian16RoundTrip(p.hardwareType, s, 0);
    BigEndian16RoundTrip(p.protocolType, s, 2);
    BigEndian16RoundTrip(p.operation, s, 6);
    MacRoundTrip(p.senderHwAddr, s, 8);
    Ipv4RoundTrip(p.senderProtoAddr, s, 14);
    MacRoundTrip(p.targetHwAddr, s, 18);
    Ipv4RoundTrip(p.targetProtoAddr, s, 24);
  }

  /** The ARP packet that `forge_arp_response` fills in. */
  function ArpReply(senderIp: Ipv4Addr, senderMac: MacAddr,
                    destinationIp: Ipv4Addr, destinationMac: MacAddr): ArpPacket
  {
    ArpPacket(HARDWARE_TYPE_ETHERNET, ETHERTYPE_IPV4, 6, 4, OPERATION_REPLY,
              senderMac, senderIp, destinationMac, destinationIp)
  }

  /** The frame `forge_arp_response` sends: an Ethernet header addressed to
      the destination hardware address from the sender hardware address,
      carrying an ARP reply. It is 42 octets long and reads back as exactly
      that header and that packet. */
  function ReplyBytes(senderIp: Ipv4Addr, senderMac: MacAddr,
                      destinationIp: Ipv4Addr, destinationMac: MacAddr): (r: seq<byte>)
    ensures |r| == REPLY_FRAME_LEN
    ensures DecodeEthernetHeader(r) == Some(EthernetHeader(destinationMac, senderMac, ETHERTYPE_ARP))
    ensures DecodeArp(r[ETHERNET_HEADER_LEN..])
         == Some(ArpPacket(1, 0x0800, 6, 4, 2, senderMac, senderIp, destinationMac, destinationIp))
  {
    var header := EncodeEthernetHeader(EthernetHeader(destinationMac, senderMac, ETHERTYPE_ARP));
    var payload := EncodeArp(ArpReply(senderIp, senderMac, destinationIp, destinationMac));
    EthernetHeaderRoundTrip(EthernetHeader(destinationMac, senderMac, ETHERTYPE_ARP), payload);
    assert (header + payload)[14..] == payload + [];
    ArpRoundTrip(ArpReply(senderIp, senderMac, destinationIp, destinationMac), []);
    header + payload
  }

  /** The octet layout of the reply frame, offset by offset. */
  lemma ReplyLayout(senderIp: Ipv4Addr, senderMac: MacAddr,
                    destinationIp: Ipv4Addr, destinationMac: MacAddr)
    ensures var r := ReplyBytes(senderIp, senderMac, destinationIp, destinationMac);
      && r[0..6] == MacOctets(destinationMac)
      && r[6..12] == MacOctets(senderMac)
      && r[12..14] == [0x08, 0x06]
      && r[14..16] == [0x00, 0x01]
      && r[16..18] == [0x08, 0x00]
      && r[18] == 6 && r[19] == 4
      && r[20..22] == [0x00, 0x02]
      && r[22..28] == MacOctets(senderMac)
      && r[28..32] == Ipv4Octets(senderIp)
      && r[32..38] == MacOctets(destinationMac)
      && r[38..42] == Ipv4Octets(destinationIp)
  {
    var r := ReplyBytes(senderIp, senderMac, destinationIp, destinationMac);
    var h := EthernetHeader(destinationMac, senderMac, ETHERTYPE_ARP);
    assert EncodeEthernetHeader(h) == r[..14];
    assert EncodeArp(ArpReply(senderIp, senderMac, destinationIp, destinationMac)) == r[14..];
  }
}
