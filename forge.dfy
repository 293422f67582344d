/** `forge_arp_response`: the reply is built in place, in two zeroed
    buffers (42 octets for the frame, 28 for the ARP packet), one field
    setter at a time, and the ARP buffer is then copied into the frame's
    payload. The send on a freshly opened channel is not modelled: the
    method returns the octets it would send. */
module Forge {
  import opened Bytes
  import opened Addresses
  import opened ArpWire

  /** One pnet field setter: writes `data` into `buf` from offset `off`.
      The octets before `off` and after the field are left as they were. */
  method Put(buf: array<byte>, off: nat, data: seq<byte>)
    requires off + |data| <= buf.Length
    modifies buf
    ensures buf[..off + |data|] == old(buf[..off]) + data
    ensures buf[off + |data|..] == old(buf[off + |data|..])
    ensures forall k :: off + |data| <= k < buf.Length ==> buf[k] == old(buf[k])
  {
    var i := 0;
    while i < |data|
      invariant 0 <= i <= |data|
      invariant forall k :: 0 <= k < off ==> buf[k] == old(buf[k])
      invariant forall k :: 0 <= k < i ==> buf[off + k] == data[k]
      invariant forall k :: off + i <= k < buf.Length ==> buf[k] == old(buf[k])
    {
      buf[off + i] := data[i];
      i := i + 1;
    }
  }

  /** `set_destination`, `set_source` and `set_ethertype` on the frame
      buffer. */
  method SetEthernetHeader(buf: array<byte>, destination: MacAddr, source: MacAddr, ethertype: uint16)
    requires buf.Length >= ETHERNET_HEADER_LEN
    modifies buf
    ensures buf[..ETHERNET_HEADER_LEN] == EncodeEthernetHeader(EthernetHeader(destination, source, ethertype))
    ensures buf[ETHERNET_HEADER_LEN..] == old(buf[ETHERNET_HEADER_LEN..])
  {
    Put(buf, 0, MacOctets(destination));
    Put(buf, 6, MacOctets(source));
    Put(buf, 12, BigEndian16(ethertype));
  }

  /** The fixed fields of the ARP packet: hardware type, protocol type,
      the two address lengths and the operation. */
  method SetArpFixedFields(buf: array<byte>, operation: uint16)
    requires buf.Length == ARP_PACKET_LEN
    modifies buf
    ensures buf[..8] == BigEndian16(HARDWARE_TYPE_ETHERNET) + BigEndian16(ETHERTYPE_IPV4)
                        + [6] + [4] + BigEndian16(operation)
    ensures buf[8..] == old(buf[8..])
  {
    Put(buf, 0, BigEndian16(HARDWARE_TYPE_ETHERNET));
    Put(buf, 2, BigEndian16(ETHERTYPE_IPV4));
    Put(buf, 4, [6]);
    Put(buf, 5, [4]);
    Put(buf, 6, BigEndian16(operation));
  }

  /** The four address fields of the ARP packet, after the fixed ones. */
  method SetArpAddresses(buf: array<byte>, senderMac: MacAddr, senderIp: Ipv4Addr,
                         targetMac: MacAddr, targetIp: Ipv4Addr)
    requires buf.Length == ARP_PACKET_LEN
    modifies buf
    ensures buf[..] == old(buf[..8]) + MacOctets(senderMac) + Ipv4Octets(senderIp)
                       + MacOctets(targetMac) + Ipv4Octets(targetIp)
  {
    Put(buf, 8, MacOctets(senderMac));
    Put(buf, 14, Ipv4Octets(senderIp));
    Put(buf, 18, MacOctets(targetMac));
    Put(buf, 24, Ipv4Octets(targetIp));
    assert buf[..] == buf[..28];
  }

  /** The reply frame, built as the Rust function builds it, is exactly
      `ReplyBytes` of the four addresses. */
  method ForgeArpResponse(senderIp: Ipv4Addr, senderMac: MacAddr,
                          destinationIp: Ipv4Addr, destinationMac: MacAddr)
    returns (frame: seq<byte>)
    ensures frame == ReplyBytes(senderIp, senderMac, destinationIp, destinationMac)
  {
    var ethernet := new byte[REPLY_FRAME_LEN](_ => 0);
    SetEthernetHeader(ethernet, destinationMac, senderMac, ETHERTYPE_ARP);

    var arp := new byte[ARP_PACKET_LEN](_ => 0);
    SetArpFixedFields(arp, OPERATION_REPLY);
    SetArpAddresses(arp, senderMac, senderIp, destinationMac, destinationIp);
    assert arp[..] == EncodeArp(ArpReply(senderIp, senderMac, destinationIp, destinationMac));

    // `set_payload`: the ARP packet fills the rest of the frame.
    Put(ethernet, ETHERNET_HEADER_LEN, arp[..]);
    assert ethernet[..] == ethernet[..REPLY_FRAME_LEN];
    frame := ethernet[..];
  }
}
