/** One iteration of the receive loop of `respond_arp_queries`: a received
    frame is read as an ARP packet from offset 14, and a reply is forged
    when the packet is a request for a configured address. The loop, the
    channel and the interface lookup are not modelled; each iteration is
    a step from the received octets to its outcome. */
module Responder {
  import opened Wrappers
  import opened Bytes
  import opened Addresses
  import opened HostTable
  import opened ArpWire
  import opened Forge

  /** Where the Rust loop body panics on a frame. */
  datatype PanicReason =
    | PayloadSliceOutOfRange  // `&buf[14..]` on a frame of fewer than 14 octets
    | ArpPacketTooShort       // `ArpPacket::new(..).unwrap()` on fewer than 28 payload octets

  /** The outcome of one received frame: a reply frame to send, nothing,
      or a panic that ends the responder. */
  datatype Step = Reply(frame: seq<byte>) | NoReply | Panic(reason: PanicReason)

  /** Fields of the received frame, at their offsets in the frame (the ARP
      offset plus the 14 octets of the Ethernet header). */
  function RequestOperation(buf: seq<byte>): uint16
    requires |buf| >= REPLY_FRAME_LEN
  {
    ReadBigEndian16(buf, 20)
  }

  function RequestSenderMac(buf: seq<byte>): MacAddr
    requires |buf| >= REPLY_FRAME_LEN
  {
    MacAt(buf, 22)
  }

  function RequestSenderIp(buf: seq<byte>): Ipv4Addr
    requires |buf| >= REPLY_FRAME_LEN
  {
    Ipv4At(buf, 28)
  }

  function RequestTargetIp(buf: seq<byte>): Ipv4Addr
    requires |buf| >= REPLY_FRAME_LEN
  {
    Ipv4At(buf, 38)
  }

  /** The ARP packet read from a frame long enough to hold one has, as its
      fields, the octets at the frame offsets above. */
  lemma PayloadFieldsAt(buf: seq<byte>)
    requires |buf| >= REPLY_FRAME_LEN
    ensures DecodeArp(buf[ETHERNET_HEADER_LEN..]).Some?
    ensures var p := DecodeArp(buf[ETHERNET_HEADER_LEN..]).value;
      && p.operation == RequestOperation(buf)
      && p.senderHwAddr == RequestSenderMac(buf)
      && p.senderProtoAddr == RequestSenderIp(buf)
      && p.targetProtoAddr == RequestTargetIp(buf)
  {
    var s := buf[ETHERNET_HEADER_LEN..];
    assert s[6..8] == buf[20..22];
    assert s[8..14] == buf[22..28];
    assert s[14..18] == buf[28..32];
    assert s[24..28] == buf[38..42];
  }

  /** The loop body on one received frame `buf`.
      It panics exactly on frames shorter than 42 octets. It replies exactly
      when the operation is Request and some host has the target protocol
      address. The reply then has, as sender, the requested address and the
      hardware address of the first such host, and, as target, the
      requester's protocol and hardware addresses. The EtherType at offset
      12 is never consulted. */
  function HandleFrame(buf: seq<byte>, hosts: seq<Host>): (r: Step)
    ensures |buf| < ETHERNET_HEADER_LEN ==> r == Panic(PayloadSliceOutOfRange)
    ensures ETHERNET_HEADER_LEN <= |buf| < REPLY_FRAME_LEN ==> r == Panic(ArpPacketTooShort)
    ensures r.Panic? <==> |buf| < REPLY_FRAME_LEN
    ensures r.Reply? <==> (|buf| >= REPLY_FRAME_LEN
                           && RequestOperation(buf) == OPERATION_REQUEST
                           && exists i :: 0 <= i < |hosts| && Matches(hosts[i], RequestTargetIp(buf)))
    ensures r.Reply? ==> (FindHostByIp(hosts, RequestTargetIp(buf)).Some?
                          && r.frame == ReplyBytes(RequestTargetIp(buf),
                                                   FindHostByIp(hosts, RequestTargetIp(buf)).value.macAddress,
                                                   RequestSenderIp(buf), RequestSenderMac(buf)))
  {
    if |buf| < ETHERNET_HEADER_LEN then Panic(PayloadSliceOutOfRange)
    else
      match DecodeArp(buf[ETHERNET_HEADER_LEN..])
      case None => Panic(ArpPacketTooShort)
      case Some(arp) =>
        PayloadFieldsAt(buf);
        if arp.operation == OPERATION_REQUEST && AnyHostMatches(hosts, arp.targetProtoAddr) then
          match FindHostByIp(hosts, arp.targetProtoAddr)
          case Some(senderHost) =>
            Reply(ReplyBytes(arp.targetProtoAddr, senderHost.macAddress,
                             arp.senderProtoAddr, arp.senderHwAddr))
          case None => NoReply
        else NoReply
  }

  /** The loop body as the Rust code runs it, with the reply built in place
      by `ForgeArpResponse`; its outcome is `HandleFrame`'s. */
  method ProcessFrame(buf: seq<byte>, hosts: seq<Host>) returns (r: Step)
    ensures r == HandleFrame(buf, hosts)
  {
    if |buf| < ETHERNET_HEADER_LEN {
      return Panic(PayloadSliceOutOfRange);
    }
    var decoded := DecodeArp(buf[ETHERNET_HEADER_LEN..]);
    if decoded.None? {
      return Panic(ArpPacketTooShort);
    }
    var arp := decoded.value;
    if arp.operation == OPERATION_REQUEST && AnyHostMatches(hosts, arp.targetProtoAddr) {
      var found := FindHostByIp(hosts, arp.targetProtoAddr);
      if found.Some? {
        var frame := ForgeArpResponse(arp.targetProtoAddr, found.value.macAddress,
                                      arp.senderProtoAddr, arp.senderHwAddr);
        return Reply(frame);
      }
    }
    return NoReply;
  }

  /** For a frame made of an Ethernet header and an ARP packet: there is a
      reply exactly when the packet is a request and some host has its
      target address; any other operation or an unknown target gives no
      reply, and no such frame panics. */
  lemma ReplyDecision(eth: EthernetHeader, p: ArpPacket, rest: seq<byte>, hosts: seq<Host>)
    ensures var r := HandleFrame(EncodeEthernetHeader(eth) + EncodeArp(p) + rest, hosts);
      && !r.Panic?
      && (r.Reply? <==> p.operation == OPERATION_REQUEST && AnyHostMatches(hosts, p.targetProtoAddr))
  {
    var buf := EncodeEthernetHeader(eth) + EncodeArp(p) + rest;
    assert buf[ETHERNET_HEADER_LEN..] == EncodeArp(p) + rest;
    ArpRoundTrip(p, rest);
  }

  /** A request for a configured address is answered with a unicast reply to
      the requester: the Ethernet destination is the requester's hardware
      address and the source is the matched host's; the requester's sender
      fields become the reply's target fields, and the requested address
      with the host's hardware address becomes its sender fields. */
  lemma RequestIsAnsweredWithSwappedAddresses(eth: EthernetHeader, req: ArpPacket, rest: seq<byte>,
                                              hosts: seq<Host>, h: Host)
    requires req.operation == OPERATION_REQUEST
    requires FindHostByIp(hosts, req.targetProtoAddr) == Some(h)
    ensures var r := HandleFrame(EncodeEthernetHeader(eth) + EncodeArp(req) + rest, hosts);
      && r.Reply?
      && DecodeEthernetHeader(r.frame)
         == Some(EthernetHeader(req.senderHwAddr, h.macAddress, ETHERTYPE_ARP))
      && DecodeArp(r.frame[ETHERNET_HEADER_LEN..])
         == Some(ArpPacket(HARDWARE_TYPE_ETHERNET, ETHERTYPE_IPV4, 6, 4, OPERATION_REPLY,
                           h.macAddress, req.targetProtoAddr, req.senderHwAddr, req.senderProtoAddr))
  {
    var buf := EncodeEthernetHeader(eth) + EncodeArp(req) + rest;
    assert buf[ETHERNET_HEADER_LEN..] == EncodeArp(req) + rest;
    ArpRoundTrip(req, rest);
  }

  /** A reply the responder sends is never itself answered, should it be
      received again: its operation is Reply. */
  lemma OwnRepliesAreNotAnswered(senderIp: Ipv4Addr, senderMac: MacAddr,
                                 destinationIp: Ipv4Addr, destinationMac: MacAddr,
                                 rest: seq<byte>, hosts: seq<Host>)
    ensures HandleFrame(ReplyBytes(senderIp, senderMac, destinationIp, destinationMac) + rest, hosts)
         == NoReply
  {
    var f := ReplyBytes(senderIp, senderMac, destinationIp, destinationMac);
    var eth := EthernetHeader(destinationMac, senderMac, ETHERTYPE_ARP);
    var p := ArpReply(senderIp, senderMac, destinationIp, destinationMac);
    assert f == EncodeEthernetHeader(eth) + EncodeArp(p);
    ReplyDecision(eth, p, rest, hosts);
  }

  /** The worked exchange: a table holding 192.168.1.100 at
      01:23:45:67:89:ab, and a broadcast request from 192.168.1.1 at
      de:ad:be:ef:00:01 asking for 192.168.1.100. */
  lemma ExampleExchange()
    ensures var host := Host(V4(Ipv4Addr(192, 168, 1, 100)), MacAddr(0x01, 0x23, 0x45, 0x67, 0x89, 0xab));
            var requester := MacAddr(0xde, 0xad, 0xbe, 0xef, 0x00, 0x01);
            var eth := EthernetHeader(MacAddr(0xff, 0xff, 0xff, 0xff, 0xff, 0xff), requester, ETHERTYPE_ARP);
            var req := ArpPacket(HARDWARE_TYPE_ETHERNET, ETHERTYPE_IPV4, 6, 4, OPERATION_REQUEST,
                                 requester, Ipv4Addr(192, 168, 1, 1),
                                 MacAddr(0, 0, 0, 0, 0, 0), Ipv4Addr(192, 168, 1, 100));
            HandleFrame(EncodeEthernetHeader(eth) + EncodeArp(req), [host])
            == Reply(ReplyBytes(Ipv4Addr(192, 168, 1, 100), host.macAddress,
                                Ipv4Addr(192, 168, 1, 1), requester))
  {
    var host := Host(V4(Ipv4Addr(192, 168, 1, 100)), MacAddr(0x01, 0x23, 0x45, 0x67, 0x89, 0xab));
    var requester := MacAddr(0xde, 0xad, 0xbe, 0xef, 0x00, 0x01);
    var eth := EthernetHeader(MacAddr(0xff, 0xff, 0xff, 0xff, 0xff, 0xff), requester, ETHERTYPE_ARP);
    var req := ArpPacket(HARDWARE_TYPE_ETHERNET, ETHERTYPE_IPV4, 6, 4, OPERATION_REQUEST,
                         requester, Ipv4Addr(192, 168, 1, 1),
                         MacAddr(0, 0, 0, 0, 0, 0), Ipv4Addr(192, 168, 1, 100));
    var buf := EncodeEthernetHeader(eth) + EncodeArp(req);
    assert buf == buf + [];
    assert buf[ETHERNET_HEADER_LEN..] == EncodeArp(req) + [];
    ArpRoundTrip(req, []);
    assert FindHostByIp([host], req.targetProtoAddr) == Some(host);
  }

  // Findings: the loop body as written answers frames that are not ARP,
  // and panics on short frames.

  /** An IPv4 frame (EtherType 0x0800) whose octets 20-21 and 38-41 happen to
      read as an ARP request for a configured address is answered. */
  lemma NonArpFrameIsAnswered(hosts: seq<Host>, h: Host, p: ArpPacket, rest: seq<byte>,
                              destination: MacAddr, source: MacAddr)
    requires p.operation == OPERATION_REQUEST
    requires FindHostByIp(hosts, p.targetProtoAddr) == Some(h)
    ensures var buf := EncodeEthernetHeader(EthernetHeader(destination, source, ETHERTYPE_IPV4))
                       + EncodeArp(p) + rest;
            ReadBigEndian16(buf, 12) != ETHERTYPE_ARP && HandleFrame(buf, hosts).Reply?
  {
    var eth := EthernetHeader(destination, source, ETHERTYPE_IPV4);
    var buf := EncodeEthernetHeader(eth) + EncodeArp(p) + rest;
    EthernetHeaderRoundTrip(eth, EncodeArp(p) + rest);
    assert buf == EncodeEthernetHeader(eth) + (EncodeArp(p) + rest);
    BigEndian16RoundTrip(ETHERTYPE_IPV4, buf, 12);
    RequestIsAnsweredWithSwappedAddresses(eth, p, rest, hosts, h);
  }

  /** A 41-octet frame ends the responder instead of being discarded. */
  lemma ShortFramePanics(hosts: seq<Host>)
    ensures HandleFrame(seq(41, _ => 0 as byte), hosts) == Panic(ArpPacketTooShort)
  {
  }

  /** The loop body as evidently intended: frames too short to hold an
      Ethernet header and an ARP packet, and frames whose EtherType is not
      ARP, are discarded. It never panics, never answers a non-ARP frame,
      and on every full-length ARP frame agrees with the code as written. */
  function HandleFrameChecked(buf: seq<byte>, hosts: seq<Host>): (r: Step)
    ensures !r.Panic?
    ensures r.Reply? ==> |buf| >= REPLY_FRAME_LEN && ReadBigEndian16(buf, 12) == ETHERTYPE_ARP
    ensures |buf| >= REPLY_FRAME_LEN && ReadBigEndian16(buf, 12) == ETHERTYPE_ARP
            ==> r == HandleFrame(buf, hosts)
    ensures r.Reply? <==> (|buf| >= REPLY_FRAME_LEN
                           && ReadBigEndian16(buf, 12) == ETHERTYPE_ARP
                           && RequestOperation(buf) == OPERATION_REQUEST
                           && exists i :: 0 <= i < |hosts| && Matches(hosts[i], RequestTargetIp(buf)))
  {
    if |buf| < REPLY_FRAME_LEN then NoReply
    else
      match DecodeEthernetHeader(buf)
      case None => NoReply
      case Some(eth) =>
        BigEndian16RoundTrip(eth.ethertype, buf, 12);
        if eth.ethertype != ETHERTYPE_ARP then NoReply
        else HandleFrame(buf, hosts)
  }
}
