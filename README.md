# arp-whisper: a Dafny model of the ARP responder core

arp-whisper answers ARP requests on one network interface for a fixed table
of (IP address, MAC address) pairs. It impersonates those hosts at the link
layer. This project models the packet-level logic of `src/network.rs` and
proves properties of it:

- **The host table.** `Host`, `new_host` with the two text parsers passed in as
  abstract partial functions, and `find_host_by_ip`.
- **Building the reply frame.** `forge_arp_response` fills a zeroed 42-octet
  Ethernet buffer and a zeroed 28-octet ARP buffer, one field at a time. It
  then copies the ARP buffer into the frame's payload.
- **One iteration of the receive loop.** `respond_arp_queries` reads a
  received frame from offset 14 as an ARP packet. It answers when the
  operation is Request and the target protocol address is in the table.

Files, one module each:

- `wrappers.dfy`: `Option` and `Result`.
- `bytes.dfy`: octets, 16-bit values and big-endian fields.
- `addresses.dfy`: `MacAddr`, `Ipv4Addr` and `IpAddr`.
- `host_table.dfy`: the host table.
- `arp_wire.dfy`: the Ethernet II header, the RFC 826 ARP packet and the
  reply frame as a pure function.
- `forge.dfy`: the in-place construction over arrays.
- `responder.dfy`: the per-frame step.

Octets are `byte`, a newtype over `0..255`. Integers wider than an octet are
`uint16`, a newtype over `0..65535`. All multi-octet fields are big-endian.

A frame the responder would send is returned as a sequence of octets. The
per-frame step returns one of three outcomes:

- `Reply(frame)`: a reply frame to send.
- `NoReply`: the frame is ignored.
- `Panic(reason)`: one of the two places where the Rust code panics on a
  received frame.

## Model

| member | source | states |
|---|---|---|
| HostTable.NewHost | src/network.rs:37-57 | The result is a host exactly when both parses succeed, and then its fields are exactly the parsed IP and MAC. A failed IP parse aborts with that text, whatever the MAC. A good IP with a failed MAC parse aborts with the MAC text. No partly built host is ever returned. |
| HostTable.FindHostByIp | src/network.rs:94-96 | `None` exactly when no entry's address equals the IPv4 target. Otherwise the result is the entry at the first matching index, and its address is `V4(target)`, so an IPv6 entry is never returned. |
| HostTable.AnyHostMatches | src/network.rs:228-234 | The `any` guard holds exactly when some entry matches. It also holds exactly when `find_host_by_ip` returns a host, so the `if let Some` after the guard always succeeds. |
| HostTable.FindInConcatenation | src/network.rs:94-96 | A lookup in `front + back` gives front's answer if it has one, and back's otherwise. Appending entries never changes an existing answer. |
| HostTable.EarliestEntryWins | src/network.rs:94-96 | With duplicate addresses, the first matching entry is returned, whatever follows it. |
| HostTable.FindIgnoresIpv6Entries | src/network.rs:94-96 | Removing every IPv6 entry from the table changes no lookup: `IpAddr == Ipv4Addr` is false for every V6 address. |
| HostTable.NewHostThenFind | src/network.rs:53-56 | A host built from an IPv4 literal, with no earlier entry for that address, is found by that address, and its MAC is the parsed one, unchanged. |
| Bytes.ReadBigEndian16 | src/network.rs:226-228 | The 16-bit field read at an offset is the value whose big-endian encoding is the two octets there. |
| Addresses.MacAt | src/network.rs:243-244 | The MAC read at an offset is the one whose six octets are those at that offset. |
| Addresses.Ipv4At | src/network.rs:241-243 | The IPv4 address read at an offset is the one whose four octets are those at that offset. |
| ArpWire.DecodeArp | src/network.rs:226 | `ArpPacket::new` fails exactly when fewer than 28 octets are given. Otherwise the packet it reads re-encodes to exactly the first 28 octets. |
| ArpWire.ArpRoundTrip | src/network.rs:149-157 | An encoded ARP packet, followed by any octets, reads back as the same packet. |
| ArpWire.EthernetHeaderRoundTrip | src/network.rs:140-142 | An encoded Ethernet header, followed by any octets, reads back as the same header. |
| ArpWire.ReplyBytes | src/network.rs:134-162 | The reply frame is 42 octets. Its header reads back as (destination MAC, sender MAC, EtherType 0x0806). Its octets from 14 on read back as the ARP packet (htype 1, ptype 0x0800, hlen 6, plen 4, op 2, sha = sender MAC, spa = sender IP, tha = destination MAC, tpa = destination IP). |
| ArpWire.ReplyLayout | src/network.rs:135-162 | The reply frame offset by offset: 0-5 destination MAC, 6-11 sender MAC, 12-13 = 08 06, 14-15 = 00 01, 16-17 = 08 00, 18 = 6, 19 = 4, 20-21 = 00 02, 22-27 sha, 28-31 spa, 32-37 tha, 38-41 tpa. |
| Forge.Put | src/network.rs:140-157 | A field setter writes its octets at its offset. Every octet before the field and after it is unchanged. |
| Forge.SetEthernetHeader | src/network.rs:140-142 | Octets 0-13 become the encoded header (destination, source, EtherType). The rest of the buffer is unchanged. |
| Forge.SetArpFixedFields | src/network.rs:149-153 | Octets 0-7 of the ARP buffer become htype 1, ptype 0x0800, hlen 6, plen 4 and the operation. The rest is unchanged. |
| Forge.SetArpAddresses | src/network.rs:154-157 | Octets 8-27 of the ARP buffer become sha, spa, tha and tpa in that order. Octets 0-7 are unchanged. |
| Forge.ForgeArpResponse | src/network.rs:127-162 | The frame built in place, from two zeroed buffers and the setter calls followed by `set_payload`, equals `ReplyBytes` of the four addresses. |
| Responder.PayloadFieldsAt | src/network.rs:226-244 | In a frame of at least 42 octets, the ARP packet read from offset 14 has its operation at frame offset 20, sha at 22, spa at 28 and tpa at 38. |
| Responder.HandleFrame | src/network.rs:225-247 | Panics exactly on frames shorter than 42 octets. The reason is the slice for fewer than 14 octets and the `unwrap` otherwise. The step replies exactly when the operation is Request (1) and some host has the target protocol address. The reply is `ReplyBytes(tpa, first matching host's MAC, request spa, request sha)`. |
| Responder.ProcessFrame | src/network.rs:225-247 | The loop body, with the reply built by the in-place `ForgeArpResponse`, has exactly `HandleFrame`'s outcome. |
| Responder.ReplyDecision | src/network.rs:228-232 | A frame made of a header and an ARP packet never panics. It gets a reply exactly when the packet is a request and the table holds its target address. Any other operation, or an unknown target, gets no reply. |
| Responder.RequestIsAnsweredWithSwappedAddresses | src/network.rs:234-246 | A request for a configured address gets a unicast reply to the requester's MAC, from the host's MAC. Its ARP sender is (host MAC, requested IP) and its ARP target is (request sha, request spa). |
| Responder.OwnRepliesAreNotAnswered | src/network.rs:228 | A reply frame the responder built, if received again, is not answered. |
| Responder.ExampleExchange | src/network.rs:225-247 | The worked exchange: 192.168.1.100 at 01:23:45:67:89:ab answers a request from 192.168.1.1 at de:ad:be:ef:00:01 with the expected reply frame. |
| Responder.NonArpFrameIsAnswered | src/network.rs:226-232 | As written: a frame with EtherType 0x0800 whose octets read as a request for a configured address is answered. |
| Responder.ShortFramePanics | src/network.rs:226 | As written: a 41-octet frame panics instead of being discarded. |
| Responder.HandleFrameChecked | src/network.rs:226-232 | Corrected step. It never panics, and it never replies to a frame shorter than 42 octets or with an EtherType other than 0x0806. On full-length ARP frames it agrees with `HandleFrame`. It replies exactly when the frame is a full-length ARP request for a configured address. |

## Left out

- `src/main.rs` is not part of this model: argument handling, loading the INI file, choosing the log level, setting up the logger, and the loop that calls `new_host` for each configured pair and panics on the first failure.
- Looking up the interface by name and opening the receive channel (src/network.rs:209-221): datalink I/O. Their panics happen before any frame is processed.
- Opening a channel inside `forge_arp_response` and `send_to` (src/network.rs:166-175): datalink I/O. The model returns the frame that would be sent. The panics on channel-type, open and send failures are not modelled.
- `receiver.next().unwrap()` (src/network.rs:225): the received octets are a parameter of the step. A receive error, which panics in the source, is not modelled.
- The infinite `loop` (src/network.rs:224-249): one iteration is modelled as a step from one frame to its outcome.
- `log::debug!` calls (src/network.rs:176-180, 235-239): observability only.
- The text grammars of `IpAddr::from_str` and `MacAddr::from_str`: library parsers, passed to `NewHost` as functions returning `Option`. The panic message of `new_host` is reduced to an error that carries the offending text.
- `MutableEthernetPacket::new(..).unwrap()` and `MutableArpPacket::new(..).unwrap()` (src/network.rs:137, 146) cannot fail on buffers of 42 and 28 octets, so the model has no failure path for them.
- An IPv6 address is modelled by its 16-bit groups, without fixing their number at eight. No IPv6 address ever matches, so nothing depends on its contents.
- The written description of the system says the receive path checks the EtherType and silently discards short frames. The code does neither. `HandleFrame` and `ProcessFrame` follow the code. The intended behaviour is `HandleFrameChecked`, under Findings.

## Findings

`HandleFrame` and `ProcessFrame` model the loop body as written. `HandleFrameChecked` is the corrected step: it adds the EtherType and length checks in front of `HandleFrame`.

| source | as written | input that shows it | evidently intended | confidence | as-written member | corrected member |
|---|---|---|---|---|---|---|
| src/network.rs:226-232 | The octets from offset 14 are read as an ARP packet whatever the EtherType at offset 12 says. | An IPv4 frame (EtherType 0x0800) with octets 20-21 = 00 01 and octets 38-41 = a configured address gets an ARP reply. | Only frames with EtherType 0x0806 are treated as ARP, as the comment at line 227 and the stated receive path say. | medium, not executed | Responder.NonArpFrameIsAnswered | Responder.HandleFrameChecked |
| src/network.rs:226 | A frame shorter than 14 + 28 octets panics in the slice or in `unwrap`, which ends the responder. | Any frame of 41 octets. | Short frames are discarded silently, like any other frame that is not an answerable request. | medium, not executed | Responder.ShortFramePanics | Responder.HandleFrameChecked |
