/** The address types of the responder: pnet's `MacAddr` and the standard
    library's `Ipv4Addr` and `IpAddr`. */
module Addresses {
  import opened Bytes

  /** A 48-bit hardware address, six octets in transmission order. */
  datatype MacAddr = MacAddr(o0: byte, o1: byte, o2: byte, o3: byte, o4: byte, o5: byte)

  /** An IPv4 address, four octets in network order. */
  datatype Ipv4Addr = Ipv4Addr(o0: byte, o1: byte, o2: byte, o3: byte)

  /** An IPv6 address, as its eight 16-bit groups. */
  datatype Ipv6Addr = Ipv6Addr(segments: seq<uint16>)

  /** `std::net::IpAddr`: what a configured host's address parses to. */
  datatype IpAddr = V4(v4: Ipv4Addr) | V6(v6: Ipv6Addr)

  function MacOctets(m: MacAddr): (r: seq<byte>)
    ensures |r| == 6
  {
    [m.o0, m.o1, m.o2, m.o3, m.o4, m.o5]
  }

  /** The hardware address stored in the six octets at `off`. */
  function MacAt(s: seq<byte>, off: nat): (m: MacAddr)
    requires off + 6 <= |s|
    ensures MacOctets(m) == s[off..off + 6]
  {
    MacAddr(s[off], s[off + 1], s[off + 2], s[off + 3], s[off + 4], s[off + 5])
  }

  function Ipv4Octets(a: Ipv4Addr): (r: seq<byte>)
    ensures |r| == 4
  {
    [a.o0, a.o1, a.o2, a.o3]
  }

  /** The IPv4 address stored in the four octets at `off`. */
  function Ipv4At(s: seq<byte>, off: nat): (a: Ipv4Addr)
    requires off + 4 <= |s|
    ensures Ipv4Octets(a) == s[off..off + 4]
  {
    Ipv4Addr(s[off], s[off + 1], s[off + 2], s[off + 3])
  }

  /** Serialising an address and reading it back gives the same address. */
  lemma MacRoundTrip(m: MacAddr, s: seq<byte>, off: nat)
    requires off + 6 <= |s| && s[off..off + 6] == MacOctets(m)
    ensures MacAt(s, off) == m
  {
    var r := MacOctets(m);
    assert s[off] == r[0] && s[off + 1] == r[1] && s[off + 2] == r[2];
    assert s[off + 3] == r[3] && s[off + 4] == r[4] && s[off + 5] == r[5];
  }

  lemma Ipv4RoundTrip(a: Ipv4Addr, s: seq<byte>, off: nat)
    requires off + 4 <= |s| && s[off..off + 4] == Ipv4Octets(a)
    ensures Ipv4At(s, off) == a
  {
    var r := Ipv4Octets(a);
    assert s[off] == r[0] && s[off + 1] == r[1] && s[off + 2] == r[2] && s[off + 3] == r[3];
  }

  /** `IpAddr == Ipv4Addr` in Rust: true only for a V4 address with the
      same octets; an IPv6 address never equals an IPv4 one. */
  predicate IpEqualsV4(ip: IpAddr, target: Ipv4Addr)
  {
    match ip
    case V4(a) => a == target
    case V6(_) => false
  }
}
