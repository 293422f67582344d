/** Octets and the big-endian (network order) 16-bit fields that the
    Ethernet and ARP headers are made of. */
module Bytes {

  /** A Rust `u8`. */
  newtype byte = x: int | 0 <= x < 0x100

  /** A Rust `u16`: EtherType, ARP hardware type, protocol type, operation. */
  newtype uint16 = x: int | 0 <= x < 0x1_0000

  /** The two octets of `v`, most significant first. */
  function BigEndian16(v: uint16): (r: seq<byte>)
    ensures |r| == 2
    ensures r[0] as int * 0x100 + r[1] as int == v as int
  {
    [(v / 0x100) as byte, (v % 0x100) as byte]
  }

  /** Reads the big-endian 16-bit field that starts at `off`. */
  function ReadBigEndian16(s: seq<byte>, off: nat): (v: uint16)
    requires off + 2 <= |s|
    ensures BigEndian16(v) == s[off..off + 2]
  {
    (s[off] as int * 0x100 + s[off + 1] as int) as uint16
  }

  /** Reading back a written field gives the value that was written. */
  lemma BigEndian16RoundTrip(v: uint16, s: seq<byte>, off: nat)
    requires off + 2 <= |s| && s[off..off + 2] == BigEndian16(v)
    ensures ReadBigEndian16(s, off) == v
  {
    var r := BigEndian16(v);
    assert s[off] == r[0] && s[off + 1] == r[1];
  }
}
