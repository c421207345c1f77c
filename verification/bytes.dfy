/** Octets and unsigned 16-bit words in network byte order, as `struct.pack`
    and `struct.unpack` handle them with the formats `B` and `!H`. */
module Bytes {

  /** One octet: the range `struct` format `B` accepts. */
  type byte = x: int | 0 <= x < 0x100

  /** An unsigned 16-bit value: the range `struct` format `H` accepts. */
  type u16 = x: int | 0 <= x < 0x1_0000

  /** The two octets of `v`, most significant first (format `!H`). */
  function BigEndian16(v: u16): (r: seq<byte>)
    ensures |r| == 2
    ensures r[0] as int * 0x100 + r[1] == v
    ensures r[0] == 0 <==> v < 0x100
  {
    [v / 0x100, v % 0x100]
  }

  /** The 16-bit value stored big-endian at offset `i` of `b`. */
  function ReadBigEndian16(b: seq<byte>, i: nat): (v: u16)
    requires i + 2 <= |b|
    ensures BigEndian16(v) == b[i..i + 2]
  {
    b[i] as int * 0x100 + b[i + 1]
  }

  /** Reading back what `BigEndian16` wrote gives the value again. */
  lemma BigEndian16RoundTrip(v: u16, prefix: seq<byte>, suffix: seq<byte>)
    ensures ReadBigEndian16(prefix + BigEndian16(v) + suffix, |prefix|) == v
  {
    var b := prefix + BigEndian16(v) + suffix;
    assert b[|prefix|] == BigEndian16(v)[0];
    assert b[|prefix| + 1] == BigEndian16(v)[1];
  }

  /** The octets of a Python `bytes` literal, whose characters must all be
      ASCII. */
  function Ascii(s: string): (r: seq<byte>)
    requires forall i | 0 <= i < |s| :: s[i] as int < 0x80
    ensures |r| == |s|
    ensures forall i | 0 <= i < |s| :: r[i] == s[i] as int
  {
    seq(|s|, i requires 0 <= i < |s| => s[i] as int)
  }
}
