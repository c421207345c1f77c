/** The ICMP Echo / Echo Reply message of `Pinger.py` (RFC 792, "Echo or
    Echo Reply Message"): its fields, its wire layout, its RFC 1071
    checksum, and the conversions between the two. The source's mutable
    object becomes an immutable value; the in-place checksum refresh of
    `set_checksum` and `__bytes__` becomes a function returning the
    refreshed value. */
module IcmpEcho {
  import opened Bytes
  import Rfc1071

  /** `ICMP_Echo_Type`: Echo request (value 8) and Echo Reply (value 0). */
  datatype EchoType = Echo | Reply

  /** The enum member's `.value`, packed as the type octet. */
  function TypeValue(t: EchoType): (v: byte)
    ensures v == 8 <==> t == Echo
    ensures v == 0 <==> t == Reply
  {
    match t
    case Echo => 8
    case Reply => 0
  }

  datatype Option<T> = None | Some(value: T)

  /** `ICMP_Echo_Type(v)`: the member whose value is `v`; `None` where the
      enum lookup raises `ValueError`. */
  function TypeOfValue(v: byte): (r: Option<EchoType>)
    ensures r.Some? <==> v == 8 || v == 0
    ensures r.Some? ==> TypeValue(r.value) == v
  {
    if v == 8 then Some(Echo) else if v == 0 then Some(Reply) else None
  }

  /** One `ICMP_Echo` object. `icmpType` is the source's `icmp_type`;
      `data` is the payload carried after the 8-octet header. The source's
      `response_time` belongs to the timing of a round trip and is not part
      of this value. Out-of-range codes, checksums, identifiers and
      sequence numbers, on which `struct.pack` raises, are excluded by the
      field types. */
  datatype EchoMessage = EchoMessage(
    icmpType: EchoType,
    code: byte,
    checksum: u16,
    identifier: u16,
    sequence: u16,
    data: seq<byte>)

  /** Why `from_bytes` rejects a packet: `struct.unpack` raises on fewer
      than 8 octets, and the enum lookup raises on an unknown type octet. */
  datatype MalformedPacket = TooShort(length: nat) | UnknownType(value: byte)

  datatype Result<T> = Ok(value: T) | Malformed(error: MalformedPacket)

  /** The largest Echo payload an IPv4 datagram can carry: 65535 octets
      less a 20-octet IP header and the 8-octet ICMP header. */
  const MaxEchoData: nat := 65507

  /** The constructor's default payload, `b"abcdefghijklmnopqrstuvwabcdefghi"`. */
  const DefaultData: seq<byte> := Ascii("abcdefghijklmnopqrstuvwabcdefghi")

  /** `struct.pack("!BBHHH{n}s", ...)`: the RFC 792 Echo layout with the
      given value in the checksum field. */
  function Pack(t: EchoType, code: byte, checksum: u16, identifier: u16, sequence: u16, data: seq<byte>): (b: seq<byte>)
    ensures |b| == 8 + |data|
    ensures b[0] == TypeValue(t) && b[1] == code
    ensures ReadBigEndian16(b, 2) == checksum
    ensures ReadBigEndian16(b, 4) == identifier
    ensures ReadBigEndian16(b, 6) == sequence
    ensures b[8..] == data
  {
    [TypeValue(t), code] + BigEndian16(checksum) + BigEndian16(identifier) + BigEndian16(sequence) + data
  }

  /** `calculate_checksum`: the RFC 1071 checksum of the message packed
      with 0 in the checksum field. It is the complemented fold of the
      header words (type and code, identifier, sequence) plus the words of
      the zero-padded data, so it depends on those fields alone; for data
      an IPv4 datagram can carry it is their one's-complement negation. */
  function CalculateChecksum(m: EchoMessage): (c: u16)
    ensures c == Rfc1071.Complement16(Rfc1071.FoldCarries(HeaderWordSum(m) + Rfc1071.WordSum(Rfc1071.Pad(m.data))))
    ensures |m.data| <= MaxEchoData ==> (HeaderWordSum(m) + Rfc1071.WordSum(Rfc1071.Pad(m.data)) + c) % 0xFFFF == 0
  {
    PackedWordSum(m);
    Rfc1071.Checksum(Pack(m.icmpType, m.code, 0, m.identifier, m.sequence, m.data))
  }

  /** `check_checksum`: the stored checksum is the one the fields call for,
      that is, the message packs to exactly the octets `__bytes__` would
      emit for it. */
  predicate CheckChecksum(m: EchoMessage): (ok: bool)
    ensures ok <==> Pack(m.icmpType, m.code, m.checksum, m.identifier, m.sequence, m.data)
                    == Pack(m.icmpType, m.code, CalculateChecksum(m), m.identifier, m.sequence, m.data)
  {
    m.checksum == CalculateChecksum(m)
  }

  /** `set_checksum(override)`: store the override when one is given,
      otherwise the recomputed checksum. No other field changes. */
  function SetChecksum(m: EchoMessage, override: Option<u16>): (r: EchoMessage)
    ensures r.(checksum := m.checksum) == m
    ensures override.Some? ==> r.checksum == override.value
    ensures CheckChecksum(r) <==> override.None? || override.value == CalculateChecksum(m)
  {
    match override
    case Some(v) => m.(checksum := v)
    case None => m.(checksum := CalculateChecksum(m))
  }

  /** `set_checksum()` without an override. */
  function Refresh(m: EchoMessage): (r: EchoMessage)
    ensures CheckChecksum(r)
    ensures r.(checksum := m.checksum) == m
  {
    SetChecksum(m, None)
  }

  /** `ICMP_Echo(icmp_type, code, identifier, sequence, data)`: the fields as
      given and a checksum computed from them. */
  function Make(t: EchoType, code: byte, identifier: u16, sequence: u16, data: seq<byte>): (m: EchoMessage)
    ensures m.icmpType == t && m.code == code
    ensures m.identifier == identifier && m.sequence == sequence && m.data == data
    ensures CheckChecksum(m)
  {
    Refresh(EchoMessage(t, code, 0, identifier, sequence, data))
  }

  /** `ICMP_Echo()` with every default argument: an Echo request with
      code 0, identifier 1, sequence 1 and the 32-octet default payload,
      whose checksum works out to 0x4D5A. */
  function DefaultRequest(): (m: EchoMessage)
    ensures m.icmpType == Echo && m.code == 0 && m.identifier == 1 && m.sequence == 1
    ensures m.data == DefaultData && |m.data| == 32
    ensures m.checksum == 0x4D5A
  {
    DefaultDataSum();
    DefaultChecksum(Make(Echo, 0, 1, 1, DefaultData));
    Make(Echo, 0, 1, 1, DefaultData)
  }

  /** `bytes(m)`, i.e. `__bytes__`: refresh the checksum, then pack. The
      first component is the message as the source leaves it afterwards. */
  function Serialize(m: EchoMessage): (r: (EchoMessage, seq<byte>))
    ensures r.0 == Refresh(m)
    ensures |r.1| == 8 + |m.data|
    ensures r.1[0] == TypeValue(m.icmpType) && r.1[1] == m.code
    ensures ReadBigEndian16(r.1, 2) == CalculateChecksum(m)
    ensures ReadBigEndian16(r.1, 4) == m.identifier
    ensures ReadBigEndian16(r.1, 6) == m.sequence
    ensures r.1[8..] == m.data
  {
    var refreshed := Refresh(m);
    (refreshed, Pack(refreshed.icmpType, refreshed.code, refreshed.checksum,
                     refreshed.identifier, refreshed.sequence, refreshed.data))
  }

  /** `ICMP_Echo.from_bytes(packet)`. The checksum octets 2-3 are unpacked by
      the source but never handed to the constructor, which recomputes the
      checksum; so a decoded message always carries the computed checksum,
      never the one on the wire. */
  function FromBytes(packet: seq<byte>): (r: Result<EchoMessage>)
    ensures |packet| < 8 <==> r == Malformed(TooShort(|packet|))
    ensures r.Ok? <==> |packet| >= 8 && (packet[0] == 8 || packet[0] == 0)
    ensures r.Malformed? && |packet| >= 8 ==> r.error == UnknownType(packet[0])
    ensures r.Ok? ==>
              && TypeValue(r.value.icmpType) == packet[0]
              && r.value.code == packet[1]
              && r.value.identifier == ReadBigEndian16(packet, 4)
              && r.value.sequence == ReadBigEndian16(packet, 6)
              && r.value.data == packet[8..]
    ensures r.Ok? ==> CheckChecksum(r.value)
  {
    if |packet| < 8 then
      Malformed(TooShort(|packet|))
    else
      match TypeOfValue(packet[0])
      case None => Malformed(UnknownType(packet[0]))
      case Some(t) =>
        Ok(Make(t, packet[1], ReadBigEndian16(packet, 4), ReadBigEndian16(packet, 6), packet[8..]))
  }

  /** The sum of the header's 16-bit words with the checksum field at 0. */
  function HeaderWordSum(m: EchoMessage): nat
  {
    TypeValue(m.icmpType) * 0x100 + m.code + m.identifier + m.sequence
  }

  /** The padded word sum of the packet `calculate_checksum` builds splits
      into the header words and the padded data words. */
  lemma PackedWordSum(m: EchoMessage)
    ensures Rfc1071.WordSum(Rfc1071.Pad(Pack(m.icmpType, m.code, 0, m.identifier, m.sequence, m.data)))
            == HeaderWordSum(m) + Rfc1071.WordSum(Rfc1071.Pad(m.data))
  {
    var header := [TypeValue(m.icmpType), m.code] + BigEndian16(0) + BigEndian16(m.identifier) + BigEndian16(m.sequence);
    var p := Pack(m.icmpType, m.code, 0, m.identifier, m.sequence, m.data);
    assert p == header + m.data;
    assert Rfc1071.Pad(p) == header + Rfc1071.Pad(m.data);
    Rfc1071.WordSumAppend(header, Rfc1071.Pad(m.data));
    assert Rfc1071.WordSum(header[6..]) == m.sequence;
    assert Rfc1071.WordSum(header[4..]) == m.identifier + m.sequence;
    assert Rfc1071.WordSum(header[2..]) == m.identifier + m.sequence;
    assert Rfc1071.WordSum(header) == HeaderWordSum(m);
  }

  /** Decoding what `Serialize` produced gives back the refreshed message:
      type, code, identifier, sequence and data unchanged. */
  lemma RoundTrip(m: EchoMessage)
    ensures FromBytes(Serialize(m).1) == Ok(Refresh(m))
    ensures FromBytes(Serialize(m).1).value.identifier == m.identifier
    ensures FromBytes(Serialize(m).1).value.sequence == m.sequence
    ensures FromBytes(Serialize(m).1).value.data == m.data
  {
    var b := Serialize(m).1;
    assert b[0] == TypeValue(m.icmpType);
    match m.icmpType
    case Echo =>
    case Reply =>
  }

  /** Re-encoding a decoded packet reproduces it exactly when, and only
      when, the packet's own checksum octets were the correct checksum. */
  lemma ReencodeIffWireChecksumValid(packet: seq<byte>)
    requires FromBytes(packet).Ok?
    ensures Serialize(FromBytes(packet).value).1 == packet
            <==> ReadBigEndian16(packet, 2) == FromBytes(packet).value.checksum
  {
    var m := FromBytes(packet).value;
    var b := Serialize(m).1;
    assert m.checksum == CalculateChecksum(m);
    if ReadBigEndian16(packet, 2) == m.checksum {
      assert b[..2] == packet[..2];
      assert b[2..4] == packet[2..4];
      assert b[4..6] == packet[4..6];
      assert b[6..8] == packet[6..8];
      assert b == b[..2] + b[2..4] + b[4..6] + b[6..8] + b[8..];
      assert packet == packet[..2] + packet[2..4] + packet[4..6] + packet[6..8] + packet[8..];
    }
  }

  /** Whatever octets 2-3 hold, decoding gives the same result. */
  lemma FromBytesIgnoresWireChecksum(packet: seq<byte>, wire: u16)
    requires |packet| >= 8
    ensures FromBytes(packet[..2] + BigEndian16(wire) + packet[4..]) == FromBytes(packet)
  {
    var other := packet[..2] + BigEndian16(wire) + packet[4..];
    assert other[0] == packet[0] && other[1] == packet[1];
    assert other[4..6] == packet[4..6] && other[6..8] == packet[6..8];
    assert other[8..] == packet[8..];
  }

  /** The computed checksum does not depend on the stored one. */
  lemma ChecksumIgnoresStoredField(m: EchoMessage, stored: u16)
    ensures CalculateChecksum(m.(checksum := stored)) == CalculateChecksum(m)
  {
  }

  /** Serializing twice gives the same octets and the same message as
      serializing once. */
  lemma SerializeIdempotent(m: EchoMessage)
    ensures Serialize(Serialize(m).0) == Serialize(m)
  {
    ChecksumIgnoresStoredField(m, CalculateChecksum(m));
  }

  /** With an odd packet length the checksum is that of the same message
      with one zero octet appended to its data; `Serialize` itself never
      emits the pad. */
  lemma OddLengthPadding(m: EchoMessage)
    requires (8 + |m.data|) % 2 == 1
    ensures CalculateChecksum(m) == CalculateChecksum(m.(data := m.data + [0]))
    ensures |Serialize(m).1| == 8 + |m.data|
  {
    var p := Pack(m.icmpType, m.code, 0, m.identifier, m.sequence, m.data);
    var q := Pack(m.icmpType, m.code, 0, m.identifier, m.sequence, m.data + [0]);
    assert q == p + [0];
    assert Rfc1071.Pad(p) == q;
    assert Rfc1071.Pad(q) == q;
  }

  /** Section 1 of RFC 1071 on the serialized packet: the folded
      one's-complement sum of its words, checksum included and odd length
      zero-padded, is 0xFFFF. */
  lemma SerializedPacketVerifies(m: EchoMessage)
    requires |m.data| <= MaxEchoData
    ensures Rfc1071.OnesComplementSum(Serialize(m).1) == 0xFFFF
  {
    var p := Pack(m.icmpType, m.code, 0, m.identifier, m.sequence, m.data);
    var b := Serialize(m).1;
    assert p[2] == 0 && p[3] == 0;
    assert b == p[..2] + BigEndian16(Rfc1071.Checksum(p)) + p[4..];
    Rfc1071.InsertedChecksumVerifies(p, 2);
  }

  /** Changing one octet of the data always changes the checksum. */
  lemma ChecksumDetectsDataChange(m: EchoMessage, i: nat, v: byte)
    requires i < |m.data| <= MaxEchoData
    requires v != m.data[i]
    ensures CalculateChecksum(m.(data := m.data[i := v])) != CalculateChecksum(m)
  {
    var p := Pack(m.icmpType, m.code, 0, m.identifier, m.sequence, m.data);
    assert Pack(m.icmpType, m.code, 0, m.identifier, m.sequence, m.data[i := v]) == p[8 + i := v];
    Rfc1071.ChecksumDetectsOctetChange(p, 8 + i, v);
  }

  /** The word sum of any 32 octets spelling the default payload, taken
      one word at a time from the end. */
  lemma DefaultDataWordSum(d: seq<byte>)
    requires |d| == 32
    requires d[0] == 0x61 && d[1] == 0x62 && d[2] == 0x63 && d[3] == 0x64 && d[4] == 0x65 && d[5] == 0x66 && d[6] == 0x67 && d[7] == 0x68
    requires d[8] == 0x69 && d[9] == 0x6A && d[10] == 0x6B && d[11] == 0x6C && d[12] == 0x6D && d[13] == 0x6E && d[14] == 0x6F && d[15] == 0x70
    requires d[16] == 0x71 && d[17] == 0x72 && d[18] == 0x73 && d[19] == 0x74 && d[20] == 0x75 && d[21] == 0x76 && d[22] == 0x77 && d[23] == 0x61
    requires d[24] == 0x62 && d[25] == 0x63 && d[26] == 0x64 && d[27] == 0x65 && d[28] == 0x66 && d[29] == 0x67 && d[30] == 0x68 && d[31] == 0x69
    ensures Rfc1071.WordSum(d) == 0x6AA9D
  {
    assert d[32..] == [];
    Rfc1071.WordSumStep(d, 30);
    Rfc1071.WordSumStep(d, 28);
    Rfc1071.WordSumStep(d, 26);
    Rfc1071.WordSumStep(d, 24);
    Rfc1071.WordSumStep(d, 22);
    Rfc1071.WordSumStep(d, 20);
    Rfc1071.WordSumStep(d, 18);
    Rfc1071.WordSumStep(d, 16);
    Rfc1071.WordSumStep(d, 14);
    Rfc1071.WordSumStep(d, 12);
    Rfc1071.WordSumStep(d, 10);
    Rfc1071.WordSumStep(d, 8);
    Rfc1071.WordSumStep(d, 6);
    Rfc1071.WordSumStep(d, 4);
    Rfc1071.WordSumStep(d, 2);
    Rfc1071.WordSumStep(d, 0);
    assert d[0..] == d;
  }

  /** The octets of the default payload, one by one. */
  lemma DefaultDataOctets()
    ensures |DefaultData| == 32
    ensures DefaultData[0] == 0x61 && DefaultData[1] == 0x62 && DefaultData[2] == 0x63 && DefaultData[3] == 0x64
    ensures DefaultData[4] == 0x65 && DefaultData[5] == 0x66 && DefaultData[6] == 0x67 && DefaultData[7] == 0x68
    ensures DefaultData[8] == 0x69 && DefaultData[9] == 0x6A && DefaultData[10] == 0x6B && DefaultData[11] == 0x6C
    ensures DefaultData[12] == 0x6D && DefaultData[13] == 0x6E && DefaultData[14] == 0x6F && DefaultData[15] == 0x70
    ensures DefaultData[16] == 0x71 && DefaultData[17] == 0x72 && DefaultData[18] == 0x73 && DefaultData[19] == 0x74
    ensures DefaultData[20] == 0x75 && DefaultData[21] == 0x76 && DefaultData[22] == 0x77 && DefaultData[23] == 0x61
    ensures DefaultData[24] == 0x62 && DefaultData[25] == 0x63 && DefaultData[26] == 0x64 && DefaultData[27] == 0x65
    ensures DefaultData[28] == 0x66 && DefaultData[29] == 0x67 && DefaultData[30] == 0x68 && DefaultData[31] == 0x69
  {
  }

  /** The padded word sum of the default payload: 32 octets need no pad. */
  lemma DefaultDataSum()
    ensures Rfc1071.WordSum(Rfc1071.Pad(DefaultData)) == 0x6AA9D
  {
    DefaultDataOctets();
    DefaultDataWordSum(DefaultData);
  }

  /** The checksum the default header fields call for, with any data whose
      padded word sum is that of the default payload. */
  lemma DefaultChecksum(m: EchoMessage)
    requires m.icmpType == Echo && m.code == 0 && m.identifier == 1 && m.sequence == 1
    requires Rfc1071.WordSum(Rfc1071.Pad(m.data)) == 0x6AA9D
    ensures CalculateChecksum(m) == 0x4D5A
  {
    var s := HeaderWordSum(m) + Rfc1071.WordSum(Rfc1071.Pad(m.data));
    assert s == 0x6B29F;
    assert Rfc1071.FoldCarries(s) == 0xB2A5;
  }

  /** The default request on the wire: 40 octets, type octet 8, checksum
      octets 0x4D 0x5A. */
  lemma DefaultRequestChecksum()
    ensures |Serialize(DefaultRequest()).1| == 40
    ensures Serialize(DefaultRequest()).1[0] == 8
    ensures Serialize(DefaultRequest()).1[2..4] == [0x4D, 0x5A]
  {
    var m := DefaultRequest();
    assert CheckChecksum(m);
    assert BigEndian16(0x4D5A) == [0x4D, 0x5A];
  }

  /** `check_checksum` holds exactly when `__bytes__` leaves the message as
      it found it. */
  lemma CheckChecksumIffSerializeKeeps(m: EchoMessage)
    ensures CheckChecksum(m) <==> Serialize(m).0 == m
  {
  }
}
