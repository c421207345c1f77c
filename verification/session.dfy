/** The decoding step of `ICMP_Echo.sendto`: a raw IPv4 ICMP socket returns
    the whole IP datagram, and `sendto` cuts off the IP header before
    decoding the Echo Reply behind it. The socket calls and the timing
    around them are not part of this model. */
module Session {
  import opened Bytes
  import opened IcmpEcho

  /** The header length `sendto` assumes: an IPv4 header without options. */
  const AssumedIpHeaderLength: nat := 20

  /** Python's `b[n:]`: the octets from offset `n` on, empty when `n` is
      past the end. */
  function DropPrefix(b: seq<byte>, n: nat): (r: seq<byte>)
    ensures |b| >= n ==> b == b[..n] + r
    ensures |b| < n ==> r == []
  {
    if |b| >= n then b[n..] else []
  }

  /** `received[20:]` followed by `ICMP_Echo.from_bytes`, as `sendto` does
      it: the Echo message is read from offset 20 whatever the IP header
      says about its own length. */
  function ParseReply(received: seq<byte>): (r: Result<EchoMessage>)
    ensures |received| < 28 ==> r == Malformed(TooShort(|DropPrefix(received, 20)|))
    ensures r.Ok? <==> |received| >= 28 && (received[20] == 8 || received[20] == 0)
    ensures |received| >= 28 && r.Malformed? ==> r.error == UnknownType(received[20])
    ensures r.Ok? ==>
              && TypeValue(r.value.icmpType) == received[20]
              && r.value.code == received[21]
              && r.value.identifier == ReadBigEndian16(received, 24)
              && r.value.sequence == ReadBigEndian16(received, 26)
              && r.value.data == received[28..]
              && CheckChecksum(r.value)
  {
    var icmp := DropPrefix(received, AssumedIpHeaderLength);
    assert |received| >= 28 ==> icmp[8..] == received[28..] && icmp[4..6] == received[24..26] && icmp[6..8] == received[26..28];
    FromBytes(icmp)
  }

  /** The header length an IPv4 header announces: its IHL field (the low
      four bits of the first octet) counts 32-bit words. */
  function AnnouncedHeaderLength(received: seq<byte>): nat
    requires |received| > 0
  {
    (received[0] % 16) * 4
  }

  /** An IPv4 header (version 4) whose IHL field states its own length,
      20 octets without options up to 60 with 40 octets of options. */
  predicate WellFormedIpHeader(header: seq<byte>)
  {
    && 20 <= |header|
    && header[0] / 16 == 4
    && AnnouncedHeaderLength(header) == |header|
  }

  /** The IP header length a reply is cut at once the IHL field is read:
      the announced length, or the assumed 20 when the field is below the
      IPv4 minimum of five words. */
  function ReplyHeaderLength(received: seq<byte>): (n: nat)
    ensures 20 <= n <= 60
    ensures |received| > 0 && AnnouncedHeaderLength(received) >= 20 ==> n == AnnouncedHeaderLength(received)
  {
    if |received| > 0 && AnnouncedHeaderLength(received) >= 20
    then AnnouncedHeaderLength(received)
    else AssumedIpHeaderLength
  }

  /** The strip `sendto` evidently intends: cut the IP header at the length
      its IHL field announces, then decode the Echo message behind it. */
  function ParseReplyByHeaderLength(received: seq<byte>): (r: Result<EchoMessage>)
    ensures var n := ReplyHeaderLength(received);
            |received| < n + 8 ==> r == Malformed(TooShort(|DropPrefix(received, n)|))
    ensures var n := ReplyHeaderLength(received);
            r.Ok? <==> |received| >= n + 8 && (received[n] == 8 || received[n] == 0)
    ensures var n := ReplyHeaderLength(received);
            |received| >= n + 8 && r.Malformed? ==> r.error == UnknownType(received[n])
    ensures var n := ReplyHeaderLength(received);
            r.Ok? ==>
              && TypeValue(r.value.icmpType) == received[n]
              && r.value.code == received[n + 1]
              && r.value.identifier == ReadBigEndian16(received, n + 4)
              && r.value.sequence == ReadBigEndian16(received, n + 6)
              && r.value.data == received[n + 8..]
              && CheckChecksum(r.value)
  {
    var n := ReplyHeaderLength(received);
    var icmp := DropPrefix(received, n);
    assert |received| >= n + 8 ==> icmp[8..] == received[n + 8..] && icmp[4..6] == received[n + 4..n + 6] && icmp[6..8] == received[n + 6..n + 8];
    FromBytes(icmp)
  }

  /** Behind an option-free IPv4 header `ParseReply` recovers exactly the
      message that was serialized, checksum refreshed. */
  lemma ParseReplyAfterPlainHeader(header: seq<byte>, m: EchoMessage)
    requires |header| == AssumedIpHeaderLength
    ensures ParseReply(header + Serialize(m).1) == Ok(Refresh(m))
  {
    var packet := Serialize(m).1;
    assert DropPrefix(header + packet, AssumedIpHeaderLength) == packet;
    RoundTrip(m);
  }

  /** Behind any well-formed IPv4 header, options or not, the corrected
      strip recovers exactly the message that was serialized. */
  lemma ParseReplyByHeaderLengthRoundTrip(header: seq<byte>, m: EchoMessage)
    requires WellFormedIpHeader(header)
    ensures ParseReplyByHeaderLength(header + Serialize(m).1) == Ok(Refresh(m))
  {
    var packet := Serialize(m).1;
    assert (header + packet)[0] == header[0];
    assert ReplyHeaderLength(header + packet) == |header|;
    assert DropPrefix(header + packet, |header|) == packet;
    RoundTrip(m);
  }

  /** The two strips agree on every reply whose IP header has no options. */
  lemma StripsAgreeWithoutOptions(received: seq<byte>)
    requires |received| > 0 ==> AnnouncedHeaderLength(received) <= 20
    ensures ParseReplyByHeaderLength(received) == ParseReply(received)
  {
  }

  /** The fixed strip misreads a reply behind an IPv4 header with options:
      it decodes the first option octet as the ICMP type, and rejects the
      reply whenever that octet is neither 8 nor 0, while the corrected
      strip recovers the message. */
  lemma FixedStripMisreadsOptions(header: seq<byte>, m: EchoMessage)
    requires WellFormedIpHeader(header) && |header| > 20
    requires header[20] != 8 && header[20] != 0
    ensures ParseReply(header + Serialize(m).1) == Malformed(UnknownType(header[20]))
    ensures ParseReplyByHeaderLength(header + Serialize(m).1) == Ok(Refresh(m))
  {
    var received := header + Serialize(m).1;
    assert received[20] == header[20];
    ParseReplyByHeaderLengthRoundTrip(header, m);
  }

  /** A 24-octet IPv4 header carrying the Router Alert option (RFC 2113),
      type octet 0x94, as a concrete header with options: total length 64
      (this header and the 40-octet default request), TTL 64, protocol 1
      (ICMP), header checksum 0xE7B6, from and to 127.0.0.1. */
  const RouterAlertHeader: seq<byte> := [
    0x46, 0x00, 0x00, 0x40, 0x00, 0x00, 0x00, 0x00,
    0x40, 0x01, 0xE7, 0xB6, 0x7F, 0x00, 0x00, 0x01,
    0x7F, 0x00, 0x00, 0x01, 0x94, 0x04, 0x00, 0x00]

  /** The Router Alert header is a well-formed IPv4 header with options,
      whose first option octet is 0x94. */
  lemma RouterAlertHeaderHasOptions()
    ensures WellFormedIpHeader(RouterAlertHeader) && |RouterAlertHeader| == 24
    ensures RouterAlertHeader[20] == 0x94
  {
  }

  /** The concrete instance: the default request echoed back behind a
      Router Alert header is rejected by `ParseReply` as an unknown type
      0x94, and recovered by the corrected strip. */
  lemma RouterAlertReplyMisread()
    ensures ParseReply(RouterAlertHeader + Serialize(DefaultRequest()).1) == Malformed(UnknownType(0x94))
    ensures ParseReplyByHeaderLength(RouterAlertHeader + Serialize(DefaultRequest()).1) == Ok(DefaultRequest())
  {
    var m := DefaultRequest();
    RouterAlertHeaderHasOptions();
    FixedStripMisreadsOptions(RouterAlertHeader, m);
  }
}
