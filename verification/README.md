# ICMP Echo packet codec of python_ping, in Dafny

`Pinger.py` pings a host by sending one ICMP Echo request over a raw IPv4
socket and timing the Echo Reply. Its core is the `ICMP_Echo` class: an
ICMP Echo / Echo Reply message (RFC 792, "Echo or Echo Reply Message",
page 14) with an RFC 1071 Internet checksum. This project models that class
as an immutable value with pure functions and proves properties of it:

- `bytes.dfy`, module `Bytes`: octets, unsigned 16-bit values and their
  big-endian encoding, which is what `struct` does with `B` and `!H`.
- `rfc1071.dfy`, module `Rfc1071`: the checksum exactly as
  `calculate_checksum` computes it. The packet is zero-padded to an even
  length and its 16-bit words are summed. The carries are folded in two fixed
  passes, and the result is `~s & 0xFFFF`. The loop of the source appears
  as the method `SumWords`.
- `icmp_echo.dfy`, module `IcmpEcho`: `ICMP_Echo_Type`, the message, its
  constructor, `__bytes__`, `from_bytes`, `calculate_checksum`,
  `check_checksum` and `set_checksum`.
- `session.dfy`, module `Session`: the step of `sendto` that cuts the
  20-octet IP header off a received datagram and decodes the rest, plus
  the corrected strip described under Findings.

The source mutates the message in two places. `set_checksum` does it, and
so does `__bytes__`, which refreshes the checksum before packing. Here
`SetChecksum` and `Refresh` return the updated message instead. `Serialize`
returns a pair: the message as the source leaves it, and the packed octets.

`from_bytes` unpacks the checksum octets but never uses them. The
constructor then recomputes the checksum. So a decoded message always
carries the computed checksum, never the one received; `FromBytes` models
exactly that. So `check_checksum` on a decoded reply is always true and
cannot reveal a corrupted reply; only re-encoding can
(`IcmpEcho.ReencodeIffWireChecksumValid`).

## Model

| member | source | states |
|---|---|---|
| Bytes.BigEndian16 | Pinger.py:31 | a 16-bit field packs as two octets, high octet first, whose weighted sum is the value |
| Bytes.ReadBigEndian16 | Pinger.py:38 | unpacking a 16-bit field gives the value whose big-endian encoding is exactly those two octets |
| Bytes.BigEndian16RoundTrip | Pinger.py:29-38 | a packed 16-bit field unpacks to the same value wherever it sits in a packet |
| Rfc1071.Pad | Pinger.py:46-48 | the summed octets keep the packet as a prefix and add one zero octet exactly when the length is odd |
| Rfc1071.WordSum | Pinger.py:50-55 | the unfolded word sum of n octets is at most n/2 times 0xFFFF |
| Rfc1071.SumWords | Pinger.py:50-55 | the source's loop over pairs of octets computes the word sum |
| Rfc1071.WordSumAppend | Pinger.py:50-55 | the word sum of two even-length parts is the sum of their word sums |
| Rfc1071.WordSumUpdate | Pinger.py:50-55 | replacing one octet shifts the word sum by the difference, times 0x100 for a high octet and 1 for a low one |
| Rfc1071.FoldCarries | Pinger.py:57-59 | a sum that already fits 16 bits passes the two folds unchanged, and below 2^32 the folded value fits 17 bits |
| Rfc1071.Folded | Pinger.py:57-60 | below 2^32 the folded sum, masked to 16 bits, is 0 only for a zero sum and otherwise has the sum's residue modulo 0xFFFF |
| Rfc1071.FoldedIsOnesComplementSum | Pinger.py:57-60 | the arithmetic behind `Folded`: below 2^32 the masked two-pass fold is 0 only for a zero sum and otherwise keeps the residue modulo 0xFFFF |
| Rfc1071.Complement16 | Pinger.py:60 | `~s & 0xFFFF` equals the bitwise complement of the low 16 bits of s, computed bit by bit, and so adds up to 0xFFFF with those bits |
| Rfc1071.NotLowBitsSubtracts | Pinger.py:60 | inverting the low w bits of x, bit by bit, gives 2^w - 1 less the low w bits of x |
| Rfc1071.NotLowBitsFlipsEachBit | Pinger.py:60 | bit k of the complement is 1 less bit k of x for k below the mask width, and 0 above it, as `&` with a mask of w ones leaves it |
| Rfc1071.Checksum | Pinger.py:44-60 | within 65536 octets the checksum plus the word sum is a multiple of 0xFFFF, and the checksum is 0xFFFF exactly when the word sum is 0 |
| Rfc1071.ComplementedSumFoldsToAllOnes | Pinger.py:57-60 | adding the complemented fold to the sum makes the folded sum 0xFFFF |
| Rfc1071.FoldedSeparatesResidues | Pinger.py:57-59 | sums with different residues modulo 0xFFFF fold to different values |
| Rfc1071.WordSumOfFilledField | Pinger.py:44-55 | writing a value into a zeroed, word-aligned field raises the word sum by exactly that value |
| Rfc1071.InsertedChecksumVerifies | Pinger.py:42-60 | a packet carrying its checksum in a zeroed aligned field has one's-complement sum 0xFFFF |
| Rfc1071.ChecksumDetectsOctetChange | Pinger.py:42-60 | changing any one octet of a packet of at most 65536 octets changes its checksum |
| IcmpEcho.TypeValue | Pinger.py:7-9 | `.value` of the enum: Echo is type 8 and Reply type 0, each value belonging to one member only |
| IcmpEcho.TypeOfValue | Pinger.py:7-9 | the enum lookup succeeds exactly for 8 and 0, and the member found has that value |
| IcmpEcho.Pack | Pinger.py:31 | the layout is 8 + n octets: type, code, big-endian checksum, identifier and sequence, then the data unchanged |
| IcmpEcho.CalculateChecksum | Pinger.py:42-60 | the checksum is the complemented fold of the type-and-code, identifier and sequence words plus the zero-padded data words, and for data of at most 65507 octets it makes their sum a multiple of 0xFFFF |
| IcmpEcho.CheckChecksum | Pinger.py:62-63 | the check holds exactly when the message packs to the same octets as it would with the computed checksum |
| IcmpEcho.CheckChecksumIffSerializeKeeps | Pinger.py:62-69 | the check holds exactly when the `set_checksum()` that `__bytes__` performs leaves the message unchanged |
| IcmpEcho.SetChecksum | Pinger.py:65-69 | only the checksum changes; it becomes the override if one is given; the result validates exactly when there is no override or the override is the computed checksum |
| IcmpEcho.Refresh | Pinger.py:65-69 | after `set_checksum()` the message validates and no other field has changed |
| IcmpEcho.Make | Pinger.py:19-27 | a constructed message holds the given fields and validates |
| IcmpEcho.DefaultRequest | Pinger.py:19-27 | `ICMP_Echo()` is an Echo request with code 0, identifier 1, sequence 1, the 32-octet default payload and checksum 0x4D5A |
| IcmpEcho.Serialize | Pinger.py:29-31 | the message is left refreshed; the octets are 8 + n long with type, code, the computed checksum, identifier and sequence in place and the data unchanged, with no pad |
| IcmpEcho.FromBytes | Pinger.py:36-40 | fewer than 8 octets fail as too short; otherwise an unknown type octet fails; otherwise the message holds the packet's fields and the recomputed checksum, so it validates |
| IcmpEcho.RoundTrip | Pinger.py:29-40 | decoding serialized octets gives back the refreshed message, with the same type, code, identifier, sequence and data |
| IcmpEcho.ReencodeIffWireChecksumValid | Pinger.py:29-40 | re-serializing a decoded packet reproduces it exactly when its checksum octets held the correct checksum |
| IcmpEcho.FromBytesIgnoresWireChecksum | Pinger.py:37-40 | whatever octets 2-3 hold, decoding gives the same result |
| IcmpEcho.ChecksumIgnoresStoredField | Pinger.py:42-44 | the computed checksum does not depend on the stored checksum field |
| IcmpEcho.PackedWordSum | Pinger.py:44-55 | the word sum of the packet with a zeroed checksum field is the header words plus the padded data words |
| IcmpEcho.SerializeIdempotent | Pinger.py:29-31 | serializing the message left by a serialization gives the same message and octets again |
| IcmpEcho.OddLengthPadding | Pinger.py:46-48 | for an odd packet length the checksum equals that of the message with one zero octet appended to the data, and serialization still emits 8 + n octets |
| IcmpEcho.SerializedPacketVerifies | Pinger.py:29-60 | the folded one's-complement sum of a serialized packet, checksum included, is 0xFFFF |
| IcmpEcho.ChecksumDetectsDataChange | Pinger.py:42-60 | changing one data octet always changes the computed checksum |
| IcmpEcho.DefaultChecksum | Pinger.py:42-60 | with type Echo, code 0, identifier 1 and sequence 1, data of word sum 0x6AA9D gives checksum 0x4D5A |
| IcmpEcho.DefaultRequestChecksum | Pinger.py:19-31 | the all-defaults request serializes to 40 octets, type octet 8, checksum octets 0x4D 0x5A |
| Session.DropPrefix | Pinger.py:94 | slicing from offset n leaves the octets after the first n, or nothing when the input is shorter |
| Session.ParseReply | Pinger.py:94-96 | the reply decodes exactly when at least 28 octets arrived and octet 20 is 8 or 0, and then holds the fields found from offset 20 on; a shorter reply fails as too short with the length left after the cut, a longer one with a wrong octet 20 as that unknown type |
| Session.ParseReplyAfterPlainHeader | Pinger.py:94-96 | behind any 20-octet header the serialized message is recovered, checksum refreshed |
| Session.ReplyHeaderLength | Pinger.py:94 | the corrected cut lies between 20 and 60 octets and is the length the IHL field announces when that is valid |
| Session.ParseReplyByHeaderLength | Pinger.py:94-96 | with n the announced header length, the reply decodes exactly when at least n + 8 octets arrived and octet n is 8 or 0, and then holds type, code, identifier, sequence and data read from offsets n, n + 1, n + 4, n + 6 and n + 8; otherwise it fails as too short or as that unknown type |
| Session.ParseReplyByHeaderLengthRoundTrip | Pinger.py:94-96 | behind any well-formed IPv4 header, with or without options, the corrected strip recovers the serialized message |
| Session.StripsAgreeWithoutOptions | Pinger.py:94-96 | both strips give the same result when the header announces no options |
| Session.FixedStripMisreadsOptions | Pinger.py:94-96 | behind a header with options the fixed strip reads the first option octet as the ICMP type and rejects the reply, while the corrected strip recovers it |
| Session.RouterAlertReplyMisread | Pinger.py:94-96 | the default request behind a 24-octet Router Alert header fails as unknown type 0x94 with the fixed strip and is recovered with the corrected one |

## Left out

- Socket I/O in `sendto` (Pinger.py:71-93) is left out: socket creation, `settimeout(4)`, `connect`, `send`, `recv`, and the handling of `gaierror`, `OSError` and timeouts. These are operating-system networking calls.
- Timing is left out: `time.perf_counter`, the float `response_time` and the `-1` returned by `ping` (Pinger.py:85-108). These are wall-clock and floating-point values. `EchoMessage` therefore has no `response_time` field.
- `__repr__` (Pinger.py:33-34) and the warning `print` (Pinger.py:73-74) are left out because they only format text.
- `test.py` is left out: it only reads the command line and prints.
- Exceptions are not modelled as such. `from_bytes` raises on a malformed reply, and neither `sendto` nor `ping` catches it. The model returns `Malformed` with the reason instead.
- Out-of-range field values are left out. `struct.pack` raises on a code outside a byte and on an identifier or sequence outside 16 bits; the field types `byte` and `u16` exclude such values instead of modelling the exception. A stored checksum never reaches `struct.pack` unrefreshed, since `__bytes__` recomputes it first.
- IcmpEcho.SetChecksum: takes its override as `Option<u16>`, so it excludes overrides outside 16 bits. `set_checksum(override)` stores any value without raising, and `check_checksum` is then false.
- Rfc1071.Checksum: its residue and all-ones facts are stated for packets of at most 65536 octets, where the two fixed folding passes are exact.
- IcmpEcho.CalculateChecksum: its residue fact is stated for data of at most 65507 octets, for the same reason.
- Rfc1071.InsertedChecksumVerifies: holds for packets of at most 65536 octets. Only below 2^32 do the source's two fixed folding passes give the one's-complement sum, and this bound keeps the sum there.
- Rfc1071.ChecksumDetectsOctetChange: same 65536-octet bound, for the same reason.
- IcmpEcho.SerializedPacketVerifies: holds for data of at most 65507 octets, the largest Echo payload an IPv4 datagram can carry. It keeps the word sum below 2^32, where the source's fold is correct.
- IcmpEcho.ChecksumDetectsDataChange: same 65507-octet bound, for the same reason.

## Findings

| source | as written | input that shows it | evidently intended | confidence | as-written member | corrected member |
|---|---|---|---|---|---|---|
| Pinger.py:94 | `received[20:]` always drops exactly 20 octets as the IP header | a reply whose IPv4 header carries options, e.g. a 24-octet header (IHL 6) with the Router Alert option: octet 20 is the option type 0x94, so `from_bytes` raises on an unknown type | drop the IP header, whose length is the IHL field times 4 | medium (IP options on replies are rare); not executed | Session.FixedStripMisreadsOptions | Session.ParseReplyByHeaderLengthRoundTrip |
