/** The Internet checksum of section 1 of RFC 1071, computed the way
    `ICMP_Echo.calculate_checksum` does it: zero-pad to an even length, add
    the big-endian 16-bit words, fold the carries in two fixed passes, and
    take the one's complement of the low 16 bits. */
module Rfc1071 {
  import opened Bytes

  /** Octet counts up to this bound keep every word sum below 2^31, so the
      two folding passes of the source are enough (32768 words of at most
      0xFFFF each). An IPv4 datagram is never longer. */
  const MaxSummedLength: nat := 0x1_0000

  /** The octets to be summed: `p` itself when its length is even, otherwise
      `p` followed by one zero octet. The pad exists only for the sum. */
  function Pad(p: seq<byte>): (r: seq<byte>)
    ensures |r| % 2 == 0
    ensures |r| - |p| == |p| % 2
    ensures r[..|p|] == p
    ensures forall k | |p| <= k < |r| :: r[k] == 0
  {
    if |p| % 2 == 1 then p + [0] else p
  }

  /** The plain integer sum of the big-endian 16-bit words of `p`, with no
      carry folding: the running total `s` of the source's loop. */
  function WordSum(p: seq<byte>): (s: nat)
    requires |p| % 2 == 0
    ensures 2 * s <= |p| * 0xFFFF
    decreases |p|
  {
    if p == [] then 0 else p[0] * 0x100 + p[1] + WordSum(p[2..])
  }

  /** The source's two folding passes: high half onto low half, then the
      carry of that result added once more. Not yet masked to 16 bits. */
  function FoldCarries(s: nat): (r: nat)
    ensures s < 0x1_0000 ==> r == s
    ensures s < 0x1_0000_0000 ==> r <= 0x1_FFFF
  {
    var s1 := s / 0x1_0000 + s % 0x1_0000;
    s1 + s1 / 0x1_0000
  }

  /** The low 16 bits of the folded sum. Below 2^32 this is the 16-bit
      one's-complement sum: zero only for a zero sum, otherwise the
      representative of the sum modulo 0xFFFF that lies in 1..0xFFFF. */
  function Folded(s: nat): (r: u16)
    ensures s < 0x1_0000_0000 ==> (r == 0 <==> s == 0)
    ensures s < 0x1_0000_0000 ==> r % 0xFFFF == s % 0xFFFF
  {
    if s < 0x1_0000_0000 then
      FoldedIsOnesComplementSum(s);
      FoldCarries(s) % 0x1_0000
    else
      FoldCarries(s) % 0x1_0000
  }

  /** 2 to the power `w`. */
  function Pow2(w: nat): (p: nat)
    ensures p >= 1
  {
    if w == 0 then 1 else 2 * Pow2(w - 1)
  }

  /** Sixteen bits span 0x1_0000 values. */
  lemma Pow2Sixteen()
    ensures Pow2(16) == 0x1_0000
  {
    assert Pow2(4) == 0x10;
    assert Pow2(8) == 0x100;
    assert Pow2(12) == 0x1000;
  }

  /** Bit `k` of `x`, counting from the least significant. */
  function Bit(x: nat, k: nat): (b: nat)
    ensures b < 2
  {
    if k == 0 then x % 2 else Bit(x / 2, k - 1)
  }

  /** Python's `~x & (2^w - 1)` for a non-negative `x`, one bit at a time:
      each of the low `w` bits of `x` inverted, every higher bit cleared.
      The reference for `Complement16`. */
  function NotLowBits(x: nat, w: nat): nat
  {
    if w == 0 then 0 else (1 - x % 2) + 2 * NotLowBits(x / 2, w - 1)
  }

  /** Python's `~s & 0xFFFF` for a non-negative `s`: the low 16 bits of `s`
      inverted, which is also 0xFFFF less those bits. */
  function Complement16(s: nat): (r: u16)
    ensures r == NotLowBits(s, 16)
    ensures r + s % 0x1_0000 == 0xFFFF
  {
    NotLowBitsSubtracts(s, 16);
    Pow2Sixteen();
    0xFFFF - s % 0x1_0000
  }

  /** The RFC 1071 checksum of `p` as the source computes it. Within the
      size bound it is the one's-complement negation of the word sum: the
      two add up to a multiple of 0xFFFF, and the checksum is 0xFFFF only
      for an all-zero sum. */
  function Checksum(p: seq<byte>): (r: u16)
    ensures |p| <= MaxSummedLength ==> (WordSum(Pad(p)) + r) % 0xFFFF == 0
    ensures |p| <= MaxSummedLength ==> (r == 0xFFFF <==> WordSum(Pad(p)) == 0)
  {
    var s := WordSum(Pad(p));
    if |p| <= MaxSummedLength then
      PaddedSumBound(p);
      SameResidueDifference(s, Folded(s));
      ModShift(1, s - Folded(s));
      Complement16(FoldCarries(s))
    else
      Complement16(FoldCarries(s))
  }

  /** What a receiver computes over a packet that carries its checksum: the
      folded word sum of the padded octets, which is all ones when the
      packet is intact. */
  function OnesComplementSum(p: seq<byte>): u16
  {
    Folded(WordSum(Pad(p)))
  }

  /** The loop of `calculate_checksum`: walk the padded payload two octets
      at a time, adding `(a << 8) + b` to a running sum. */
  method SumWords(payload: seq<byte>) returns (s: nat)
    requires |payload| % 2 == 0
    ensures s == WordSum(payload)
  {
    s := 0;
    var i := 0;
    while i < |payload|
      invariant 0 <= i <= |payload| && i % 2 == 0
      invariant s == WordSum(payload[..i])
    {
      var a := payload[i];
      var b := payload[i + 1];
      WordSumAppend(payload[..i], [a, b]);
      assert payload[..i] + [a, b] == payload[..i + 2];
      s := s + a as int * 0x100 + b;
      i := i + 2;
    }
    assert payload[..i] == payload;
  }

  /** The word sum of a concatenation of even-length parts is the sum of
      the parts' word sums. */
  lemma {:induction false} WordSumAppend(a: seq<byte>, b: seq<byte>)
    requires |a| % 2 == 0 && |b| % 2 == 0
    ensures WordSum(a + b) == WordSum(a) + WordSum(b)
    decreases |a|
  {
    if a == [] {
      assert a + b == b;
    } else {
      assert (a + b)[2..] == a[2..] + b;
      WordSumAppend(a[2..], b);
    }
  }

  /** The word sum of a word-aligned suffix is its first word plus the
      word sum of the rest. */
  lemma WordSumStep(p: seq<byte>, k: nat)
    requires |p| % 2 == 0 && k % 2 == 0 && k + 2 <= |p|
    ensures WordSum(p[k..]) == p[k] as int * 0x100 + p[k + 1] + WordSum(p[k + 2..])
  {
    assert p[k..][2..] == p[k + 2..];
  }

  /** Replacing one octet moves the word sum by the difference, weighted by
      0x100 for the high octet of a word and by 1 for the low one. */
  lemma {:induction false} WordSumUpdate(p: seq<byte>, j: nat, v: byte)
    requires |p| % 2 == 0 && j < |p|
    ensures WordSum(p[j := v]) == WordSum(p) + (v - p[j]) * (if j % 2 == 0 then 0x100 else 1)
    decreases |p|
  {
    if j >= 2 {
      assert p[j := v][2..] == p[2..][j - 2 := v];
      WordSumUpdate(p[2..], j - 2, v);
    }
  }

  /** Shifting a multiple of 0xFFFF leaves the residue modulo 0xFFFF alone. */
  lemma ModShift(k: int, x: int)
    ensures (k * 0xFFFF + x) % 0xFFFF == x % 0xFFFF
  {
  }

  /** Below 2^32 the two folding passes, masked to 16 bits, compute the
      one's-complement sum: zero only for a zero sum, otherwise the
      representative of the sum modulo 0xFFFF that lies in 1..0xFFFF. */
  lemma FoldedIsOnesComplementSum(s: nat)
    requires s < 0x1_0000_0000
    ensures FoldCarries(s) % 0x1_0000 == 0 <==> s == 0
    ensures (FoldCarries(s) % 0x1_0000) % 0xFFFF == s % 0xFFFF
  {
    var hi := s / 0x1_0000;
    var lo := s % 0x1_0000;
    var s1 := hi + lo;
    assert s == hi * 0xFFFF + s1;
    ModShift(hi, s1);
    if s1 >= 0x1_0000 {
      assert FoldCarries(s) % 0x1_0000 == s1 - 0xFFFF;
      ModShift(-1, s1);
    } else {
      assert FoldCarries(s) % 0x1_0000 == s1;
    }
  }

  /** The inductive step of bit arithmetic: the low `w` bits of `x` are
      its lowest bit plus twice the low `w - 1` bits of `x / 2`. */
  lemma LowBitsStep(x: nat, w: nat)
    requires w > 0
    ensures x % Pow2(w) == x % 2 + 2 * ((x / 2) % Pow2(w - 1))
  {
    var p := Pow2(w - 1);
    var q := x / 2;
    var c := x % 2 + 2 * (q % p);
    assert x == Pow2(w) * (q / p) + c;
    ModUnique(x, Pow2(w), q / p, c);
  }

  /** A remainder is fixed by any decomposition with an in-range rest. */
  lemma ModUnique(x: nat, d: nat, a: nat, c: nat)
    requires 0 <= c < d && x == d * a + c
    ensures x % d == c
  {
    var k := a - x / d;
    assert d * k == x % d - c;
    if k >= 1 {
      assert d * k == d + d * (k - 1);
    }
  }

  /** Inverting the low `w` bits of `x` is subtracting them from `2^w - 1`. */
  lemma {:induction false} NotLowBitsSubtracts(x: nat, w: nat)
    ensures NotLowBits(x, w) == Pow2(w) - 1 - x % Pow2(w)
    decreases w
  {
    if w > 0 {
      NotLowBitsSubtracts(x / 2, w - 1);
      LowBitsStep(x, w);
    }
  }

  /** Bit by bit, `NotLowBits` is the bitwise complement under a mask of
      `w` ones: bit `k` of the result is 1 less bit `k` of `x` below `w`,
      and 0 from `w` on. */
  lemma {:induction false} NotLowBitsFlipsEachBit(x: nat, w: nat, k: nat)
    ensures Bit(NotLowBits(x, w), k) == if k < w then 1 - Bit(x, k) else 0
    decreases w
  {
    if w == 0 {
      ZeroHasNoBits(k);
    } else {
      var rest := NotLowBits(x / 2, w - 1);
      assert NotLowBits(x, w) % 2 == 1 - x % 2;
      assert NotLowBits(x, w) / 2 == rest;
      if k > 0 {
        NotLowBitsFlipsEachBit(x / 2, w - 1, k - 1);
      }
    }
  }

  /** Every bit of zero is 0. */
  lemma {:induction false} ZeroHasNoBits(k: nat)
    ensures Bit(0, k) == 0
  {
    if k > 0 {
      ZeroHasNoBits(k - 1);
    }
  }

  /** Adding the complement of a folded sum to that sum gives a sum whose
      fold is all ones: the arithmetic behind RFC 1071 verification. */
  lemma ComplementedSumFoldsToAllOnes(s: nat)
    requires s + 0xFFFF < 0x1_0000_0000
    ensures Folded(s + Complement16(FoldCarries(s))) == 0xFFFF
  {
    var t := s + Complement16(FoldCarries(s));
    ComplementedResidueIsAllOnes(s, Folded(s), t, Folded(t));
  }

  /** The residue argument behind `ComplementedSumFoldsToAllOnes`, on plain
      numbers: `f` and `g` are one's-complement sums of `s` and of
      `t = s + 0xFFFF - f`. */
  lemma ComplementedResidueIsAllOnes(s: nat, f: u16, t: nat, g: u16)
    requires f == 0 <==> s == 0
    requires f % 0xFFFF == s % 0xFFFF
    requires t == s + 0xFFFF - f
    requires g == 0 <==> t == 0
    requires g % 0xFFFF == t % 0xFFFF
    ensures g == 0xFFFF
  {
    SameResidueDifference(s, f);
    ModShift(1, s - f);
    OnlyNonZeroMultiple(g);
  }

  /** Numbers with the same residue modulo 0xFFFF differ by a multiple of it. */
  lemma SameResidueDifference(a: int, b: int)
    requires a % 0xFFFF == b % 0xFFFF
    ensures (a - b) % 0xFFFF == 0
  {
    ModShift(a / 0xFFFF - b / 0xFFFF, a % 0xFFFF - b % 0xFFFF);
  }

  /** The only non-zero 16-bit multiple of 0xFFFF is 0xFFFF itself. */
  lemma OnlyNonZeroMultiple(x: u16)
    requires x % 0xFFFF == 0 && x != 0
    ensures x == 0xFFFF
  {
  }

  /** Two sums below 2^32 that differ modulo 0xFFFF fold differently. */
  lemma FoldedSeparatesResidues(s: nat, t: nat)
    requires s < 0x1_0000_0000 && t < 0x1_0000_0000
    requires s % 0xFFFF != t % 0xFFFF
    ensures Folded(s) != Folded(t)
  {
  }

  /** Word sums of padded octet sequences within the size bound stay below
      2^32 even after one more 16-bit word is added. */
  lemma PaddedSumBound(p: seq<byte>)
    requires |p| <= MaxSummedLength
    ensures WordSum(Pad(p)) + 0xFFFF < 0x1_0000_0000
  {
    assert |Pad(p)| <= MaxSummedLength;
  }

  /** Padding commutes with replacing an octet of the unpadded sequence. */
  lemma PadUpdate(p: seq<byte>, j: nat, v: byte)
    requires j < |p|
    ensures Pad(p[j := v]) == Pad(p)[j := v]
  {
  }

  /** Writing a 16-bit value over a zeroed, word-aligned field adds that
      value to the word sum. */
  lemma WordSumOfFilledField(p: seq<byte>, k: nat, c: u16)
    requires k % 2 == 0 && k + 2 <= |p|
    requires p[k] == 0 && p[k + 1] == 0
    ensures WordSum(Pad(p[..k] + BigEndian16(c) + p[k + 2..])) == WordSum(Pad(p)) + c
  {
    var hiOctet := BigEndian16(c)[0];
    var loOctet := BigEndian16(c)[1];
    assert p[..k] + BigEndian16(c) + p[k + 2..] == p[k := hiOctet][k + 1 := loOctet];
    PadUpdate(p, k, hiOctet);
    PadUpdate(p[k := hiOctet], k + 1, loOctet);
    WordSumUpdate(Pad(p), k, hiOctet);
    WordSumUpdate(Pad(p)[k := hiOctet], k + 1, loOctet);
  }

  /** Storing the checksum of `p` into a zeroed, word-aligned 16-bit field of
      `p` yields octets whose one's-complement sum is 0xFFFF: section 1 of
      RFC 1071, the check a receiver performs. */
  lemma InsertedChecksumVerifies(p: seq<byte>, k: nat)
    requires k % 2 == 0 && k + 2 <= |p| <= MaxSummedLength
    requires p[k] == 0 && p[k + 1] == 0
    ensures OnesComplementSum(p[..k] + BigEndian16(Checksum(p)) + p[k + 2..]) == 0xFFFF
  {
    WordSumOfFilledField(p, k, Checksum(p));
    PaddedSumBound(p);
    ComplementedSumFoldsToAllOnes(WordSum(Pad(p)));
  }

  /** A replaced octet moves a word sum by a non-zero amount of magnitude
      below 0xFFFF, whether it is the high or the low octet of its word. */
  lemma OctetShiftIsSmall(before: byte, after: byte, weight: int)
    requires before != after && (weight == 0x100 || weight == 1)
    ensures (after - before) * weight != 0
    ensures -0xFFFF < (after - before) * weight < 0xFFFF
  {
  }

  /** A non-zero shift of magnitude below 0xFFFF changes the residue. */
  lemma SmallShiftChangesResidue(s: int, t: int)
    requires s != t && -0xFFFF < t - s < 0xFFFF
    ensures s % 0xFFFF != t % 0xFFFF
  {
    if s % 0xFFFF == t % 0xFFFF {
      SameResidueDifference(t, s);
      assert false;
    }
  }

  /** Changing any single octet within the size bound changes the checksum:
      the change moves the word sum by a non-zero amount smaller than 0xFFFF
      in magnitude, which one's-complement addition cannot absorb. */
  lemma ChecksumDetectsOctetChange(p: seq<byte>, j: nat, v: byte)
    requires j < |p| <= MaxSummedLength
    requires v != p[j]
    ensures Checksum(p[j := v]) != Checksum(p)
  {
    var s := WordSum(Pad(p));
    var t := WordSum(Pad(p[j := v]));
    PadUpdate(p, j, v);
    WordSumUpdate(Pad(p), j, v);
    OctetShiftIsSmall(p[j], v, if j % 2 == 0 then 0x100 else 1);
    SmallShiftChangesResidue(s, t);
    PaddedSumBound(p);
    PaddedSumBound(p[j := v]);
    FoldedSeparatesResidues(s, t);
  }
}
