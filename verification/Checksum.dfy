/** Internet checksums of the screening router: one's-complement sums over
    16-bit words read in little-endian order, and the header rewriting that
    stores them. A receiver that sums again gets zero. */
module Checksum {
  import opened Common
  import opened Arith

  type Bytes = seq<Byte>

  const WORD16: nat := 0x1_0000
  const WORD32: nat := 0x1_0000_0000
  const ALL_ONES: nat := 0xFFFF
  const BUFFER_SIZE: nat := 2048
  const TCP: Byte := 6
  const UDP: Byte := 17

  // ------------------------------------------------------------ RFC 1071

  /** Two bytes as a word of a little-endian machine. */
  function Word(first: nat, second: nat): nat { first + 256 * second }

  /** The sum of the words as a little-endian machine reads them, an odd last
      byte counting as a word padded with zero. */
  function WordSum(data: Bytes): nat {
    if |data| == 0 then 0
    else if |data| == 1 then data[0]
    else Word(data[0], data[1]) + WordSum(data[2..])
  }

  /** The same in network order. */
  function NetworkSum(data: Bytes): nat {
    if |data| == 0 then 0
    else if |data| == 1 then 256 * data[0]
    else Word(data[1], data[0]) + NetworkSum(data[2..])
  }

  /** Both sums byte by byte, from the empty string on: on a little-endian machine
      every second byte counts 256-fold, in network order every other one. */
  lemma {:induction false} SumsByteByByte(data: Bytes, x: Byte)
    ensures WordSum([]) == 0 && NetworkSum([]) == 0
    ensures WordSum(data + [x]) == WordSum(data) + if |data| % 2 == 0 then x else 256 * x
    ensures NetworkSum(data + [x]) == NetworkSum(data) + if |data| % 2 == 0 then 256 * x else x
    decreases |data|
  {
    if |data| >= 2 {
      SumsByteByByte(data[2..], x);
      assert (data + [x])[2..] == data[2..] + [x];
    }
  }

  /** One's-complement reduction: carries are added back in. */
  function Fold(sum: nat): (folded: nat)
    ensures folded <= ALL_ONES
    decreases sum
  {
    if sum < WORD16 then sum else Fold(sum % WORD16 + sum / WORD16)
  }

  function ChecksumOf(data: Bytes): (c: nat)
    ensures c <= ALL_ONES
  {
    ALL_ONES - Fold(WordSum(data))
  }

  /** Folding keeps the residue modulo 0xFFFF, and is zero only for zero. */
  lemma {:induction false} FoldClosed(sum: nat)
    ensures Fold(sum) == if sum == 0 then 0 else (sum - 1) % ALL_ONES + 1
    decreases sum
  {
    if sum < WORD16 {
      if sum > 0 {
        DivModUnique(sum - 1, ALL_ONES, 0, sum - 1);
      }
    } else {
      FoldClosed(sum % WORD16 + sum / WORD16);
      EndAroundCarry(sum, sum / WORD16, sum % WORD16);
    }
  }

  lemma EndAroundCarry(sum: nat, high: nat, low: nat)
    requires sum == WORD16 * high + low && high > 0
    ensures (sum - 1) % ALL_ONES == (low + high - 1) % ALL_ONES
  {
    ModShift(low + high - 1, high, ALL_ONES);
    assert sum - 1 == (low + high - 1) + high * ALL_ONES;
  }

  lemma SumBound(data: Bytes)
    ensures 2 * WordSum(data) <= 65535 * (|data| + 1)
  {
  }

  function Mod32(n: nat): (m: nat)
    ensures m < WORD32
  {
    n % WORD32
  }

  /** `calculate_checksum`: the 32-bit sum may wrap only for data far longer
      than any packet, and the fold loop ends. */
  method CalculateChecksum(data: Bytes) returns (c: nat)
    ensures c == ALL_ONES - Fold(Mod32(WordSum(data)))
    ensures |data| <= 131072 ==> c == ChecksumOf(data)
  {
    hide Fold, WordSum, Mod32, Word;
    var sum: nat, i: nat := 0, 0;
    assert data[0..] == data;
    while |data| - i > 1
      invariant 0 <= i <= |data| && sum < WORD32
      invariant Mod32(sum + WordSum(data[i..])) == Mod32(WordSum(data))
    {
      WordAdded(data, i, sum);
      sum := Mod32(sum + Word(data[i], data[i + 1]));
      i := i + 2;
    }
    RestAdded(data, i, sum);
    if |data| - i == 1 {
      sum := Mod32(sum + data[i]);
    }
    sum := FoldLoop(sum);
    NoWrap(data);
    c := ALL_ONES - sum % WORD16;
  }

  lemma WordAdded(data: Bytes, i: nat, sum: nat)
    requires i + 1 < |data|
    ensures Mod32(sum + WordSum(data[i..])) ==
            Mod32(Mod32(sum + Word(data[i], data[i + 1])) + WordSum(data[i + 2..]))
  {
    hide Word;
    assert data[i..][2..] == data[i + 2..];
    Wrap(sum + Word(data[i], data[i + 1]), WordSum(data[i + 2..]));
  }

  lemma RestAdded(data: Bytes, i: nat, sum: nat)
    requires |data| - 1 <= i <= |data| && sum < WORD32
    ensures i < |data| ==> Mod32(sum + WordSum(data[i..])) == Mod32(sum + data[i])
    ensures i == |data| ==> Mod32(sum + WordSum(data[i..])) == sum
  {
  }

  lemma NoWrap(data: Bytes)
    ensures |data| <= 131072 ==> Mod32(WordSum(data)) == WordSum(data)
  {
    SumBound(data);
  }

  lemma Wrap(a: nat, b: nat)
    ensures (a % WORD32 + b) % WORD32 == (a + b) % WORD32
  {
    ModShift(a % WORD32 + b, a / WORD32, WORD32);
    assert a % WORD32 + b + (a / WORD32) * WORD32 == a + b;
  }

  method FoldLoop(start: nat) returns (sum: nat)
    ensures sum == Fold(start) < WORD16
  {
    sum := start;
    while sum / WORD16 != 0
      invariant Fold(sum) == Fold(start)
      decreases sum
    {
      sum := sum % WORD16 + sum / WORD16;
    }
  }

  // ------------------------------------------------------------ storing and verifying

  /** A 16-bit value stored by a little-endian machine. */
  function Stored(data: Bytes, at: nat, c: nat): (data': Bytes)
    requires at + 1 < |data| && c <= ALL_ONES
    ensures |data'| == |data|
  {
    data[at := c % 256][at + 1 := c / 256]
  }

  lemma {:induction false} StoredSum(data: Bytes, at: nat, c: nat)
    requires at % 2 == 0 && at + 1 < |data| && c <= ALL_ONES
    ensures WordSum(Stored(data, at, c)) == WordSum(Stored(data, at, 0)) + c
    decreases |data|
  {
    if at > 0 {
      StoredSum(data[2..], at - 2, c);
      assert Stored(data, at, c)[2..] == Stored(data[2..], at - 2, c);
      assert Stored(data, at, 0)[2..] == Stored(data[2..], at - 2, 0);
    } else {
      assert Stored(data, 0, c)[2..] == Stored(data, 0, 0)[2..];
    }
  }

  /** Summing again over data that carries its checksum gives zero; also when a
      computed zero is sent as 0xFFFF. */
  lemma VerifiesToZero(data: Bytes, at: nat, c: nat)
    requires at % 2 == 0 && at + 1 < |data|
    requires c == ChecksumOf(Stored(data, at, 0)) || (c == ALL_ONES && ChecksumOf(Stored(data, at, 0)) == 0)
    ensures c <= ALL_ONES && ChecksumOf(Stored(data, at, c)) == 0
  {
    var sum := WordSum(Stored(data, at, 0));
    FoldClosed(sum);
    StoredSum(data, at, c);
    FoldClosed(sum + c);
    hide Fold, Stored;
    if c == ALL_ONES - Fold(sum) && sum > 0 {
      DivModUnique(sum - 1, ALL_ONES, (sum - 1) / ALL_ONES, Fold(sum) - 1);
      DivModUnique(sum + c - 1, ALL_ONES, (sum - 1) / ALL_ONES, ALL_ONES - 1);
    } else if sum > 0 {
      ModShift(sum - 1, 1, ALL_ONES);
    }
  }

  function Swap(w: nat): nat { w % 256 * 256 + w / 256 }

  lemma {:induction false} SumsAgree(data: Bytes)
    ensures NetworkSum(data) % ALL_ONES == (256 * WordSum(data)) % ALL_ONES
    ensures NetworkSum(data) == 0 <==> WordSum(data) == 0
    decreases |data|
  {
    if |data| >= 2 {
      var rest := data[2..];
      SumsAgree(rest);
      var word, network := Word(data[0], data[1]), Word(data[1], data[0]);
      assert 256 * word == network + data[1] * ALL_ONES;
      Congruent(NetworkSum(rest), 256 * WordSum(rest), network);
      assert 256 * (word + WordSum(rest)) == network + 256 * WordSum(rest) + data[1] * ALL_ONES;
      ModShift(network + 256 * WordSum(rest), data[1], ALL_ONES);
    }
  }

  lemma Congruent(a: nat, b: nat, c: nat)
    requires a % ALL_ONES == b % ALL_ONES
    ensures (c + a) % ALL_ONES == (c + b) % ALL_ONES
  {
    ModShift(c + a % ALL_ONES, a / ALL_ONES, ALL_ONES);
    ModShift(c + b % ALL_ONES, b / ALL_ONES, ALL_ONES);
    assert c + a % ALL_ONES + a / ALL_ONES * ALL_ONES == c + a;
    assert c + b % ALL_ONES + b / ALL_ONES * ALL_ONES == c + b;
  }

  /** RFC 1071 section 2(B): the sum of swapped words is the swapped sum, so
      both byte orders store the same two bytes. */
  lemma ByteOrderIndependent(data: Bytes)
    ensures Fold(NetworkSum(data)) == Swap(Fold(WordSum(data)))
    ensures ALL_ONES - Fold(NetworkSum(data)) == Swap(ChecksumOf(data))
  {
    var w, n := WordSum(data), NetworkSum(data);
    SumsAgree(data);
    FoldClosed(w);
    FoldClosed(n);
    SwapComplement(Fold(w));
    if w > 0 {
      SwapResidue(w);
      SameResidue(n, Swap(Fold(w)));
    }
  }

  lemma SwapComplement(f: nat)
    requires f <= ALL_ONES
    ensures Swap(f) <= ALL_ONES && (f > 0 ==> Swap(f) > 0)
    ensures ALL_ONES - Swap(f) == Swap(ALL_ONES - f)
  {
    DivModUnique(ALL_ONES - f, 256, 255 - f / 256, 255 - f % 256);
  }

  lemma SwapResidue(w: nat)
    requires w > 0
    ensures (256 * w) % ALL_ONES == Swap(Fold(w)) % ALL_ONES
  {
    var f, q := Fold(w), (w - 1) / ALL_ONES;
    FoldClosed(w);
    hide Fold;
    assert w == f + q * ALL_ONES;
    assert 256 * w == 256 * f + (256 * q) * ALL_ONES;
    ModShift(256 * f, 256 * q, ALL_ONES);
    assert 256 * f == Swap(f) + (f / 256) * ALL_ONES;
    ModShift(Swap(f), f / 256, ALL_ONES);
  }

  lemma SameResidue(n: nat, s: nat)
    requires n > 0 && 1 <= s <= ALL_ONES && n % ALL_ONES == s % ALL_ONES
    ensures (n - 1) % ALL_ONES + 1 == s
  {
  }

  // ------------------------------------------------------------ packets

  function HeaderLength(p: Bytes): nat
    requires |p| >= 20
  {
    (p[0] % 16) * 4
  }

  function NetworkWord(p: Bytes, at: nat): nat
    requires at + 1 < |p|
  {
    Word(p[at + 1], p[at])
  }

  /** The received bytes hold the IP header that they announce. */
  predicate HeaderFits(p: Bytes) {
    20 <= |p| <= BUFFER_SIZE && 20 <= HeaderLength(p) <= |p|
  }

  /** They also hold the segment that they announce, by the total length for TCP
      and by the datagram's own length for UDP, and that segment is long enough
      to contain its checksum field. */
  predicate Consistent(p: Bytes) {
    && HeaderFits(p)
    && (p[9] == TCP ==> HeaderLength(p) + 18 <= NetworkWord(p, 2) <= |p|)
    && (p[9] == UDP ==>
          && HeaderLength(p) + 8 <= |p|
          && 8 <= NetworkWord(p, HeaderLength(p) + 4) <= |p| - HeaderLength(p))
  }

  /** In numbers, by protocol. */
  lemma WhichPackets(p: Bytes)
    requires 20 <= |p| <= 2048
    ensures var start := 4 * ((p[0] as int) % 16);
            Consistent(p) <==>
            && 20 <= start <= |p|
            && (p[9] == 6 ==> start + 18 <= 256 * (p[2] as int) + p[3] <= |p|)
            && (p[9] == 17 ==> start + 8 <= |p|
                               && start + 8 <= start + 256 * (p[start + 4] as int) + p[start + 5] <= |p|)
  {
  }

  predicate HasPorts(p: Bytes)
    requires |p| >= 20
  {
    p[9] == TCP || p[9] == UDP
  }

  /** Length of the TCP segment or UDP datagram. */
  function SegmentLength(p: Bytes): nat
    requires Consistent(p) && HasPorts(p)
  {
    if p[9] == TCP then NetworkWord(p, 2) - HeaderLength(p) else NetworkWord(p, HeaderLength(p) + 4)
  }

  /** Where the transport checksum lies. */
  function CheckOffset(p: Bytes): nat
    requires Consistent(p) && HasPorts(p)
  {
    HeaderLength(p) + if p[9] == TCP then 16 else 6
  }

  function PseudoHeader(p: Bytes): Bytes
    requires Consistent(p) && HasPorts(p)
  {
    p[12..20] + [0, p[9], SegmentLength(p) / 256, SegmentLength(p) % 256]
  }

  /** What the transport checksum covers. */
  function Covered(p: Bytes): Bytes
    requires Consistent(p) && HasPorts(p)
  {
    PseudoHeader(p) + p[HeaderLength(p)..HeaderLength(p) + SegmentLength(p)]
  }

  predicate HeaderVerifies(p: Bytes)
    requires HeaderFits(p)
  {
    ChecksumOf(p[..HeaderLength(p)]) == 0
  }

  predicate SegmentVerifies(p: Bytes)
    requires Consistent(p)
  {
    HasPorts(p) ==> ChecksumOf(Covered(p)) == 0
  }

  /** Where RFC 791, RFC 793 and RFC 768 put things: header length in the low half
      of byte 0, total length in bytes 2 and 3, the checksum at bytes 16 and 17
      of a TCP header and 6 and 7 of a UDP one, UDP's own length before it. The
      sum covers addresses, protocol, length and segment. */
  lemma FieldPlaces(p: Bytes, start: int, length: int)
    requires Consistent(p) && start == 4 * ((p[0] as int) % 16)
    requires p[9] == 6 ==> length == 256 * (p[2] as int) + p[3] - start
    requires p[9] == 17 ==> |p| >= start + 6 && length == 256 * (p[start + 4] as int) + p[start + 5]
    requires p[9] == 6 || p[9] == 17
    ensures CheckOffset(p) == start + (if p[9] == 6 then 16 else 6)
    ensures 0 <= length && start + length <= |p| && |Covered(p)| == 12 + length
    ensures Covered(p)[..8] == p[12..20] && Covered(p)[8] == 0 && Covered(p)[9] == p[9]
    ensures 256 * (Covered(p)[10] as int) + Covered(p)[11] == length
    ensures Covered(p)[12..] == p[start..start + length]
    ensures HeaderVerifies(p) <==> Fold(WordSum(p[..start])) == 0xFFFF
    ensures SegmentVerifies(p) <==> Fold(WordSum(Covered(p))) == 0xFFFF
  {
    hide Fold, WordSum;
    SegmentFits(p);
    assert start == HeaderLength(p) && length == SegmentLength(p);
  }

  /** A value stored in the transport checksum is a value stored in what the
      checksum covers. */
  lemma CoveredStored(p: Bytes, c: nat)
    requires Consistent(p) && HasPorts(p) && c <= ALL_ONES
    ensures CheckOffset(p) + 1 < |p| && Consistent(Stored(p, CheckOffset(p), c))
    ensures var at := 12 + CheckOffset(p) - HeaderLength(p);
            && at % 2 == 0 && at + 1 < |Covered(p)|
            && Covered(Stored(p, CheckOffset(p), c)) == Stored(Covered(p), at, c)
  {
    var start, length, at := HeaderLength(p), SegmentLength(p), CheckOffset(p);
    var q := Stored(p, at, c);
    StoredKeepsFields(p, c);
    hide Consistent, NetworkWord, HeaderLength, SegmentLength;
    assert PseudoHeader(q) == PseudoHeader(p);
    assert q[start..start + length] == Stored(p[start..start + length], at - start, c);
  }

  lemma StoredKeepsFields(p: Bytes, c: nat)
    requires Consistent(p) && HasPorts(p) && c <= ALL_ONES
    ensures 20 <= HeaderLength(p) <= CheckOffset(p) < CheckOffset(p) + 1 < HeaderLength(p) + SegmentLength(p) <= |p|
    ensures (CheckOffset(p) - HeaderLength(p)) % 2 == 0
    ensures var q := Stored(p, CheckOffset(p), c);
            Consistent(q) && HasPorts(q) && HeaderLength(q) == HeaderLength(p) && SegmentLength(q) == SegmentLength(p)
  {
  }

  /** `calculate_tcp_checksum` and `calculate_udp_checksum`: the field is zeroed
      in the packet, pseudo header and segment are copied side by side, and a
      UDP zero is sent as 0xFFFF. */
  method CalculateTransportChecksum(packet: array<Byte>) returns (c: nat)
    requires Consistent(packet[..]) && HasPorts(packet[..])
    modifies packet
    ensures CheckOffset(old(packet[..])) + 1 < packet.Length
    ensures packet[..] == Stored(old(packet[..]), CheckOffset(old(packet[..])), 0)
    ensures Consistent(packet[..]) && HasPorts(packet[..])
    ensures c == if ChecksumOf(Covered(packet[..])) == 0 && packet[9] == UDP then ALL_ONES
                 else ChecksumOf(Covered(packet[..]))
  {
    ghost var before := packet[..];
    var at := CheckOffset(packet[..]);
    CoveredStored(before, 0);
    packet[at], packet[at + 1] := 0, 0;
    assert packet[..] == Stored(before, at, 0);
    hide Stored, ChecksumOf;
    var covered := PseudoPacket(packet);
    c := CalculateChecksum(covered);
    if packet[9] == UDP && c == 0 {
      c := ALL_ONES;
    }
  }

  lemma CoveredInPlace(p: Bytes, packed: Bytes)
    requires Consistent(p) && HasPorts(p) && |packed| == BUFFER_SIZE
    requires var start, length := HeaderLength(p), SegmentLength(p);
             && packed[..12] == PseudoHeader(p)
             && 12 + length <= BUFFER_SIZE && packed[12..12 + length] == p[start..start + length]
    ensures packed[..12 + SegmentLength(p)] == Covered(p)
  {
    var n := 12 + SegmentLength(p);
    assert packed[..n] == packed[..12] + packed[12..n];
  }

  lemma SegmentFits(p: Bytes)
    requires Consistent(p) && HasPorts(p)
    ensures 20 <= HeaderLength(p) && HeaderLength(p) + SegmentLength(p) <= |p| <= BUFFER_SIZE
    ensures SegmentLength(p) <= ALL_ONES
  {
  }

  /** The buffer both functions fill before they sum. */
  method PseudoPacket(packet: array<Byte>) returns (covered: Bytes)
    requires Consistent(packet[..]) && HasPorts(packet[..])
    ensures covered == Covered(packet[..]) && |covered| <= BUFFER_SIZE
  {
    hide Covered, NetworkWord;
    ghost var p := packet[..];
    SegmentFits(p);
    var start, length := HeaderLength(packet[..]), SegmentLength(packet[..]);
    var psh := packet[12..20] + [0, packet[9], length / 256, length % 256];
    var pseudoPacket := new Byte[BUFFER_SIZE](_ => 0);
    Copy(pseudoPacket, 0, psh);
    Copy(pseudoPacket, 12, packet[start..start + length]);
    CoveredInPlace(p, pseudoPacket[..]);
    covered := pseudoPacket[..12 + length];
  }

  /** `memcpy` into a buffer. */
  method Copy(dst: array<Byte>, at: nat, src: Bytes)
    requires at + |src| <= dst.Length
    modifies dst
    ensures dst[at..at + |src|] == src
    ensures dst[..at] == old(dst[..at])
  {
    forall k | 0 <= k < |src| { dst[at + k] := src[k]; }
  }

  /** A packet with other addresses. */
  function Addressed(p: Bytes, saddr: Bytes, daddr: Bytes): (q: Bytes)
    requires |p| >= 20 && |saddr| == |daddr| == 4
    ensures |q| == |p|
  {
    p[..12] + saddr + daddr + p[20..]
  }

  lemma AddressedIsConsistent(p: Bytes, saddr: Bytes, daddr: Bytes)
    requires Consistent(p) && |saddr| == |daddr| == 4
    ensures Consistent(Addressed(p, saddr, daddr))
    ensures HeaderLength(Addressed(p, saddr, daddr)) == HeaderLength(p)
  {
    var q := Addressed(p, saddr, daddr);
    assert q[..12] == p[..12] && q[20..] == p[20..];
    assert forall k :: 20 <= k < |p| ==> q[k] == q[20..][k - 20];
  }

  /** Steps 7 and 8 of both forwarding directions, once the addresses have been
      rewritten. */
  method RecalculateChecksums(packet: array<Byte>)
    requires Consistent(packet[..])
    modifies packet
    ensures Consistent(packet[..]) && HeaderLength(packet[..]) == old(HeaderLength(packet[..]))
    ensures HeaderVerifies(packet[..]) && SegmentVerifies(packet[..])
    ensures forall k :: 0 <= k < packet.Length && k != 10 && k != 11
              && !(HasPorts(old(packet[..])) && CheckOffset(old(packet[..])) <= k <= CheckOffset(old(packet[..])) + 1)
              ==> packet[k] == old(packet[k])
  {
    ghost var p := packet[..];
    WriteHeaderChecksum(packet);
    ghost var q := packet[..];
    HeaderFieldKept(p, q);
    if packet[9] == TCP || packet[9] == UDP {
      WriteSegmentChecksum(packet);
    }
  }

  method WriteSegmentChecksum(packet: array<Byte>)
    requires Consistent(packet[..]) && HasPorts(packet[..])
    modifies packet
    ensures Consistent(packet[..]) && HeaderLength(packet[..]) == old(HeaderLength(packet[..]))
    ensures SegmentVerifies(packet[..])
    ensures packet[..][..HeaderLength(packet[..])] == old(packet[..][..HeaderLength(packet[..])])
    ensures forall k :: 0 <= k < packet.Length
              && !(CheckOffset(old(packet[..])) <= k <= CheckOffset(old(packet[..])) + 1)
              ==> packet[k] == old(packet[k])
  {
    hide ChecksumOf, Covered;
    ghost var q := packet[..];
    var at := CheckOffset(packet[..]);
    var c := CalculateTransportChecksum(packet);
    packet[at], packet[at + 1] := c % 256, c / 256;
    assert packet[..] == Stored(q, at, c);
    SegmentChecksumVerifies(q, c);
  }

  lemma SegmentChecksumVerifies(p: Bytes, c: nat)
    requires Consistent(p) && HasPorts(p) && CheckOffset(p) + 1 < |p|
    requires Consistent(Stored(p, CheckOffset(p), 0)) && HasPorts(Stored(p, CheckOffset(p), 0))
    requires var covered := Covered(Stored(p, CheckOffset(p), 0));
             c == if ChecksumOf(covered) == 0 && p[9] == UDP then ALL_ONES else ChecksumOf(covered)
    ensures c <= ALL_ONES && Consistent(Stored(p, CheckOffset(p), c))
    ensures SegmentVerifies(Stored(p, CheckOffset(p), c))
    ensures var q := Stored(p, CheckOffset(p), c);
            HeaderLength(q) == HeaderLength(p) && q[..HeaderLength(p)] == p[..HeaderLength(p)]
  {
    hide ChecksumOf, Covered;
    CoveredStored(p, 0);
    CoveredStored(p, c);
    VerifiesToZero(Covered(p), 12 + CheckOffset(p) - HeaderLength(p), c);
  }

  lemma HeaderFieldKept(p: Bytes, q: Bytes)
    requires Consistent(p) && |q| == |p|
    requires forall k :: 0 <= k < |p| && k != 10 && k != 11 ==> q[k] == p[k]
    ensures Consistent(q) && HeaderLength(q) == HeaderLength(p) && HasPorts(q) == HasPorts(p)
    ensures HasPorts(p) ==> CheckOffset(q) == CheckOffset(p)
  {
  }

  /** Whatever comes after the header. */
  method WriteHeaderChecksum(packet: array<Byte>)
    requires HeaderFits(packet[..])
    modifies packet
    ensures HeaderFits(packet[..]) && HeaderVerifies(packet[..])
    ensures forall k :: 0 <= k < packet.Length && k != 10 && k != 11 ==> packet[k] == old(packet[k])
  {
    ghost var p := packet[..];
    var length := HeaderLength(packet[..]);
    packet[10], packet[11] := 0, 0;
    assert HeaderLength(packet[..]) == length;
    assert packet[..length] == Stored(p[..length], 10, 0);
    var c := CalculateChecksum(packet[..length]);
    packet[10], packet[11] := c % 256, c / 256;
    assert HeaderLength(packet[..]) == length;
    assert packet[..][..length] == Stored(p[..length], 10, c);
    VerifiesToZero(p[..length], 10, c);
  }

  const PROXY: Bytes := [10, 20, 0, 3]
  const ROUTER_DMZ: Bytes := [10, 20, 0, 2]
  const ROUTER_EXTERNAL: Bytes := [10, 10, 0, 2]

  /** The packet that leaves the router: new addresses, fitting checksums, and
      nothing else changed. */
  predicate Forwarded(p: Bytes, q: Bytes, saddr: Bytes, daddr: Bytes)
    requires Consistent(p) && |saddr| == |daddr| == 4
  {
    && |q| == |p| && Consistent(q) && HeaderVerifies(q) && SegmentVerifies(q)
    && q[12..16] == saddr && q[16..20] == daddr
    && (forall k :: 0 <= k < |p| && !(10 <= k < 20) && !(HasPorts(p) && CheckOffset(p) <= k <= CheckOffset(p) + 1)
          ==> q[k] == p[k])
  }

  /** Inbound: DNAT to the proxy, then SNAT to the router. */
  method ForwardInbound(packet: array<Byte>)
    requires Consistent(packet[..])
    modifies packet
    ensures Forwarded(old(packet[..]), packet[..], ROUTER_DMZ, PROXY)
    ensures packet[12..16] == [10, 20, 0, 2] && packet[16..20] == [10, 20, 0, 3]
  {
    Readdress(packet, ROUTER_DMZ, PROXY);
  }

  /** Outbound: the router's external address, and for TCP and UDP the client
      found in the session table; without a session the packet is dropped. */
  method ForwardOutbound(packet: array<Byte>, client: seq<Bytes>) returns (sent: bool)
    requires Consistent(packet[..])
    requires forall i :: 0 <= i < |client| ==> |client[i]| == 4
    modifies packet
    ensures sent <==> !HasPorts(old(packet[..])) || client != []
    ensures sent ==> Forwarded(old(packet[..]), packet[..], ROUTER_EXTERNAL,
                               if HasPorts(old(packet[..])) then client[0] else old(packet[16..20]))
    ensures sent ==> packet[12..16] == [10, 10, 0, 2]
  {
    var daddr := packet[16..20];
    if packet[9] == TCP || packet[9] == UDP {
      if client == [] {
        return false;
      }
      daddr := client[0];
    }
    Readdress(packet, ROUTER_EXTERNAL, daddr);
    sent := true;
  }

  method Readdress(packet: array<Byte>, saddr: Bytes, daddr: Bytes)
    requires Consistent(packet[..]) && |saddr| == |daddr| == 4
    modifies packet
    ensures Forwarded(old(packet[..]), packet[..], saddr, daddr)
  {
    ghost var p := packet[..];
    forall k | 0 <= k < 4 { packet[16 + k] := daddr[k]; }
    forall k | 0 <= k < 4 { packet[12 + k] := saddr[k]; }
    assert packet[..] == Addressed(p, saddr, daddr);
    AddressedIsConsistent(p, saddr, daddr);
    RecalculateChecksums(packet);
    assert packet[..][12..16] == saddr && packet[..][16..20] == daddr;
  }
}
