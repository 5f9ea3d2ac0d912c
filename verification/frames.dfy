/** c/ethlib/udp.c, tcp.c, ipv4.c: the frames that the senders put together, and what their
    checksums and getters promise. A frame starts at its Ethernet header. */
module Frames {
  import opened Bytes
  import opened Checksum

  type half = x: int | 0 <= x < 0x1_0000

  function U16(v: half): (r: seq<byte>)
    ensures |r| == 2
  {
    [v / 0x100, v % 0x100]
  }

  /** Link and network addresses of both ends, and the IPv4 identification. */
  datatype Ends = Ends(dstMac: seq<byte>, srcMac: seq<byte>, srcIp: seq<byte>, dstIp: seq<byte>, id: half)

  predicate Addressed(e: Ends) {
    |e.dstMac| == |e.srcMac| == 6 && |e.srcIp| == |e.dstIp| == 4
  }

  /** Ethernet and IPv4 headers, 34 bytes, with a zero checksum field at 24. */
  function IpHeader(e: Ends, ipLength: half, protocol: byte): (r: seq<byte>)
    requires Addressed(e)
    ensures |r| == 34
  {
    e.dstMac + e.srcMac + [0x08, 0x00, 0x45, 0x00] + U16(ipLength) + U16(e.id)
    + [0x40, 0x00, 0x40, protocol] + [0, 0] + e.srcIp + e.dstIp
  }

  // -------------------------------------------------------------- checksum fields

  /** Puts a 16-bit value at byte a. */
  function Put16(f: seq<byte>, a: nat, v: half): (r: seq<byte>)
    requires a + 2 <= |f|
    ensures |r| == |f|
  {
    f[a := v / 0x100][a + 1 := v % 0x100]
  }

  function IpSum(f: seq<byte>): nat {
    Sum16(f, 14, 10)
  }

  /** Both IPv4 addresses, the protocol and the length of what follows the header. */
  function PseudoSum(f: seq<byte>, protocol: byte, length: nat): nat {
    Sum16(f, 26, 4) + protocol + length
  }

  /** Everything the UDP or TCP checksum of a frame covers. */
  function TransportSum(f: seq<byte>, protocol: byte, length: nat): nat {
    Sum16(f, 34, (length + 1) / 2) + PseudoSum(f, protocol, length)
  }

  /** The code's checksum of an IPv4 header: it takes the field's high byte out of the sum but
      adds its low byte once more. */
  function IpComputed(f: seq<byte>): int {
    IpSumBound(f);
    Complement(IpSum(f) - At(f, 24) * 0x100 + At(f, 25))
  }

  lemma IpSumBound(f: seq<byte>)
    ensures IpSum(f) >= WordAt(f, 24) && IpSum(f) <= 10 * 0xFFFF
  {
    hide WordAt;
    SumWithout(f, 14, 10, 5);
  }

  /** The computed value is that of a header with an empty checksum field exactly when the low
      byte of the field is zero. */
  lemma IpComputedIgnoresFieldIff(f: seq<byte>)
    requires |f| >= 34
    ensures IpComputed(f) == IpComputed(Put16(f, 24, 0)) <==> f[25] == 0
  {
    hide Complement, Sum16;
    var g := Put16(f, 24, 0);
    IpSumBound(f);
    IpSumBound(g);
    SumReplace(f, g, 14, 10, 5);
    var rest := IpSum(g);
    var high, low := f[24] as int, f[25] as int;
    assert IpSum(f) == rest + high * 0x100 + low;
    ComplementDiffers(rest, low);
  }

  lemma ComplementDiffers(rest: nat, low: byte)
    requires rest < 0xFFFF_0000
    ensures Complement(rest + 2 * low) == Complement(rest) <==> low == 0
  {
    hide Fold3;
    SameFold(rest + 2 * low, rest);
    if low > 0 { SmallShift(rest, 2 * low); }
  }

  lemma SmallShift(c: nat, d: nat)
    requires 0 < d < 0xFFFF
    ensures (c + d) % 0xFFFF != c % 0xFFFF
  {
    var q, r := c / 0xFFFF, c % 0xFFFF;
    assert c + d == q * 0xFFFF + (r + d);
    if r + d < 0xFFFF { RemainderOf(q, r + d); } else { RemainderOf(q + 1, r + d - 0xFFFF); }
  }

  lemma RemainderOf(q: nat, r: nat)
    requires r < 0xFFFF
    ensures (q * 0xFFFF + r) % 0xFFFF == r
  {
  }

  // --------------------------------------------------------- filling in a field

  lemma Put16Word(f: seq<byte>, a: nat, v: half)
    requires a + 2 <= |f|
    ensures WordAt(Put16(f, a, v), a) == v
    ensures forall i: nat :: i != a && i != a + 1 ==> At(Put16(f, a, v), i) == At(f, i)
  {
  }

  /** Completing the IPv4 header of a frame whose field is still zero. */
  function WithIpChecksum(f: seq<byte>): (g: seq<byte>)
    requires |f| >= 34
    ensures |g| == |f|
  {
    IpComputedFits(f);
    Put16(f, 24, IpComputed(f))
  }

  lemma IpComputedFits(f: seq<byte>)
    ensures 0 <= IpComputed(f) <= 0xFFFF
  {
    hide Fold3;
    IpSumBound(f);
    ThreeFoldsSuffice(IpSum(f) - At(f, 24) * 0x100 + At(f, 25));
  }

  lemma IpChecksumIsRight(f: seq<byte>)
    requires |f| >= 34 && f[24] == 0 && f[25] == 0
    ensures SumsToOnes(IpSum(WithIpChecksum(f)))
  {
    hide Fold3, Sum16, WordAt;
    IpSumBound(f);
    IpComputedFits(f);
    var g := WithIpChecksum(f);
    Put16Word(f, 24, IpComputed(f));
    SumReplace(f, g, 14, 10, 5);
    assert WordAt(f, 24) == 0 by { EmptyField(f, 24); }
    ComplementCompletes(IpSum(f));
  }

  lemma EmptyField(f: seq<byte>, a: nat)
    requires At(f, a) == 0 && At(f, a + 1) == 0
    ensures WordAt(f, a) == 0
  {
  }

  /** The code's UDP or TCP checksum, the field being at byte `a`, `a` even. UDP corrects for the
      field as IPv4 does, TCP does not; an empty field makes no difference. */
  function TransportComputed(f: seq<byte>, protocol: byte, length: nat): int {
    Complement(TransportSum(f, protocol, length))
  }

  lemma TransportBound(f: seq<byte>, protocol: byte, length: nat)
    requires length <= 0xFFFF
    ensures TransportSum(f, protocol, length) < 0xFFFF_0000
  {
    hide Sum16;
    var n := (length + 1) / 2;
    assert n * 0xFFFF <= 0x8000 * 0xFFFF;
  }

  lemma TransportComputedFits(f: seq<byte>, protocol: byte, length: nat)
    requires length <= 0xFFFF
    ensures 0 <= TransportComputed(f, protocol, length) <= 0xFFFF
  {
    hide Fold3, TransportSum;
    TransportBound(f, protocol, length);
    ComplementCompletes(TransportSum(f, protocol, length));
  }

  function WithTransportChecksum(f: seq<byte>, a: nat, protocol: byte, length: nat): (g: seq<byte>)
    requires a + 2 <= |f| && length <= 0xFFFF
    ensures |g| == |f|
  {
    TransportComputedFits(f, protocol, length);
    Put16(f, a, TransportComputed(f, protocol, length))
  }

  lemma TransportChecksumIsRight(f: seq<byte>, a: nat, protocol: byte, length: nat)
    requires length <= 0xFFFF && |f| == 34 + length && a % 2 == 0 && 34 <= a && a + 2 <= |f|
    requires f[a] == 0 && f[a + 1] == 0
    ensures SumsToOnes(TransportSum(WithTransportChecksum(f, a, protocol, length), protocol, length))
  {
    hide Fold3, Sum16, WordAt, SumsToOnes, Complement;
    TransportComputedFits(f, protocol, length);
    var v := TransportComputed(f, protocol, length);
    var g := WithTransportChecksum(f, a, protocol, length);
    Put16Word(f, a, v);
    var n, k := (length + 1) / 2, (a - 34) / 2;
    assert 34 + 2 * k == a;
    SumReplace(f, g, 34, n, k);
    EmptyField(f, a);
    SumCong(f, g, 26, 4);
    TransportBound(f, protocol, length);
    ComplementCompletes(TransportSum(f, protocol, length));
  }

  /** Filling in a transport field leaves the IPv4 header alone. */
  lemma TransportKeepsIp(f: seq<byte>, a: nat, protocol: byte, length: nat)
    requires length <= 0xFFFF && 34 <= a && a + 2 <= |f|
    ensures IpSum(WithTransportChecksum(f, a, protocol, length)) == IpSum(f)
  {
    hide Fold3, Sum16, TransportSum;
    TransportComputedFits(f, protocol, length);
    Put16Word(f, a, TransportComputed(f, protocol, length));
    SumCong(f, WithTransportChecksum(f, a, protocol, length), 14, 10);
  }

  // ------------------------------------------------------------------ UDP frames

  const UDP := 0x11
  const TCP := 0x06

  /** The code's UDP checksum corrects for the field as the IPv4 one does: high byte out, low byte in again. */
  function UdpComputed(f: seq<byte>): int
    requires |f| >= 42 && |f| <= 0xFFFF
  {
    UdpFieldInSum(f);
    Complement(TransportSum(f, UDP, |f| - 34) - At(f, 40) * 0x100 + At(f, 41))
  }

  lemma UdpFieldInSum(f: seq<byte>)
    requires |f| >= 42
    ensures TransportSum(f, UDP, |f| - 34) >= At(f, 40) * 0x100
  {
    hide Sum16;
    SumWithout(f, 34, (|f| - 34 + 1) / 2, 3);
  }

  /** It is that of a frame with an empty checksum field exactly when the low byte of the field is zero. */
  lemma UdpComputedIgnoresFieldIff(f: seq<byte>)
    requires 42 <= |f| <= 0xFFFF
    ensures UdpComputed(f) == UdpComputed(Put16(f, 40, 0)) <==> f[41] == 0
  {
    hide Complement, Sum16;
    var g, length := Put16(f, 40, 0), |f| - 34;
    UdpFieldInSum(f);
    UdpFieldInSum(g);
    SumReplace(f, g, 34, (length + 1) / 2, 3);
    SumCong(f, g, 26, 4);
    TransportBound(g, UDP, length);
    var rest := TransportSum(g, UDP, length);
    var high, low := f[40] as int, f[41] as int;
    assert TransportSum(f, UDP, length) == rest + high * 0x100 + low;
    ComplementDiffers(rest, low);
  }

  predicate UdpFits(data: seq<byte>) {
    42 + |data| <= 0xFFFF
  }

  function UdpHeader(sport: half, dport: half, n: nat): (r: seq<byte>)
    requires n <= 0xFFF7
    ensures |r| == 8
  {
    U16(sport) + U16(dport) + U16(8 + n) + [0, 0]
  }

  /** The frame before its checksums are filled in. */
  function UdpRaw(e: Ends, sport: half, dport: half, data: seq<byte>): (f: seq<byte>)
    requires Addressed(e) && UdpFits(data)
    ensures |f| == 42 + |data|
  {
    IpHeader(e, 28 + |data|, UDP) + UdpHeader(sport, dport, |data|) + data
  }

  function UdpFrame(e: Ends, sport: half, dport: half, data: seq<byte>): (f: seq<byte>)
    requires Addressed(e) && UdpFits(data)
    ensures |f| == 42 + |data|
  {
    WithTransportChecksum(WithIpChecksum(UdpRaw(e, sport, dport, data)), 40, UDP, 8 + |data|)
  }

  function Get16(f: seq<byte>, a: nat): half
    requires a + 2 <= |f|
  {
    f[a] as int * 0x100 + f[a + 1] as int
  }

  function Get32(f: seq<byte>, a: nat): word
    requires a + 4 <= |f|
  {
    FromBytes(f[a], f[a + 1], f[a + 2], f[a + 3])
  }

  lemma Get32OfBigEndian(v: word)
    ensures Get32(BigEndian(v), 0) == v
  {
    ByteByByte(v);
    FourDigits(v, v / 0x100, v / 0x1_0000, v / 0x100_0000);
  }

  /** Neither checksum touches bytes outside the two fields. */
  lemma ChecksumsTouchOnlyFields(f: seq<byte>, a: nat, protocol: byte, length: nat, i: nat)
    requires length <= 0xFFFF && 34 <= a && a + 2 <= |f| && i < |f| && i != 24 && i != 25 && i != a && i != a + 1
    ensures WithTransportChecksum(WithIpChecksum(f), a, protocol, length)[i] == f[i]
  {
    hide IpComputed, TransportComputed;
    IpComputedFits(f);
    TransportComputedFits(WithIpChecksum(f), protocol, length);
  }

  /** A slice that holds neither field survives. */
  lemma ChecksumsKeepSlice(f: seq<byte>, a: nat, protocol: byte, length: nat, lo: nat, hi: nat)
    requires length <= 0xFFFF && 34 <= a && a + 2 <= |f| && lo <= hi <= |f|
    requires (hi <= 24 || 26 <= lo) && (hi <= a || a + 2 <= lo)
    ensures WithTransportChecksum(WithIpChecksum(f), a, protocol, length)[lo..hi] == f[lo..hi]
  {
    hide WithTransportChecksum, WithIpChecksum;
    var g := WithTransportChecksum(WithIpChecksum(f), a, protocol, length);
    forall i | lo <= i < hi ensures g[i] == f[i] {
      ChecksumsTouchOnlyFields(f, a, protocol, length, i);
    }
  }

  /** Both checksums of any frame that starts with an IPv4 header and empty fields. */
  lemma BothChecksumsRight(f: seq<byte>, a: nat, protocol: byte, length: nat)
    requires length <= 0xFFFF && |f| == 34 + length && a % 2 == 0 && 34 <= a && a + 2 <= |f|
    requires f[24] == 0 && f[25] == 0 && f[a] == 0 && f[a + 1] == 0
    ensures var g := WithTransportChecksum(WithIpChecksum(f), a, protocol, length);
            SumsToOnes(IpSum(g)) && SumsToOnes(TransportSum(g, protocol, length))
  {
    hide SumsToOnes, IpSum, TransportSum, WithTransportChecksum, IpComputed;
    IpChecksumIsRight(f);
    IpComputedFits(f);
    TransportChecksumIsRight(WithIpChecksum(f), a, protocol, length);
    TransportKeepsIp(WithIpChecksum(f), a, protocol, length);
  }

  lemma IpHeaderParts(e: Ends, ipLength: half, protocol: byte)
    requires Addressed(e)
    ensures var h := IpHeader(e, ipLength, protocol);
            && h[..6] == e.dstMac && h[6..12] == e.srcMac && h[16..18] == U16(ipLength)
            && h[24] == 0 && h[25] == 0 && h[26..30] == e.srcIp && h[30..34] == e.dstIp && h[23] == protocol
  {
    hide U16;
  }

  lemma UdpRawParts(e: Ends, sport: half, dport: half, data: seq<byte>)
    requires Addressed(e) && UdpFits(data)
    ensures var f := UdpRaw(e, sport, dport, data);
            && f[..34] == IpHeader(e, 28 + |data|, UDP)
            && f[34..36] == U16(sport) && f[36..38] == U16(dport) && f[38..40] == U16(8 + |data|)
            && f[40] == 0 && f[41] == 0 && f[42..] == data
  {
    hide U16, IpHeader;
  }

  /** Every UDP frame carries correct IPv4 and UDP checksums. */
  lemma UdpFrameIsRight(e: Ends, sport: half, dport: half, data: seq<byte>)
    requires Addressed(e) && UdpFits(data)
    ensures var f := UdpFrame(e, sport, dport, data);
            SumsToOnes(IpSum(f)) && SumsToOnes(TransportSum(f, UDP, 8 + |data|))
  {
    hide SumsToOnes, IpSum, TransportSum, UdpRaw, IpHeader, WithIpChecksum, WithTransportChecksum;
    var f := UdpRaw(e, sport, dport, data);
    UdpRawParts(e, sport, dport, data);
    IpHeaderParts(e, 28 + |data|, UDP);
    assert f[24] == f[..34][24] && f[25] == f[..34][25];
    BothChecksumsRight(f, 40, UDP, 8 + |data|);
  }

  /** A sent frame carries a checksum of zero, which RFC 768 reserves for "none", exactly when the words it covers
      add up to a multiple of 65535. */
  lemma UdpSendsZeroIff(e: Ends, sport: half, dport: half, data: seq<byte>)
    requires Addressed(e) && UdpFits(data)
    ensures var f := UdpFrame(e, sport, dport, data);
            f[40] == 0 && f[41] == 0 <==> TransportSum(UdpRaw(e, sport, dport, data), UDP, 8 + |data|) % 0xFFFF == 0
  {
    hide UdpRaw, Sum16, Fold3, IpComputed;
    var r, n := UdpRaw(e, sport, dport, data), 8 + |data|;
    var g := WithIpChecksum(r);
    IpComputedFits(r);
    Put16Word(r, 24, IpComputed(r));
    SumCong(r, g, 34, (n + 1) / 2);
    SumCong(r, g, 26, 4);
    TransportBound(g, UDP, n);
    TransportComputedFits(g, UDP, n);
    OnesIffMultiple(TransportSum(g, UDP, n));
  }

  /** It happens: for all addresses, destination port and payload there is a source port that makes it so. */
  lemma SomePortSendsZero(e: Ends, dport: half, data: seq<byte>) returns (sport: half)
    requires Addressed(e) && UdpFits(data)
    ensures var f := UdpFrame(e, sport, dport, data); f[40] == 0 && f[41] == 0
  {
    hide UdpRaw, Sum16, UdpFrame;
    var n := 8 + |data|;
    var r := UdpRaw(e, 0, dport, data);
    var c := TransportSum(r, UDP, n);
    sport := (0xFFFF - c % 0xFFFF) % 0xFFFF;
    var t := UdpRaw(e, sport, dport, data);
    SourcePortAlone(e, sport, dport, data);
    SumReplace(r, t, 34, (n + 1) / 2, 0);
    SumCong(r, t, 26, 4);
    CompletesMultiple(c, sport);
    UdpSendsZeroIff(e, sport, dport, data);
  }

  lemma SourcePortAlone(e: Ends, sport: half, dport: half, data: seq<byte>)
    requires Addressed(e) && UdpFits(data)
    ensures var r, t := UdpRaw(e, 0, dport, data), UdpRaw(e, sport, dport, data);
            && WordAt(r, 34) == 0 && WordAt(t, 34) == sport
            && forall i: nat :: i != 34 && i != 35 ==> At(r, i) == At(t, i)
  {
    hide IpHeader;
    var r, t := UdpRaw(e, 0, dport, data), UdpRaw(e, sport, dport, data);
    forall i: nat | i != 34 && i != 35 ensures At(r, i) == At(t, i) {
    }
  }

  lemma CompletesMultiple(c: nat, p: nat)
    requires p == (0xFFFF - c % 0xFFFF) % 0xFFFF
    ensures (c + p) % 0xFFFF == 0
  {
    var q, r := c / 0xFFFF, c % 0xFFFF;
    assert c == q * 0xFFFF + r;
    if r == 0 { RemainderOf(q, 0); } else { RemainderOf(q + 1, 0); }
  }

  /** A 16-bit number found in a slice. */
  lemma Get16Slice(f: seq<byte>, a: nat, v: half)
    requires a + 2 <= |f| && f[a..a + 2] == U16(v)
    ensures Get16(f, a) == v
  {
    assert f[a] == f[a..a + 2][0] && f[a + 1] == f[a..a + 2][1];
  }

  lemma Get32Slice(f: seq<byte>, a: nat, v: word)
    requires a + 4 <= |f| && f[a..a + 4] == BigEndian(v)
    ensures Get32(f, a) == v
  {
    Get32OfBigEndian(v);
    assert f[a] == f[a..a + 4][0] && f[a + 1] == f[a..a + 4][1] && f[a + 2] == f[a..a + 4][2] && f[a + 3] == f[a..a + 4][3];
  }

  /** The getters recover ports, lengths, addresses and payload from a sent UDP frame. */
  lemma UdpGettersInvert(e: Ends, sport: half, dport: half, data: seq<byte>)
    requires Addressed(e) && UdpFits(data)
    ensures var f := UdpFrame(e, sport, dport, data);
            && Get16(f, 34) == sport && Get16(f, 36) == dport && Get16(f, 38) == 8 + |data|
            && f[26..30] == e.srcIp && f[30..34] == e.dstIp && f[42..] == data && f[..6] == e.dstMac && f[6..12] == e.srcMac
  {
    hide U16, IpHeader, UdpRaw, WithIpChecksum, WithTransportChecksum, Get16;
    var r, f := UdpRaw(e, sport, dport, data), UdpFrame(e, sport, dport, data);
    UdpRawParts(e, sport, dport, data);
    IpHeaderParts(e, 28 + |data|, UDP);
    var h := r[..34];
    assert h[..6] == r[..6] && h[6..12] == r[6..12] && h[26..30] == r[26..30] && h[30..34] == r[30..34];
    ChecksumsKeepSlice(r, 40, UDP, 8 + |data|, 0, 6);
    ChecksumsKeepSlice(r, 40, UDP, 8 + |data|, 6, 12);
    ChecksumsKeepSlice(r, 40, UDP, 8 + |data|, 26, 30);
    ChecksumsKeepSlice(r, 40, UDP, 8 + |data|, 30, 34);
    ChecksumsKeepSlice(r, 40, UDP, 8 + |data|, 34, 36);
    ChecksumsKeepSlice(r, 40, UDP, 8 + |data|, 36, 38);
    ChecksumsKeepSlice(r, 40, UDP, 8 + |data|, 38, 40);
    ChecksumsKeepSlice(r, 40, UDP, 8 + |data|, 42, |r|);
    Get16Slice(f, 34, sport);
    Get16Slice(f, 36, dport);
    Get16Slice(f, 38, 8 + |data|);
    assert f[42..|f|] == f[42..] && f[0..6] == f[..6];
  }

  // ------------------------------------------------------------------ TCP frames

  predicate TcpFits(data: seq<byte>) {
    54 + |data| <= 0xFFFF
  }

  function TcpHeader(sport: half, dport: half, seqNum: word, ackNum: word, flags: byte): (r: seq<byte>)
    ensures |r| == 20
  {
    U16(sport) + U16(dport) + BigEndian(seqNum) + BigEndian(ackNum) + [0x50, flags] + [0x72, 0x10] + [0, 0] + [0, 0]
  }

  function TcpRaw(e: Ends, sport: half, dport: half, seqNum: word, ackNum: word, flags: byte, data: seq<byte>): (f: seq<byte>)
    requires Addressed(e) && TcpFits(data)
    ensures |f| == 54 + |data|
  {
    IpHeader(e, 40 + |data|, TCP) + TcpHeader(sport, dport, seqNum, ackNum, flags) + data
  }

  function TcpFrame(e: Ends, sport: half, dport: half, seqNum: word, ackNum: word, flags: byte, data: seq<byte>): (f: seq<byte>)
    requires Addressed(e) && TcpFits(data)
    ensures |f| == 54 + |data|
  {
    WithTransportChecksum(WithIpChecksum(TcpRaw(e, sport, dport, seqNum, ackNum, flags, data)), 50, TCP, 20 + |data|)
  }

  lemma TcpRawParts(e: Ends, sport: half, dport: half, seqNum: word, ackNum: word, flags: byte, data: seq<byte>)
    requires Addressed(e) && TcpFits(data)
    ensures var f := TcpRaw(e, sport, dport, seqNum, ackNum, flags, data);
            && f[..34] == IpHeader(e, 40 + |data|, TCP)
            && f[34..36] == U16(sport) && f[36..38] == U16(dport) && f[38..42] == BigEndian(seqNum) && f[42..46] == BigEndian(ackNum)
            && f[46..48] == [0x50, flags] && f[48..50] == [0x72, 0x10] && f[50] == 0 && f[51] == 0 && f[54..] == data
  {
    hide U16, BigEndian, IpHeader;
  }

  /** Every TCP frame carries correct IPv4 and TCP checksums. */
  lemma TcpFrameIsRight(e: Ends, sport: half, dport: half, seqNum: word, ackNum: word, flags: byte, data: seq<byte>)
    requires Addressed(e) && TcpFits(data)
    ensures var f := TcpFrame(e, sport, dport, seqNum, ackNum, flags, data);
            SumsToOnes(IpSum(f)) && SumsToOnes(TransportSum(f, TCP, 20 + |data|))
  {
    hide SumsToOnes, IpSum, TransportSum, TcpRaw, IpHeader, WithIpChecksum, WithTransportChecksum;
    var f := TcpRaw(e, sport, dport, seqNum, ackNum, flags, data);
    TcpRawParts(e, sport, dport, seqNum, ackNum, flags, data);
    IpHeaderParts(e, 40 + |data|, TCP);
    assert f[24] == f[..34][24] && f[25] == f[..34][25];
    BothChecksumsRight(f, 50, TCP, 20 + |data|);
  }

  /** tcp_get_data_length: IPv4 length minus both headers. */
  function TcpDataLength(f: seq<byte>): int
    requires |f| >= 54
  {
    Get16(f, 16) - 20 - f[46] / 4
  }

  lemma WindowBytes()
    ensures U16(0x7210) == [0x72, 0x10]
  {
  }

  /** The getters recover ports, numbers, flags, length and payload from a sent TCP frame. */
  lemma TcpGettersInvert(e: Ends, sport: half, dport: half, seqNum: word, ackNum: word, flags: byte, data: seq<byte>)
    requires Addressed(e) && TcpFits(data)
    ensures var f := TcpFrame(e, sport, dport, seqNum, ackNum, flags, data);
            && Get16(f, 34) == sport && Get16(f, 36) == dport && Get32(f, 38) == seqNum && Get32(f, 42) == ackNum
            && f[47] == flags && f[46] / 4 == 20 && Get16(f, 48) == 0x7210 && TcpDataLength(f) == |data| && f[34 + f[46] / 4..] == data
  {
    hide U16, BigEndian, IpHeader, TcpRaw, WithIpChecksum, WithTransportChecksum, Get16, Get32;
    var r, f, n := TcpRaw(e, sport, dport, seqNum, ackNum, flags, data), TcpFrame(e, sport, dport, seqNum, ackNum, flags, data), 20 + |data|;
    TcpRawParts(e, sport, dport, seqNum, ackNum, flags, data);
    IpHeaderParts(e, 40 + |data|, TCP);
    assert r[..34][16..18] == r[16..18];
    ChecksumsKeepSlice(r, 50, TCP, n, 16, 18);
    ChecksumsKeepSlice(r, 50, TCP, n, 34, 36);
    ChecksumsKeepSlice(r, 50, TCP, n, 36, 38);
    ChecksumsKeepSlice(r, 50, TCP, n, 38, 42);
    ChecksumsKeepSlice(r, 50, TCP, n, 42, 46);
    ChecksumsKeepSlice(r, 50, TCP, n, 46, 48);
    ChecksumsKeepSlice(r, 50, TCP, n, 48, 50);
    WindowBytes();
    Get16Slice(f, 48, 0x7210);
    ChecksumsKeepSlice(r, 50, TCP, n, 54, |r|);
    Get16Slice(f, 16, 40 + |data|);
    Get16Slice(f, 34, sport);
    Get16Slice(f, 36, dport);
    Get32Slice(f, 38, seqNum);
    Get32Slice(f, 42, ackNum);
    assert f[46] == f[46..48][0] && f[47] == f[46..48][1];
    assert f[54..|f|] == f[54..];
  }
}
