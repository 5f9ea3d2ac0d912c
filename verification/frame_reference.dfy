/** What the standards say about the frames of c/ethlib, written out byte by byte: the sum of section 1 of RFC 1071,
    the header of section 3.1 of RFC 791, and the pseudo headers of RFC 768 and section 3.1 of RFC 793. */
module FrameReference {
  import opened Bytes
  import opened Checksum
  import opened Frames
  import Icmp

  /** Big-endian 16-bit words added up, an odd last byte with a zero behind it. */
  function OnesSum(b: seq<byte>): nat {
    if b == [] then 0
    else if |b| == 1 then b[0] * 0x100
    else b[0] * 0x100 + b[1] + OnesSum(b[2..])
  }

  /** With its checksum in place a packet adds up to a positive multiple of 65535. */
  predicate Right(b: seq<byte>) {
    OnesSum(b) > 0 && OnesSum(b) % 0xFFFF == 0
  }

  /** Addresses, a zero byte, protocol and length before the segment itself. */
  function Covered(f: seq<byte>, protocol: byte): seq<byte>
    requires 34 <= |f| <= 0xFFFF
  {
    var n := |f| - 34;
    f[26..30] + f[30..34] + [0, protocol] + [n / 0x100, n % 0x100] + f[34..]
  }

  lemma {:induction false} OnesSumAppend(a: seq<byte>, b: seq<byte>)
    requires |a| % 2 == 0
    ensures OnesSum(a + b) == OnesSum(a) + OnesSum(b)
    decreases |a|
  {
    if a == [] {
      assert a + b == b;
    } else {
      assert (a + b)[2..] == a[2..] + b;
      OnesSumAppend(a[2..], b);
    }
  }

  lemma OnesSumTwo(x: byte, y: byte)
    ensures OnesSum([x, y]) == x * 0x100 + y
  {
    assert [x, y][2..] == [];
  }

  /** The sum the loops compute is the reference sum of those bytes. */
  lemma {:induction false} SumIsOnesSum(f: seq<byte>, a: nat, n: nat)
    requires a + 2 * n <= |f|
    ensures Sum16(f, a, n) == OnesSum(f[a..a + 2 * n])
    decreases n
  {
    if n > 0 {
      SumIsOnesSum(f, a, n - 1);
      var m := a + 2 * (n - 1);
      OnesSumAppend(f[a..m], [f[m], f[m + 1]]);
      OnesSumTwo(f[m], f[m + 1]);
      assert f[a..a + 2 * n] == f[a..m] + [f[m], f[m + 1]];
    } else {
      assert f[a..a] == [];
    }
  }

  /** The same to the end of a frame, with a zero byte behind an odd one. */
  lemma SumToEnd(f: seq<byte>, a: nat)
    requires a <= |f|
    ensures Sum16(f, a, (|f| - a + 1) / 2) == OnesSum(f[a..])
  {
    hide OnesSum, Sum16;
    var n := (|f| - a) / 2;
    SumIsOnesSum(f, a, n);
    var m := a + 2 * n;
    assert |f[a..m]| == 2 * n;
    if m == |f| {
      assert f[a..] == f[a..m];
    } else {
      assert m + 1 == |f|;
      OnesSumAppend(f[a..m], [f[m]]);
      OnesSumOne(f[m]);
      assert f[a..] == f[a..m] + [f[m]];
      SumSplit(f, a, n, 1);
      SumOfOne(f, m);
    }
  }

  lemma OnesSumOne(x: byte)
    ensures OnesSum([x]) == x * 0x100
  {
  }

  /** The IPv4 checksum is over the 20 bytes of the header. */
  lemma IpSumCovers(f: seq<byte>)
    requires |f| >= 34
    ensures IpSum(f) == OnesSum(f[14..34])
  {
    SumIsOnesSum(f, 14, 10);
  }

  /** The UDP and TCP checksums are over the pseudo header and the whole segment. */
  lemma TransportSumCovers(f: seq<byte>, protocol: byte)
    requires 34 <= |f| <= 0xFFFF
    ensures TransportSum(f, protocol, |f| - 34) == OnesSum(Covered(f, protocol))
  {
    hide Sum16, OnesSum;
    var n := |f| - 34;
    SumToEnd(f, 34);
    SumIsOnesSum(f, 26, 4);
    var ips, mid, len := f[26..34], [0, protocol], [n / 0x100, n % 0x100];
    OnesSumTwo(0, protocol);
    OnesSumTwo(n / 0x100, n % 0x100);
    OnesSumAppend(ips, mid);
    OnesSumAppend(ips + mid, len);
    OnesSumAppend(ips + mid + len, f[34..]);
    assert f[26..30] + f[30..34] == ips;
    assert Covered(f, protocol) == ips + mid + len + f[34..];
  }

  /** The checksum of an echo message is over the message from its type on. */
  lemma IcmpSumCovers(f: seq<byte>)
    requires |f| >= 34
    ensures Icmp.IcmpSum(f) == OnesSum(f[34..])
  {
    SumToEnd(f, 34);
  }

  /** Every frame udp_send_mac builds is a UDP datagram in an IPv4 packet by the standards: each header field, both
      checksums and the payload. */
  lemma UdpFrameByTheStandards(e: Ends, sport: half, dport: half, data: seq<byte>)
    requires Addressed(e) && UdpFits(data)
    ensures var f := UdpFrame(e, sport, dport, data);
            && PacketTo(f, e, 17) && Right(f[14..34]) && Right(Covered(f, 17))
            && f[34..40] == [sport / 0x100, sport % 0x100, dport / 0x100, dport % 0x100, (8 + |data|) / 0x100, (8 + |data|) % 0x100]
            && f[42..] == data
  {
    hide UdpRaw, WithIpChecksum, WithTransportChecksum, IpHeader, OnesSum, TransportSum, IpSum, SumsToOnes, Covered, PacketTo;
    var r, f := UdpRaw(e, sport, dport, data), UdpFrame(e, sport, dport, data);
    UdpFrameIsRight(e, sport, dport, data);
    RightByTheStandards(f, 17);
    UdpRawParts(e, sport, dport, data);
    HeaderFields(e, f, r, 40, 17);
    ChecksumsKeepSlice(r, 40, UDP, 8 + |data|, 34, 40);
    ChecksumsKeepSlice(r, 40, UDP, 8 + |data|, 42, |r|);
    assert r[34..40] == r[34..36] + r[36..38] + r[38..40];
    assert f[42..] == f[42..|r|];
  }

  /** What the verify functions test for is what the standards ask for. */
  lemma RightByTheStandards(f: seq<byte>, protocol: byte)
    requires 34 <= |f| <= 0xFFFF
    ensures SumsToOnes(IpSum(f)) <==> Right(f[14..34])
    ensures SumsToOnes(TransportSum(f, protocol, |f| - 34)) <==> Right(Covered(f, protocol))
  {
    hide OnesSum, TransportSum, IpSum, SumsToOnes, Covered;
    IpSumCovers(f);
    IpSumBound(f);
    TransportSumCovers(f, protocol);
    TransportBound(f, protocol, |f| - 34);
    OnesIffMultiple(IpSum(f));
    OnesIffMultiple(TransportSum(f, protocol, |f| - 34));
  }

  /** Ethernet and IPv4 header: type 0x0800, version 4 with five words, no options, the length behind the link header,
      the identification, don't-fragment, 64 hops, the protocol, and the addresses. */
  predicate PacketTo(f: seq<byte>, e: Ends, protocol: byte) {
    && 34 <= |f| && |f| - 14 <= 0xFFFF
    && f[..6] == e.dstMac && f[6..12] == e.srcMac && f[12..16] == [0x08, 0x00, 0x45, 0x00]
    && f[16] as int * 0x100 + f[17] == |f| - 14 && f[18] as int * 0x100 + f[19] == e.id
    && f[20..24] == [0x40, 0x00, 64, protocol]
    && f[26..30] == e.srcIp && f[30..34] == e.dstIp
  }

  lemma HeaderFields(e: Ends, f: seq<byte>, r: seq<byte>, a: nat, protocol: byte)
    requires Addressed(e) && 34 <= a && a + 2 <= |r| <= 0xFFFF && r[..34] == IpHeader(e, |r| - 14, protocol)
    requires f == WithTransportChecksum(WithIpChecksum(r), a, protocol, |r| - 34)
    ensures PacketTo(f, e, protocol)
  {
    hide WithIpChecksum, WithTransportChecksum, IpHeader;
    ChecksumsKeepSlice(r, a, protocol, |r| - 34, 0, 24);
    ChecksumsKeepSlice(r, a, protocol, |r| - 34, 26, 34);
    var h := IpHeader(e, |r| - 14, protocol);
    assert r[0..24] == r[..34][..24] && r[26..34] == r[..34][26..34];
    FromParts(f, h, e, protocol);
  }

  lemma HeaderBytes(e: Ends, n: half, protocol: byte)
    requires Addressed(e)
    ensures var h := IpHeader(e, n, protocol);
            && h[..6] == e.dstMac && h[6..12] == e.srcMac && h[12..16] == [0x08, 0x00, 0x45, 0x00]
            && h[16] == n / 0x100 && h[17] == n % 0x100 && h[18] == e.id / 0x100 && h[19] == e.id % 0x100
            && h[20..24] == [0x40, 0x00, 64, protocol] && h[26..30] == e.srcIp && h[30..34] == e.dstIp
  {
  }

  lemma FromParts(f: seq<byte>, h: seq<byte>, e: Ends, protocol: byte)
    requires Addressed(e) && |h| == 34 <= |f| <= 0xFFFF && f[0..24] == h[..24] && f[26..34] == h[26..34]
    requires h == IpHeader(e, |f| - 14, protocol)
    ensures PacketTo(f, e, protocol)
  {
    hide IpHeader;
    HeaderBytes(e, |f| - 14, protocol);
    assert f[..6] == f[0..24][..6] == h[..24][..6] == h[..6];
    assert f[6..12] == f[0..24][6..12] == h[..24][6..12] == h[6..12];
    assert f[12..16] == f[0..24][12..16] == h[..24][12..16] == h[12..16];
    assert f[20..24] == f[0..24][20..24] == h[..24][20..24] == h[20..24];
    assert f[26..30] == f[26..34][..4] == h[26..34][..4] == h[26..30];
    assert f[30..34] == f[26..34][4..] == h[26..34][4..] == h[30..34];
    assert f[16] == f[0..24][16] && f[17] == f[0..24][17] && f[18] == f[0..24][18] && f[19] == f[0..24][19];
  }

  /** Every frame tcp_send builds is a TCP segment in an IPv4 packet by the standards. */
  lemma TcpFrameByTheStandards(e: Ends, sport: half, dport: half, seqNum: word, ackNum: word, flags: byte, data: seq<byte>)
    requires Addressed(e) && TcpFits(data)
    ensures var f := TcpFrame(e, sport, dport, seqNum, ackNum, flags, data);
            && PacketTo(f, e, 6) && Right(f[14..34]) && Right(Covered(f, 6))
            && f[34..38] == [sport / 0x100, sport % 0x100, dport / 0x100, dport % 0x100]
            && FromBytes(f[38], f[39], f[40], f[41]) == seqNum && FromBytes(f[42], f[43], f[44], f[45]) == ackNum
            && f[46] / 16 == 5 && f[47] == flags && f[48..50] == [0x72, 0x10] && f[52] == f[53] == 0 && f[54..] == data
  {
    hide TcpRaw, WithIpChecksum, WithTransportChecksum, IpHeader, OnesSum, TransportSum, IpSum, SumsToOnes, Covered, PacketTo, FromBytes;
    var r, f := TcpRaw(e, sport, dport, seqNum, ackNum, flags, data), TcpFrame(e, sport, dport, seqNum, ackNum, flags, data);
    TcpFrameIsRight(e, sport, dport, seqNum, ackNum, flags, data);
    RightByTheStandards(f, 6);
    TcpRawParts(e, sport, dport, seqNum, ackNum, flags, data);
    HeaderFields(e, f, r, 50, 6);
    TcpGettersInvert(e, sport, dport, seqNum, ackNum, flags, data);
    ChecksumsKeepSlice(r, 50, TCP, 20 + |data|, 34, 38);
    ChecksumsKeepSlice(r, 50, TCP, 20 + |data|, 46, 50);
    assert r[34..38] == r[34..36] + r[36..38];
    assert f[46..50] == r[46..48] + r[48..50];
    assert f[46] == f[46..50][0] && f[48..50] == f[46..50][2..];
    ChecksumsTouchOnlyFields(r, 50, TCP, 20 + |data|, 52);
    ChecksumsTouchOnlyFields(r, 50, TCP, 20 + |data|, 53);
    UrgentIsZero(e, sport, dport, seqNum, ackNum, flags, data);
  }

  lemma UrgentIsZero(e: Ends, sport: half, dport: half, seqNum: word, ackNum: word, flags: byte, data: seq<byte>)
    requires Addressed(e) && TcpFits(data)
    ensures var r := TcpRaw(e, sport, dport, seqNum, ackNum, flags, data); r[52] == r[53] == 0
  {
    hide IpHeader;
  }
}
