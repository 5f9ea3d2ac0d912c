/** c/ethlib/ipv4.c, udp.c, tcp.c: checksums and frames in the packet buffer itself. */
module Senders {
  import opened Bytes
  import opened Checksum
  import opened Frames
  import opened PacketBuffer
  import opened Splices

  /** The buffer shows the frame f at pkt, with a zero byte behind an odd end, up to byte n. */
  predicate Shows(b: seq<byte>, pkt: nat, f: seq<byte>, n: nat) {
    pkt + n <= |b| && forall i: nat :: i < n ==> b[pkt + i] == At(f, i)
  }

  /** A checksum loop over n words from byte a of the frame; 32 bits hold the sum. */
  method SumWords(buf: Buffer, pkt: nat, a: nat, n: nat, ghost f: seq<byte>) returns (sum: nat)
    requires Shows(buf.Bytes(), pkt, f, a + 2 * n)
    ensures sum == Sum16(f, a, n)
  {
    hide View, At;
    sum := 0;
    var i := 0;
    while i < 2 * n
      invariant i % 2 == 0 && i <= 2 * n && sum == Sum16(f, a, i / 2)
    {
      var hi := buf.IordByte(pkt + a + i);
      var lo := buf.IordByte(pkt + a + i + 1);
      assert hi == At(f, a + i) && lo == At(f, a + i + 1);
      NextWord(f, a, i / 2);
      sum := sum + hi as int * 0x100 + lo as int;
      i := i + 2;
    }
  }

  lemma NextWord(f: seq<byte>, a: nat, n: nat)
    ensures Sum16(f, a, n + 1) == Sum16(f, a, n) + At(f, a + 2 * n) * 0x100 + At(f, a + 2 * n + 1)
  {
  }

  method FoldOnce(c: nat) returns (r: nat)
    ensures r == Fold(c)
  {
    r := c;
    if c >= 0x1_0000 { r := c % 0x1_0000 + c / 0x1_0000; }
  }

  /** The three conditional folds and the complement. */
  method Finish(sum: nat) returns (checksum: half)
    requires sum < 0x1_0000_0000
    ensures checksum == Complement(sum)
  {
    hide Fold;
    ThreeFoldsSuffice(sum);
    var c := FoldOnce(sum);
    c := FoldOnce(c);
    c := FoldOnce(c);
    checksum := 0xFFFF - c;
  }

  method Ipv4ComputeChecksum(buf: Buffer, pkt: nat, ghost f: seq<byte>) returns (checksum: half)
    requires Shows(buf.Bytes(), pkt, f, 34)
    ensures checksum == IpComputed(f)
  {
    hide Complement, Sum16;
    var sum := SumWords(buf, pkt, 14, 10, f);
    var hi := buf.IordByte(pkt + 24);
    var lo := buf.IordByte(pkt + 25);
    assert hi == At(f, 24) && lo == At(f, 25);
    IpSumBound(f);
    checksum := Finish(sum - hi as int * 0x100 + lo as int);
  }

  method Ipv4VerifyChecksum(buf: Buffer, pkt: nat, ghost f: seq<byte>) returns (ok: bool)
    requires Shows(buf.Bytes(), pkt, f, 34)
    ensures ok <==> SumsToOnes(IpSum(f))
  {
    hide Fold3, Sum16;
    var sum := SumWords(buf, pkt, 14, 10, f);
    IpSumBound(f);
    var c := Finish(sum);
    ok := c == 0;
  }

  /** The zero byte written behind a frame of odd length. */
  method PadOdd(buf: Buffer, pkt: nat, length: nat, ghost f: seq<byte>)
    requires |f| == 34 + length && Shows(buf.Bytes(), pkt, f, |f|) && pkt + 34 + length + 1 <= 4 * buf.words.Length
    modifies buf.words
    ensures Shows(buf.Bytes(), pkt, f, 34 + (length + 1) / 2 * 2)
    ensures forall k :: 0 <= k < |buf.Bytes()| && k != pkt + |f| ==> buf.Bytes()[k] == old(buf.Bytes())[k]
  {
    if length % 2 != 0 {
      buf.IowrByte(pkt + length + 34, 0x00);
    }
  }

  /** Both addresses, protocol, length and the data, as udp.c and tcp.c add them up. */
  method TransportTotal(buf: Buffer, pkt: nat, protocol: byte, length: nat, ghost f: seq<byte>) returns (sum: nat)
    requires Shows(buf.Bytes(), pkt, f, 34 + (length + 1) / 2 * 2)
    ensures sum == TransportSum(f, protocol, length)
  {
    hide Sum16;
    var data := SumWords(buf, pkt, 34, (length + 1) / 2, f);
    var addresses := SumWords(buf, pkt, 26, 4, f);
    sum := data + addresses + protocol + length;
  }

  /** udp_compute_checksum on a frame of at least a UDP header: it, too, adds the low byte of the
      old checksum field. */
  method UdpComputeChecksum(buf: Buffer, pkt: nat, ghost f: seq<byte>) returns (checksum: half)
    requires 42 <= |f| <= 0xFFFF && Get16(f, 38 - pkt % 4) == |f| - 34 && Shows(buf.Bytes(), pkt, f, |f|)
    requires pkt + |f| + 1 <= 4 * buf.words.Length
    modifies buf.words
    ensures checksum == UdpComputed(f)
    ensures Shows(buf.Bytes(), pkt, f, |f|)
    ensures forall k :: 0 <= k < |buf.Bytes()| && k != pkt + |f| ==> buf.Bytes()[k] == old(buf.Bytes())[k]
  {
    hide Complement, Sum16, TransportSum;
    var length := LowHalf(buf, pkt, 38, f);
    PadOdd(buf, pkt, length, f);
    var sum := TransportTotal(buf, pkt, 0x11, length, f);
    var hi := buf.IordByte(pkt + 40);
    var lo := buf.IordByte(pkt + 41);
    assert hi == At(f, 40) && lo == At(f, 41);
    UdpFieldInSum(f);
    TransportBound(f, UDP, length);
    checksum := Finish(sum - hi as int * 0x100 + lo as int);
  }

  /** mem_iord of the aligned word at byte k of the frame. */
  method ReadWord(buf: Buffer, addr: nat, ghost pkt: nat, ghost k: nat, ghost f: seq<byte>) returns (w: word)
    requires k + 4 <= |f| && Shows(buf.Bytes(), pkt, f, |f|) && addr / 4 * 4 == pkt + k
    ensures w == Get32(f, k)
  {
    hide View, FromBytes;
    w := buf.Iord(addr);
    ghost var b := buf.Bytes();
    assert b[pkt + k] == At(f, k) && b[pkt + (k + 1)] == At(f, k + 1) && b[pkt + (k + 2)] == At(f, k + 2) && b[pkt + (k + 3)] == At(f, k + 3);
  }

  lemma AlignedDown(addr: nat)
    ensures addr / 4 * 4 == addr - addr % 4
  {
  }

  /** mem_iord and a mask: the low half of the aligned word, so bytes a - pkt % 4 and the next of the frame. */
  method LowHalf(buf: Buffer, pkt: nat, a: nat, ghost f: seq<byte>) returns (v: half)
    requires a % 4 == 2 && 6 <= a && a + 2 <= |f| && Shows(buf.Bytes(), pkt, f, |f|)
    ensures v == Get16(f, a - pkt % 4)
  {
    hide View, FromBytes, Shows;
    AlignedDown(pkt + a - 2);
    ghost var k := a - 2 - pkt % 4;
    var w := ReadWord(buf, pkt + a - 2, pkt, k, f);
    Halves(f[k], f[k + 1], f[k + 2], f[k + 3]);
    v := w % 0x1_0000;
  }

  /** mem_iord and a shift: the high half of the aligned word that byte a of the frame lies in. */
  method HighHalf(buf: Buffer, pkt: nat, a: nat, ghost f: seq<byte>) returns (v: half)
    requires 4 <= a && a + 2 <= |f| && Shows(buf.Bytes(), pkt, f, |f|)
    ensures v == Get16(f, a - (pkt + a) % 4)
  {
    hide View, FromBytes;
    AlignedDown(pkt + a);
    ghost var k, b := a - (pkt + a) % 4, buf.Bytes();
    var w := buf.Iord(pkt + a);
    assert b[pkt + k] == At(f, k) && b[pkt + (k + 1)] == At(f, k + 1);
    Halves(b[pkt + k], b[pkt + (k + 1)], b[pkt + k + 2], b[pkt + k + 3]);
    v := w / 0x1_0000;
  }

  lemma Halves(b0: byte, b1: byte, b2: byte, b3: byte)
    ensures var w := FromBytes(b0, b1, b2, b3);
            w / 0x1_0000 == b0 as int * 0x100 + b1 as int && w % 0x1_0000 == b2 as int * 0x100 + b3 as int
  {
  }

  method UdpVerifyChecksum(buf: Buffer, pkt: nat, ghost f: seq<byte>) returns (ok: bool)
    requires 42 <= |f| <= 0xFFFF && Get16(f, 38 - pkt % 4) == |f| - 34 && Shows(buf.Bytes(), pkt, f, |f|)
    requires pkt + |f| + 1 <= 4 * buf.words.Length
    modifies buf.words
    ensures ok <==> SumsToOnes(TransportSum(f, UDP, |f| - 34))
    ensures Shows(buf.Bytes(), pkt, f, |f|)
  {
    hide Fold3, Sum16, TransportSum;
    var length := LowHalf(buf, pkt, 38, f);
    PadOdd(buf, pkt, length, f);
    var sum := TransportTotal(buf, pkt, 0x11, length, f);
    TransportBound(f, UDP, length);
    var c := Finish(sum);
    ok := c == 0;
  }

  // ------------------------------------------------------------ building a frame

  lemma SpliceWord(b: seq<byte>, a: nat, b0: byte, b1: byte, b2: byte, b3: byte)
    requires a + 4 <= |b|
    ensures SetWord(b, a, FromBytes(b0, b1, b2, b3)) == Splice(b, a, [b0, b1, b2, b3])
  {
    hide ByteOf, FromBytes;
    ByteOfFromBytes(b0, b1, b2, b3);
  }

  /** Where word accesses to a packet at tx go. */
  function Base(tx: nat): nat {
    tx / 4 * 4
  }

  lemma BaseMoves(tx: nat, k: nat)
    requires k % 4 == 0
    ensures (tx + k) / 4 * 4 == Base(tx) + k && Base(tx) + tx % 4 == tx
  {
  }

  /** mem_iowr of four bytes shifted and or-ed together at byte k, behind what was written before. */
  method WriteNext(buf: Buffer, tx: nat, k: nat, b0: byte, b1: byte, b2: byte, b3: byte, ghost b: seq<byte>, ghost t: seq<byte>)
    requires k % 4 == 0 && k == |t| && tx + k + 1 <= |b| == 4 * buf.words.Length && buf.Bytes() == Splice(b, Base(tx), t)
    modifies buf.words
    ensures Base(tx) + k + 4 <= |b| && buf.Bytes() == Splice(b, Base(tx), t + [b0, b1, b2, b3])
  {
    hide View, FromBytes, Splice, Base;
    BaseMoves(tx, k);
    buf.Iowr(tx + k, FromBytes(b0, b1, b2, b3));
    SpliceWord(Splice(b, Base(tx), t), Base(tx) + k, b0, b1, b2, b3);
    SpliceNext(b, Base(tx), t, [b0, b1, b2, b3]);
  }

  /** The first nine words are the same for UDP and TCP: both headers and the source port. */
  method WriteHeaders(buf: Buffer, tx: nat, e: Ends, ipLength: half, protocol: byte, sport: half)
    requires Addressed(e) && tx + 36 <= 4 * buf.words.Length
    modifies buf.words
    ensures Base(tx) + 36 <= |old(buf.Bytes())|
    ensures buf.Bytes() == Splice(old(buf.Bytes()), Base(tx), IpHeader(e, ipLength, protocol) + U16(sport))
  {
    hide View, Splice, IpHeader, U16, Base;
    ghost var b, t: seq<byte> := buf.Bytes(), [];
    BaseMoves(tx, 0);
    SpliceNone(b, Base(tx));
    var d, s, i, j := e.dstMac, e.srcMac, e.srcIp, e.dstIp;
    WriteNext(buf, tx, 0, d[0], d[1], d[2], d[3], b, t);
    t := t + [d[0], d[1], d[2], d[3]];
    WriteNext(buf, tx, 4, d[4], d[5], s[0], s[1], b, t);
    t := t + [d[4], d[5], s[0], s[1]];
    WriteNext(buf, tx, 8, s[2], s[3], s[4], s[5], b, t);
    t := t + [s[2], s[3], s[4], s[5]];
    WriteNext(buf, tx, 12, 0x08, 0x00, 0x45, 0x00, b, t);
    t := t + [0x08, 0x00, 0x45, 0x00];
    WriteNext(buf, tx, 16, ipLength / 0x100, ipLength % 0x100, e.id / 0x100, e.id % 0x100, b, t);
    t := t + [ipLength / 0x100, ipLength % 0x100, e.id / 0x100, e.id % 0x100];
    WriteNext(buf, tx, 20, 0x40, 0x00, 0x40, protocol, b, t);
    t := t + [0x40, 0x00, 0x40, protocol];
    WriteNext(buf, tx, 24, 0, 0, i[0], i[1], b, t);
    t := t + [0, 0, i[0], i[1]];
    WriteNext(buf, tx, 28, i[2], i[3], j[0], j[1], b, t);
    t := t + [i[2], i[3], j[0], j[1]];
    WriteNext(buf, tx, 32, j[2], j[3], sport / 0x100, sport % 0x100, b, t);
    t := t + [j[2], j[3], sport / 0x100, sport % 0x100];
    HeaderBytes(e, ipLength, protocol, sport);
    assert t == HeaderList(e, ipLength, protocol, sport);
  }

  /** The same bytes, one by one. */
  function HeaderList(e: Ends, ipLength: half, protocol: byte, sport: half): (r: seq<byte>)
    requires Addressed(e)
  {
    var (d, s, i, j) := (e.dstMac, e.srcMac, e.srcIp, e.dstIp);
    [d[0], d[1], d[2], d[3], d[4], d[5], s[0], s[1], s[2], s[3], s[4], s[5], 0x08, 0x00, 0x45, 0x00,
     ipLength / 0x100, ipLength % 0x100, e.id / 0x100, e.id % 0x100, 0x40, 0x00, 0x40, protocol,
     0, 0, i[0], i[1], i[2], i[3], j[0], j[1], j[2], j[3], sport / 0x100, sport % 0x100]
  }

  lemma HeaderBytes(e: Ends, ipLength: half, protocol: byte, sport: half)
    requires Addressed(e)
    ensures HeaderList(e, ipLength, protocol, sport) == IpHeader(e, ipLength, protocol) + U16(sport)
  {
  }

  /** The payload loop. */
  method WriteData(buf: Buffer, addr: nat, data: seq<byte>)
    requires addr + |data| <= 4 * buf.words.Length
    modifies buf.words
    ensures buf.Bytes() == Splice(old(buf.Bytes()), addr, data)
  {
    hide View;
    ghost var b := buf.Bytes();
    SpliceNone(b, addr);
    assert data[..0] == [];
    var i := 0;
    while i < |data|
      invariant 0 <= i <= |data| && buf.Bytes() == Splice(b, addr, data[..i])
    {
      buf.IowrByte(addr + i, data[i]);
      SpliceOne(b, addr, data[..i], data[i]);
      assert data[..i] + [data[i]] == data[..i + 1];
      i := i + 1;
    }
    assert data[..|data|] == data;
  }

  /** Both bytes of a checksum field. */
  method StoreField(buf: Buffer, pkt: nat, a: nat, v: half, ghost n: nat, ghost f: seq<byte>)
    requires a + 2 <= |f| && a + 2 <= n && Shows(buf.Bytes(), pkt, f, n)
    modifies buf.words
    ensures Shows(buf.Bytes(), pkt, Put16(f, a, v), n)
    ensures forall k :: 0 <= k < |buf.Bytes()| && k != pkt + a && k != pkt + a + 1 ==> buf.Bytes()[k] == old(buf.Bytes())[k]
  {
    hide View;
    ghost var b := buf.Bytes();
    buf.IowrByte(pkt + a, v / 0x100);
    buf.IowrByte(pkt + a + 1, v % 0x100);
    assert v / 0x100 % 0x100 == v / 0x100 && v % 0x100 % 0x100 == v % 0x100;
    forall i: nat | i < n ensures buf.Bytes()[pkt + i] == At(Put16(f, a, v), i) {
      assert b[pkt + i] == At(f, i);
    }
  }

  /** The buffer after a sender's words, which go to Base(tx), and its payload bytes, which go behind tx. */
  function Laid(b: seq<byte>, tx: nat, h: seq<byte>, data: seq<byte>): (r: seq<byte>)
    requires tx + |h| + 2 + |data| <= |b|
    ensures |r| == |b|
  {
    Splice(Splice(b, Base(tx), h + [0, 0]), tx + |h|, data)
  }

  /** What then stands at tx, where the frame should. */
  function Seen(b: seq<byte>, tx: nat, raw: seq<byte>, n: nat): (r: seq<byte>)
    requires n <= |raw| && tx + |raw| + 2 <= |b|
    ensures |r| == |raw|
  {
    Laid(b, tx, raw[..n], raw[n..])[tx..tx + |raw|]
  }

  lemma SpliceAt(b: seq<byte>, a: nat, h: seq<byte>, c: nat, data: seq<byte>, i: nat)
    requires a + |h| <= |b| && i < |h| && a + i < c && c + |data| <= |b|
    ensures Splice(Splice(b, a, h), c, data)[a + i] == h[i]
  {
  }

  /** Every byte of the headers appears tx % 4 bytes too early, the payload in its place. */
  lemma SeenIs(b: seq<byte>, tx: nat, raw: seq<byte>, n: nat)
    requires n <= |raw| && tx + |raw| + 2 <= |b|
    ensures forall i: nat :: i < n && i + tx % 4 < n ==> Seen(b, tx, raw, n)[i] == raw[i + tx % 4]
    ensures Seen(b, tx, raw, n)[n..] == raw[n..]
    ensures tx % 4 == 0 ==> Seen(b, tx, raw, n) == raw
  {
    hide Base;
    BaseMoves(tx, 0);
    var l, s := Laid(b, tx, raw[..n], raw[n..]), Seen(b, tx, raw, n);
    forall i: nat | i < n && i + tx % 4 < n ensures s[i] == raw[i + tx % 4] {
      SpliceAt(b, Base(tx), raw[..n] + [0, 0], tx + n, raw[n..], i + tx % 4);
      assert s[i] == l[tx + i];
    }
    if tx % 4 == 0 {
      assert s == s[..n] + s[n..] && raw == raw[..n] + raw[n..];
      assert s[..n] == raw[..n];
    }
  }

  lemma LaidShows(b: seq<byte>, tx: nat, raw: seq<byte>, n: nat)
    requires n <= |raw| && tx + |raw| + 2 <= |b|
    ensures Shows(Laid(b, tx, raw[..n], raw[n..]), tx, Seen(b, tx, raw, n), |raw|)
    ensures OnlyWithin(b, Laid(b, tx, raw[..n], raw[n..]), Base(tx), tx + |raw| + 2)
  {
    hide Base, Laid;
    LaidWithin(b, tx, raw[..n], raw[n..]);
  }

  lemma LaidWithin(b: seq<byte>, tx: nat, h: seq<byte>, data: seq<byte>)
    requires tx + |h| + 2 + |data| <= |b|
    ensures OnlyWithin(b, Laid(b, tx, h, data), Base(tx), tx + |h| + |data| + 2)
  {
    hide Base;
    BaseMoves(tx, 0);
  }

  /** Nothing but bytes lo to hi has changed. */
  predicate OnlyWithin(b: seq<byte>, c: seq<byte>, lo: nat, hi: nat) {
    |b| == |c| && forall k :: 0 <= k < |b| && (k < lo || hi <= k) ==> c[k] == b[k]
  }

  lemma UdpComputedFits(f: seq<byte>)
    requires 42 <= |f| <= 0xFFFF
    ensures 0 <= UdpComputed(f) <= 0xFFFF
  {
    hide Fold3, TransportSum;
    UdpFieldInSum(f);
    TransportBound(f, UDP, |f| - 34);
    ThreeFoldsSuffice(TransportSum(f, UDP, |f| - 34) - At(f, 40) * 0x100 + At(f, 41));
  }

  /** Both checksums filled in, whatever stands there. */
  function UdpFilled(raw: seq<byte>): (f: seq<byte>)
    requires 42 <= |raw| <= 0xFFFF
    ensures |f| == |raw|
  {
    var f := WithIpChecksum(raw);
    UdpComputedFits(f);
    Put16(f, 40, UdpComputed(f))
  }

  lemma UdpFilledKeeps(raw: seq<byte>)
    requires 42 <= |raw| <= 0xFFFF
    ensures forall i: nat :: i < |raw| && i != 24 && i != 25 && i != 40 && i != 41 ==> UdpFilled(raw)[i] == raw[i]
  {
    hide UdpComputed, IpComputed;
    IpComputedFits(raw);
    UdpComputedFits(WithIpChecksum(raw));
  }

  /** Filling empty fields makes the frame. */
  lemma UdpFilledIsFrame(e: Ends, sport: half, dport: half, data: seq<byte>)
    requires Addressed(e) && UdpFits(data)
    ensures UdpFilled(UdpRaw(e, sport, dport, data)) == UdpFrame(e, sport, dport, data)
  {
    hide IpComputed, TransportSum, Complement, UdpRaw;
    var raw := UdpRaw(e, sport, dport, data);
    UdpRawParts(e, sport, dport, data);
    IpComputedFits(raw);
    var f := WithIpChecksum(raw);
    assert f[40] == raw[40] == 0 && f[41] == raw[41] == 0;
    UdpComputedFits(f);
    TransportComputedFits(f, UDP, |f| - 34);
    assert UdpComputed(f) == TransportComputed(f, UDP, |f| - 34);
  }

  /** As the senders fill them in after the payload. */
  method FillUdpChecksums(buf: Buffer, tx: nat, ghost raw: seq<byte>)
    requires 42 <= |raw| <= 0xFFFF && Shows(buf.Bytes(), tx, raw, |raw|) && tx + |raw| + 1 <= 4 * buf.words.Length
    requires Get16(raw, 38 - tx % 4) == |raw| - 34
    modifies buf.words
    ensures Shows(buf.Bytes(), tx, UdpFilled(raw), |raw|)
    ensures OnlyWithin(old(buf.Bytes()), buf.Bytes(), tx, tx + |raw| + 1)
  {
    hide View, IpComputed, TransportSum, Complement;
    ghost var n := |raw|;
    var checksum := Ipv4ComputeChecksum(buf, tx, raw);
    StoreField(buf, tx, 24, checksum, n, raw);
    ghost var f := WithIpChecksum(raw);
    IpComputedFits(raw);
    assert f == Put16(raw, 24, checksum);
    checksum := UdpComputeChecksum(buf, tx, f);
    UdpComputedFits(f);
    StoreField(buf, tx, 40, checksum, n, f);
  }

  lemma UdpSeen(b: seq<byte>, tx: nat, e: Ends, sport: half, dport: half, data: seq<byte>)
    requires Addressed(e) && UdpFits(data) && tx + 44 + |data| <= |b|
    ensures var s, r := Seen(b, tx, UdpRaw(e, sport, dport, data), 42), UdpRaw(e, sport, dport, data);
            && Get16(s, 38 - tx % 4) == |r| - 34 && s[12] == r[12 + tx % 4]
            && Get16(s, 34 - tx % 4) == Get16(r, 34) && Get16(s, 36 - tx % 4) == Get16(r, 36)
  {
    hide UdpRaw, Seen;
    var r := UdpRaw(e, sport, dport, data);
    SeenIs(b, tx, r, 42);
    UdpRawParts(e, sport, dport, data);
    Get16Slice(r, 38, 8 + |data|);
    assert 12 + tx % 4 < 42 && 34 - tx % 4 + tx % 4 == 34 && 35 - tx % 4 + tx % 4 == 35 && 36 - tx % 4 + tx % 4 == 36;
    assert 37 - tx % 4 + tx % 4 == 37 && 38 - tx % 4 + tx % 4 == 38 && 39 - tx % 4 + tx % 4 == 39;
  }

  /** The type bytes of an IPv4 frame occur nowhere near their place again. */
  lemma TypeOnlyThere(e: Ends, ipLength: half, protocol: byte, rest: seq<byte>, d: nat)
    requires Addressed(e) && d < 4
    ensures (IpHeader(e, ipLength, protocol) + rest)[12 + d] == 0x08 <==> d == 0
  {
  }

  /** A frame stands at tx exactly if tx is a word boundary. */
  lemma UdpShownIff(c: seq<byte>, b: seq<byte>, tx: nat, e: Ends, sport: half, dport: half, data: seq<byte>)
    requires Addressed(e) && UdpFits(data) && tx + 44 + |data| <= |b|
    requires Shows(c, tx, UdpFilled(Seen(b, tx, UdpRaw(e, sport, dport, data), 42)), 42 + |data|)
    ensures Shows(c, tx, UdpFrame(e, sport, dport, data), 42 + |data|) <==> tx % 4 == 0
  {
    hide UdpFilled, Seen, UdpFrame, IpHeader, Get16;
    var r := UdpRaw(e, sport, dport, data);
    var s := Seen(b, tx, r, 42);
    SeenIs(b, tx, r, 42);
    UdpFilledIsFrame(e, sport, dport, data);
    UdpSeen(b, tx, e, sport, dport, data);
    UdpFilledKeeps(s);
    UdpFilledKeeps(r);
    TypeOnlyThere(e, 28 + |data|, UDP, UdpHeader(sport, dport, |data|) + data, 0);
    TypeOnlyThere(e, 28 + |data|, UDP, UdpHeader(sport, dport, |data|) + data, tx % 4);
    assert r == IpHeader(e, 28 + |data|, UDP) + (UdpHeader(sport, dport, |data|) + data);
    assert At(UdpFilled(s), 12) == c[tx + 12] == r[12 + tx % 4];
    assert At(UdpFrame(e, sport, dport, data), 12) == 0x08;
  }

  /** udp_send_mac, up to handing the frame to the controller: on a word boundary the buffer holds exactly the UDP
      frame; elsewhere the headers lie too early, the checksums are those of what stands there, and it is no IPv4 frame. */
  method UdpSendMac(buf: Buffer, tx: nat, e: Ends, sport: half, dport: half, data: seq<byte>)
    requires Addressed(e) && UdpFits(data) && tx + 44 + |data| <= 4 * buf.words.Length
    modifies buf.words
    ensures Shows(buf.Bytes(), tx, UdpFilled(Seen(old(buf.Bytes()), tx, UdpRaw(e, sport, dport, data), 42)), 42 + |data|)
    ensures Shows(buf.Bytes(), tx, UdpFrame(e, sport, dport, data), 42 + |data|) <==> tx % 4 == 0
    ensures OnlyWithin(old(buf.Bytes()), buf.Bytes(), Base(tx), tx + 44 + |data|)
  {
    hide View, Splice, IpHeader, U16, Get16, UdpRaw, Base, UdpFilled, UdpFrame, Seen, Shows;
    ghost var b, raw := buf.Bytes(), UdpRaw(e, sport, dport, data);
    var udpLength := |data| + 8;
    WriteHeaders(buf, tx, e, udpLength + 20, UDP, sport);
    ghost var t := IpHeader(e, udpLength + 20, UDP) + U16(sport);
    WriteNext(buf, tx, 36, dport / 0x100, dport % 0x100, udpLength / 0x100, udpLength % 0x100, b, t);
    t := t + [dport / 0x100, dport % 0x100, udpLength / 0x100, udpLength % 0x100];
    WriteNext(buf, tx, 40, 0, 0, 0, 0, b, t);
    ghost var h := t + [0, 0];
    assert t + [0, 0, 0, 0] == h + [0, 0];
    WriteData(buf, tx + 42, data);
    UdpRawIs(e, sport, dport, data, h);
    assert raw[..42] == h && raw[42..] == data;
    assert buf.Bytes() == Laid(b, tx, h, data);
    LaidShows(b, tx, raw, 42);
    UdpSeen(b, tx, e, sport, dport, data);
    FillUdpChecksums(buf, tx, Seen(b, tx, raw, 42));
    UdpShownIff(buf.Bytes(), b, tx, e, sport, dport, data);
    BaseMoves(tx, 0);
  }

  lemma UdpRawIs(e: Ends, sport: half, dport: half, data: seq<byte>, h: seq<byte>)
    requires Addressed(e) && UdpFits(data)
    requires var n := |data| + 8;
             h == IpHeader(e, n + 20, UDP) + U16(sport) + [dport / 0x100, dport % 0x100, n / 0x100, n % 0x100] + [0, 0]
    ensures var r := UdpRaw(e, sport, dport, data); |h| == 42 && h + data == r && Get16(r, 38) == |r| - 34 && r[40] == 0 && r[41] == 0
  {
    hide IpHeader;
    UdpRawParts(e, sport, dport, data);
    Get16Slice(UdpRaw(e, sport, dport, data), 38, 8 + |data|);
    assert U16(dport) + U16(8 + |data|) == [dport / 0x100, dport % 0x100, (8 + |data|) / 0x100, (8 + |data|) % 0x100];
  }

  /** Ports, length and payload of what was sent, and that on a word boundary it is the frame. */
  lemma UdpSent(b: seq<byte>, tx: nat, e: Ends, sport: half, dport: half, data: seq<byte>)
    requires Addressed(e) && UdpFits(data) && tx + 44 + |data| <= |b|
    ensures var f := UdpFilled(Seen(b, tx, UdpRaw(e, sport, dport, data), 42));
            && Get16(f, 34 - tx % 4) == sport && Get16(f, 36 - tx % 4) == dport && Get16(f, 38 - tx % 4) == |f| - 34
            && f[42..] == data && (tx % 4 == 0 ==> f == UdpFrame(e, sport, dport, data))
  {
    hide UdpFilled, Seen, UdpRaw, UdpFrame;
    var r := UdpRaw(e, sport, dport, data);
    var s := Seen(b, tx, r, 42);
    SeenIs(b, tx, r, 42);
    UdpSeen(b, tx, e, sport, dport, data);
    UdpFilledKeeps(s);
    UdpFilledIsFrame(e, sport, dport, data);
    UdpRawGetters(e, sport, dport, data);
    assert UdpFilled(s)[42..] == s[42..];
  }

  lemma UdpRawGetters(e: Ends, sport: half, dport: half, data: seq<byte>)
    requires Addressed(e) && UdpFits(data)
    ensures var r := UdpRaw(e, sport, dport, data); Get16(r, 34) == sport && Get16(r, 36) == dport && r[42..] == data
  {
    hide UdpRaw, UdpFrame, UdpFilled;
    var r := UdpRaw(e, sport, dport, data);
    UdpFilledKeeps(r);
    UdpFilledIsFrame(e, sport, dport, data);
    UdpGettersInvert(e, sport, dport, data);
    assert UdpFrame(e, sport, dport, data)[42..] == r[42..];
  }

  /** What the other side does with a frame that was sent: both verify functions accept it. */
  method UdpSendThenVerify(buf: Buffer, tx: nat, e: Ends, sport: half, dport: half, data: seq<byte>) returns (ip: bool, udp: bool)
    requires Addressed(e) && UdpFits(data) && tx + 44 + |data| <= 4 * buf.words.Length
    modifies buf.words
    ensures tx % 4 == 0 ==> ip && udp
  {
    hide View, UdpFrame, Get16, IpSum, TransportSum, SumsToOnes, UdpFilled, Seen, UdpRaw;
    ghost var f := UdpFilled(Seen(buf.Bytes(), tx, UdpRaw(e, sport, dport, data), 42));
    UdpSent(buf.Bytes(), tx, e, sport, dport, data);
    UdpFrameIsRight(e, sport, dport, data);
    UdpSendMac(buf, tx, e, sport, dport, data);
    ip := Ipv4VerifyChecksum(buf, tx, f);
    udp := UdpVerifyChecksum(buf, tx, f);
  }

  // ----------------------------------------------------------------------- TCP

  method TcpComputeChecksum(buf: Buffer, pkt: nat, length: nat, ghost f: seq<byte>) returns (checksum: half)
    requires |f| == 34 + length <= 0xFFFF && Shows(buf.Bytes(), pkt, f, |f|) && pkt + |f| + 1 <= 4 * buf.words.Length
    modifies buf.words
    ensures checksum == TransportComputed(f, TCP, length)
    ensures Shows(buf.Bytes(), pkt, f, |f|)
    ensures forall k :: 0 <= k < |buf.Bytes()| && k != pkt + |f| ==> buf.Bytes()[k] == old(buf.Bytes())[k]
  {
    hide Complement, Sum16, TransportSum;
    PadOdd(buf, pkt, length, f);
    var sum := TransportTotal(buf, pkt, 0x0006, length, f);
    TransportBound(f, TCP, length);
    checksum := Finish(sum);
  }

  method FillTcpChecksums(buf: Buffer, tx: nat, length: nat, ghost raw: seq<byte>)
    requires |raw| == 34 + length <= 0xFFFF && length >= 20 && Shows(buf.Bytes(), tx, raw, |raw|) && tx + |raw| + 1 <= 4 * buf.words.Length
    modifies buf.words
    ensures Shows(buf.Bytes(), tx, WithTransportChecksum(WithIpChecksum(raw), 50, TCP, length), |raw|)
    ensures OnlyWithin(old(buf.Bytes()), buf.Bytes(), tx, tx + |raw| + 1)
  {
    hide View, IpComputed, TransportSum, Complement;
    var checksum := Ipv4ComputeChecksum(buf, tx, raw);
    StoreField(buf, tx, 24, checksum, 34 + length, raw);
    ghost var f := WithIpChecksum(raw);
    IpComputedFits(raw);
    assert f == Put16(raw, 24, checksum);
    checksum := TcpComputeChecksum(buf, tx, length, f);
    StoreField(buf, tx, 50, checksum, 34 + length, f);
  }

  /** The five words of the TCP header behind the source port; the last two bytes are zero. */
  method WriteTcpHeader(buf: Buffer, tx: nat, dport: half, s: word, a: word, flags: byte, ghost b: seq<byte>, ghost t0: seq<byte>)
    requires |t0| == 36 && tx + 56 <= |b| == 4 * buf.words.Length && Base(tx) <= tx && buf.Bytes() == Splice(b, Base(tx), t0)
    modifies buf.words
    ensures buf.Bytes() == Splice(b, Base(tx), t0 + U16(dport) + BigEndian(s) + BigEndian(a) + [0x50, flags, 0x72, 0x10, 0, 0, 0, 0] + [0, 0])
  {
    hide View, Splice, Base;
    ghost var t := t0;
    WriteNext(buf, tx, 36, dport / 0x100, dport % 0x100, s / 0x100_0000, s / 0x1_0000 % 0x100, b, t);
    t := t + [dport / 0x100, dport % 0x100, s / 0x100_0000, s / 0x1_0000 % 0x100];
    WriteNext(buf, tx, 40, s / 0x100 % 0x100, s % 0x100, a / 0x100_0000, a / 0x1_0000 % 0x100, b, t);
    t := t + [s / 0x100 % 0x100, s % 0x100, a / 0x100_0000, a / 0x1_0000 % 0x100];
    WriteNext(buf, tx, 44, a / 0x100 % 0x100, a % 0x100, 20 * 4, flags, b, t);
    t := t + [a / 0x100 % 0x100, a % 0x100, 20 * 4, flags];
    WriteNext(buf, tx, 48, 0x72, 0x10, 0, 0, b, t);
    t := t + [0x72, 0x10, 0, 0];
    WriteNext(buf, tx, 52, 0, 0, 0, 0, b, t);
    t := t + [0, 0, 0, 0];
    assert t == t0 + U16(dport) + BigEndian(s) + BigEndian(a) + [0x50, flags, 0x72, 0x10, 0, 0, 0, 0] + [0, 0];
  }

  function TcpFilled(raw: seq<byte>): (f: seq<byte>)
    requires 54 <= |raw| <= 0xFFFF
    ensures |f| == |raw|
  {
    WithTransportChecksum(WithIpChecksum(raw), 50, TCP, |raw| - 34)
  }

  lemma TcpShownIff(c: seq<byte>, b: seq<byte>, tx: nat, e: Ends, raw: seq<byte>)
    requires Addressed(e) && 54 <= |raw| <= 0xFFFF && tx + |raw| + 2 <= |b|
    requires raw == IpHeader(e, |raw| - 14, TCP) + raw[34..]
    requires Shows(c, tx, TcpFilled(Seen(b, tx, raw, 54)), |raw|)
    ensures Shows(c, tx, TcpFilled(raw), |raw|) <==> tx % 4 == 0
  {
    hide WithTransportChecksum, WithIpChecksum, Seen, IpHeader;
    var s := Seen(b, tx, raw, 54);
    SeenIs(b, tx, raw, 54);
    ChecksumsTouchOnlyFields(s, 50, TCP, |raw| - 34, 12);
    ChecksumsTouchOnlyFields(raw, 50, TCP, |raw| - 34, 12);
    TypeOnlyThere(e, |raw| - 14, TCP, raw[34..], 0);
    TypeOnlyThere(e, |raw| - 14, TCP, raw[34..], tx % 4);
    assert At(TcpFilled(s), 12) == c[tx + 12] == raw[12 + tx % 4];
    assert At(TcpFilled(raw), 12) == 0x08;
  }

  /** tcp_send, up to handing the frame to the controller; as with UDP, a frame only on a word boundary. */
  method TcpSend(buf: Buffer, tx: nat, e: Ends, sport: half, dport: half, seqNum: word, ackNum: word, flags: byte, data: seq<byte>)
    requires Addressed(e) && TcpFits(data) && tx + 56 + |data| <= 4 * buf.words.Length
    modifies buf.words
    ensures Shows(buf.Bytes(), tx, TcpFilled(Seen(old(buf.Bytes()), tx, TcpRaw(e, sport, dport, seqNum, ackNum, flags, data), 54)),
                  54 + |data|)
    ensures Shows(buf.Bytes(), tx, TcpFrame(e, sport, dport, seqNum, ackNum, flags, data), 54 + |data|) <==> tx % 4 == 0
    ensures OnlyWithin(old(buf.Bytes()), buf.Bytes(), Base(tx), tx + 56 + |data|)
  {
    hide View, Splice, IpHeader, U16, BigEndian, WithTransportChecksum, WithIpChecksum, TcpRaw, Base, Seen, Shows;
    ghost var b, raw := buf.Bytes(), TcpRaw(e, sport, dport, seqNum, ackNum, flags, data);
    var tcpLength := |data| + 20;
    WriteHeaders(buf, tx, e, tcpLength + 20, TCP, sport);
    ghost var t := IpHeader(e, tcpLength + 20, TCP) + U16(sport);
    BaseMoves(tx, 0);
    WriteTcpHeader(buf, tx, dport, seqNum, ackNum, flags, b, t);
    ghost var h := t + U16(dport) + BigEndian(seqNum) + BigEndian(ackNum) + [0x50, flags, 0x72, 0x10, 0, 0, 0, 0];
    WriteData(buf, tx + 54, data);
    TcpRawIs(e, sport, dport, seqNum, ackNum, flags, data, h);
    assert raw[..54] == h && raw[54..] == data;
    assert buf.Bytes() == Laid(b, tx, h, data);
    LaidShows(b, tx, raw, 54);
    FillTcpChecksums(buf, tx, tcpLength, Seen(b, tx, raw, 54));
    TcpRawStarts(e, sport, dport, seqNum, ackNum, flags, data);
    TcpShownIff(buf.Bytes(), b, tx, e, raw);
  }

  lemma TcpRawStarts(e: Ends, sport: half, dport: half, seqNum: word, ackNum: word, flags: byte, data: seq<byte>)
    requires Addressed(e) && TcpFits(data)
    ensures var r := TcpRaw(e, sport, dport, seqNum, ackNum, flags, data); r == IpHeader(e, |r| - 14, TCP) + r[34..]
  {
    hide IpHeader;
  }

  lemma TcpRawIs(e: Ends, sport: half, dport: half, seqNum: word, ackNum: word, flags: byte, data: seq<byte>, h: seq<byte>)
    requires Addressed(e) && TcpFits(data)
    requires h == IpHeader(e, |data| + 40, TCP) + U16(sport) + U16(dport) + BigEndian(seqNum) + BigEndian(ackNum) + [0x50, flags, 0x72, 0x10, 0, 0, 0, 0]
    ensures |h| == 54 && h + data == TcpRaw(e, sport, dport, seqNum, ackNum, flags, data)
  {
    hide IpHeader, U16, BigEndian;
    assert [0x50, flags, 0x72, 0x10, 0, 0, 0, 0] == [0x50, flags] + [0x72, 0x10] + [0, 0] + [0, 0];
  }
}
