/** c/ethlib/icmp.c: answering a ping in place or into another buffer. */
module Icmp {
  import opened Bytes
  import opened Checksum
  import opened Frames
  import opened PacketBuffer
  import opened Senders

  /** Our own link and network address. */
  datatype Host = Host(mac: seq<byte>, ip: seq<byte>)

  predicate Proper(h: Host) {
    |h.mac| == 6 && |h.ip| == 4
  }

  function IcmpSum(f: seq<byte>): nat
    requires |f| >= 34
  {
    Sum16(f, 34, (|f| - 34 + 1) / 2)
  }

  /** `~((~checksum) - 0x0800)` in 16 bits: no end-around carry. */
  function Adjusted(checksum: half): half {
    (checksum + 0x0800) % 0x1_0000
  }

  /** Link addresses, then network addresses, then the type, then the checksum. */
  function Readdressed(f: seq<byte>, h: Host): (r: seq<byte>)
    requires |f| >= 42 && Proper(h)
    ensures |r| == |f|
  {
    f[6..12] + h.mac + f[12..26] + h.ip + f[26..30] + f[34..]
  }

  function Reply(f: seq<byte>, h: Host): (r: seq<byte>)
    requires |f| >= 42 && Proper(h)
    ensures |r| == |f|
  {
    Put16(Readdressed(f, h)[34 := 0], 36, Adjusted(Get16(f, 36)))
  }

  lemma ReaddressedBytes(f: seq<byte>, h: Host)
    requires |f| >= 42 && Proper(h)
    ensures var r := Readdressed(f, h);
            && (forall i :: 12 <= i < 26 || 34 <= i < |f| ==> r[i] == f[i])
            && r[..6] == f[6..12] && r[6..12] == h.mac && r[26..30] == h.ip && r[30..34] == f[26..30]
  {
  }

  predicate SameBytes(f: seq<byte>, r: seq<byte>, lo: nat, hi: nat) {
    forall i: nat :: lo <= i < hi ==> At(r, i) == At(f, i)
  }

  lemma ReplyBytes(f: seq<byte>, h: Host)
    requires |f| >= 42 && Proper(h)
    ensures var r := Reply(f, h);
            && SameBytes(f, r, 12, 26) && SameBytes(f, r, 35, 36) && (forall n: nat :: SameBytes(f, r, 38, n))
            && r[..6] == f[6..12] && r[6..12] == h.mac && r[26..30] == h.ip && r[30..34] == f[26..30]
            && At(r, 34) == 0 && WordAt(r, 36) == (f[36] as int * 0x100 + f[37] + 0x0800) % 0x1_0000
  {
    hide Readdressed;
    ReaddressedBytes(f, h);
    var q, r := Readdressed(f, h), Reply(f, h);
    assert r[26..30] == q[26..30] && r[30..34] == q[30..34] && r[..6] == q[..6] && r[6..12] == q[6..12];
  }

  /** The addresses change places, so the header sum, and with it the checksum that nobody
      recomputes, stays right. */
  lemma ReplyKeepsIpSum(f: seq<byte>, h: Host)
    requires |f| >= 42 && Proper(h) && f[30..34] == h.ip
    ensures IpSum(Reply(f, h)) == IpSum(f)
  {
    hide Reply, Sum16, WordAt, At, Get16, Adjusted;
    var r := Reply(f, h);
    ReplyBytes(f, h);
    SumSplit(f, 14, 6, 4);
    SumSplit(r, 14, 6, 4);
    SumCong(f, r, 14, 6);
    FourWords(f, 26);
    FourWords(r, 26);
    WordsOfSlice(r, 26, f, 30);
    WordsOfSlice(r, 30, f, 26);
  }

  /** Equal four-byte slices hold equal words. */
  lemma WordsOfSlice(b: seq<byte>, a: nat, d: seq<byte>, c: nat)
    requires a + 4 <= |b| && c + 4 <= |d| && b[a..a + 4] == d[c..c + 4]
    ensures WordAt(b, a) == WordAt(d, c) && WordAt(b, a + 2) == WordAt(d, c + 2)
  {
    var s := b[a..a + 4];
    assert s[0] == b[a] && s[1] == b[a + 1] && s[2] == b[a + 2] && s[3] == b[a + 3];
    assert s[0] == d[c] && s[1] == d[c + 1] && s[2] == d[c + 2] && s[3] == d[c + 3];
  }

  lemma FourWords(b: seq<byte>, a: nat)
    ensures Sum16(b, a, 4) == WordAt(b, a) + WordAt(b, a + 2) + WordAt(b, a + 4) + WordAt(b, a + 6)
  {
    hide WordAt;
    SumSplit(b, a, 1, 3);
    SumSplit(b, a + 2, 1, 2);
    SumSplit(b, a + 4, 1, 1);
    SumOfOne(b, a);
    SumOfOne(b, a + 2);
    SumOfOne(b, a + 4);
    SumOfOne(b, a + 6);
  }

  /** The reply's sum: 0x0800 leaves with the type and comes back with the checksum, except that
      the 16-bit addition may drop a carry. */
  lemma ReplySum(f: seq<byte>, h: Host)
    requires |f| >= 42 && Proper(h) && f[34] == 0x08
    ensures var c := Get16(f, 36);
            IcmpSum(Reply(f, h)) == IcmpSum(f) - (if c < 0xF800 then 0 else 0x1_0000)
    ensures IcmpSum(f) >= Get16(f, 36) + 0x0800
  {
    hide Reply, Sum16;
    var r, n := Reply(f, h), (|f| - 34 + 1) / 2;
    ReplyBytes(f, h);
    SumSplit(f, 34, 2, n - 2);
    SumSplit(r, 34, 2, n - 2);
    assert SameBytes(f, r, 38, 38 + 2 * (n - 2));
    SumCong(f, r, 38, n - 2);
    TwoWords(f, 34);
    TwoWords(r, 34);
    assert At(r, 35) == At(f, 35);
  }

  lemma TwoWords(b: seq<byte>, a: nat)
    ensures Sum16(b, a, 2) == WordAt(b, a) + WordAt(b, a + 2)
  {
    hide WordAt;
    SumSplit(b, a, 1, 1);
    SumOfOne(b, a);
    SumOfOne(b, a + 2);
  }

  /** The reply to a correct request is correct if and only if the request's checksum field is
      below 0xF800: adding 0x0800 then needs no end-around carry (compare section 3 of
      RFC 1624). */
  lemma ReplyIsRightIff(f: seq<byte>, h: Host)
    requires 42 <= |f| <= 0xFFFF + 14 && Proper(h) && f[34] == 0x08 && SumsToOnes(IcmpSum(f))
    ensures SumsToOnes(IcmpSum(Reply(f, h))) <==> Get16(f, 36) < 0xF800
  {
    hide Reply, Sum16, SumsToOnes, Get16;
    ReplySum(f, h);
    IcmpBound(f);
    IcmpBound(Reply(f, h));
    OnesIffMultiple(IcmpSum(f));
    OnesIffMultiple(IcmpSum(Reply(f, h)));
    LostCarry(IcmpSum(f));
  }

  lemma IcmpBound(f: seq<byte>)
    requires 42 <= |f| <= 0xFFFF + 14
    ensures IcmpSum(f) < 0x1_0000_0000
  {
    hide Sum16;
    var n := (|f| - 34 + 1) / 2;
    assert n * 0xFFFF <= 0x8000 * 0xFFFF;
  }

  lemma LostCarry(c: nat)
    requires c % 0xFFFF == 0
    ensures c >= 0x1_0000 ==> (c - 0x1_0000) % 0xFFFF != 0
  {
    if c >= 0x1_0000 {
      var q := c / 0xFFFF;
      assert c - 0x1_0000 == (q - 2) * 0xFFFF + 0xFFFE;
      RemainderOf(q - 2, 0xFFFE);
    }
  }

  /** Such requests exist: a correct echo request from 10.0.0.2 to 10.0.0.1 whose checksum is 0xF800 is answered wrongly. */
  lemma SomeReplyIsWrong() returns (f: seq<byte>, h: Host)
    ensures |f| == 42 && |f| == 14 + Get16(f, 16) && Proper(h) && f[34] == 0x08 && f[30..34] == h.ip
    ensures SumsToOnes(IpSum(f)) && SumsToOnes(IcmpSum(f)) && !SumsToOnes(IcmpSum(Reply(f, h)))
  {
    hide SumsToOnes, IpSum, IcmpSum;
    h := Host([2, 0, 0, 0, 0, 1], [10, 0, 0, 1]);
    f := [2, 0, 0, 0, 0, 1, 2, 0, 0, 0, 0, 2, 0x08, 0x00]
         + [0x45, 0, 0, 28, 0, 0, 0, 0, 64, 1, 0x66, 0xDF, 10, 0, 0, 2, 10, 0, 0, 1]
         + [0x08, 0, 0xF8, 0, 0xFF, 0xFE, 0, 0];
    assert f[30..34] == h.ip;
    RequestHeader(f);
    RequestEcho(f);
    ReplyIsRightIff(f, h);
  }

  lemma RequestHeader(f: seq<byte>)
    requires |f| >= 34 && f[14..34] == [0x45, 0, 0, 28, 0, 0, 0, 0, 64, 1, 0x66, 0xDF, 10, 0, 0, 2, 10, 0, 0, 1]
    ensures SumsToOnes(IpSum(f))
  {
    hide SumsToOnes;
    var g := f[14..34];
    forall i | 14 <= i < 34 ensures f[i] == g[i - 14] { }
    SumSplit(f, 14, 2, 8);
    SumSplit(f, 18, 2, 6);
    SumSplit(f, 22, 2, 4);
    SumSplit(f, 26, 2, 2);
    TwoWords(f, 14);
    TwoWords(f, 18);
    TwoWords(f, 22);
    TwoWords(f, 26);
    TwoWords(f, 30);
    assert IpSum(f) == 0xFFFF;
    OnesIffMultiple(IpSum(f));
  }

  lemma RequestEcho(f: seq<byte>)
    requires |f| == 42 && f[34..] == [0x08, 0, 0xF8, 0, 0xFF, 0xFE, 0, 0]
    ensures SumsToOnes(IcmpSum(f))
  {
    hide SumsToOnes;
    var g := f[34..];
    forall i | 34 <= i < 42 ensures f[i] == g[i - 34] { }
    TwoWords(f, 34);
    TwoWords(f, 38);
    SumSplit(f, 34, 2, 2);
    assert IcmpSum(f) == 0x0800 + 0xF800 + 0xFFFE;
    OnesIffMultiple(IcmpSum(f));
  }

  // ------------------------------------------------------------------- the code

  method StoreByte(buf: Buffer, pkt: nat, a: nat, v: byte, ghost f: seq<byte>)
    requires a < |f| && Shows(buf.Bytes(), pkt, f, |f|)
    modifies buf.words
    ensures Shows(buf.Bytes(), pkt, f[a := v], |f|) && OnlyWithin(old(buf.Bytes()), buf.Bytes(), pkt, pkt + |f|)
  {
    hide View;
    ghost var b := buf.Bytes();
    buf.IowrByte(pkt + a, v);
    assert v % 0x100 == v;
    ghost var g := f[a := v];
    forall i: nat | i < |f| ensures buf.Bytes()[pkt + i] == At(g, i) {
      assert b[pkt + i] == At(f, i);
    }
  }

  method LoadByte(buf: Buffer, pkt: nat, a: nat, ghost f: seq<byte>) returns (v: byte)
    requires a < |f| && Shows(buf.Bytes(), pkt, f, |f|)
    ensures v == f[a]
  {
    hide View;
    v := buf.IordByte(pkt + a);
    assert v == At(f, a);
  }

  predicate Apart(rx: nat, tx: nat, n: nat) {
    rx + n <= tx || tx + n <= rx
  }

  /** Copies the whole frame to another place. */
  method CopyFrame(buf: Buffer, rx: nat, tx: nat, n: nat, ghost f: seq<byte>)
    requires n == |f| && Shows(buf.Bytes(), rx, f, n) && tx + n <= 4 * buf.words.Length && Apart(rx, tx, n)
    modifies buf.words
    ensures Shows(buf.Bytes(), tx, f, n) && OnlyWithin(old(buf.Bytes()), buf.Bytes(), tx, tx + n)
  {
    hide View, At;
    AtInside(f);
    ghost var b := buf.Bytes();
    var i := 0;
    while i < n
      invariant 0 <= i <= n && OnlyWithin(b, buf.Bytes(), tx, tx + n)
      invariant forall k: nat :: k < i ==> buf.Bytes()[tx + k] == f[k]
    {
      var v := buf.IordByte(rx + i);
      assert v == b[rx + i] == f[i];
      buf.IowrByte(tx + i, v);
      assert v % 0x100 == v;
      i := i + 1;
    }
  }

  lemma AtInside(f: seq<byte>)
    ensures forall i: nat :: i < |f| ==> At(f, i) == f[i]
  {
  }

  /** One turn of each swap loop. */
  function MacSwapped(f: seq<byte>, mac: seq<byte>, i: nat): (r: seq<byte>)
    requires |f| >= 42 && |mac| == 6 && i <= 6
    ensures |r| == |f|
  {
    f[6..6 + i] + f[i..6] + mac[..i] + f[6 + i..]
  }

  lemma MacSwapStep(f: seq<byte>, mac: seq<byte>, i: nat)
    requires |f| >= 42 && |mac| == 6 && i < 6
    ensures var g := MacSwapped(f, mac, i); g[6 + i] == f[6 + i] && g[i := g[6 + i]][6 + i := mac[i]] == MacSwapped(f, mac, i + 1)
    ensures MacSwapped(f, mac, 0) == f
  {
  }

  function IpSwapped(f: seq<byte>, ip: seq<byte>, i: nat): (r: seq<byte>)
    requires |f| >= 42 && |ip| == 4 && i <= 4
    ensures |r| == |f|
  {
    f[..26] + ip[..i] + f[26 + i..30] + f[26..26 + i] + f[30 + i..]
  }

  lemma IpSwapStep(f: seq<byte>, ip: seq<byte>, i: nat)
    requires |f| >= 42 && |ip| == 4 && i < 4
    ensures var g := IpSwapped(f, ip, i); g[26 + i] == f[26 + i] && g[30 + i := g[26 + i]][26 + i := ip[i]] == IpSwapped(f, ip, i + 1)
    ensures IpSwapped(f, ip, 0) == f
  {
  }

  lemma SwapsReaddress(f: seq<byte>, h: Host)
    requires |f| >= 42 && Proper(h)
    ensures IpSwapped(MacSwapped(f, h.mac, 6), h.ip, 4) == Readdressed(f, h)
  {
  }

  method SwapAddresses(buf: Buffer, tx: nat, h: Host, ghost f: seq<byte>)
    requires |f| >= 42 && Proper(h) && Shows(buf.Bytes(), tx, f, |f|)
    modifies buf.words
    ensures Shows(buf.Bytes(), tx, Readdressed(f, h), |f|) && OnlyWithin(old(buf.Bytes()), buf.Bytes(), tx, tx + |f|)
  {
    hide View, Shows, MacSwapped, IpSwapped, Readdressed;
    MacSwapStep(f, h.mac, 0);
    for i := 0 to 6
      invariant Shows(buf.Bytes(), tx, MacSwapped(f, h.mac, i), |f|) && OnlyWithin(old(buf.Bytes()), buf.Bytes(), tx, tx + |f|)
    {
      ghost var g := MacSwapped(f, h.mac, i);
      MacSwapStep(f, h.mac, i);
      var v := LoadByte(buf, tx, 6 + i, g);
      StoreByte(buf, tx, i, v, g);
      StoreByte(buf, tx, 6 + i, h.mac[i], g[i := v]);
    }
    ghost var m := MacSwapped(f, h.mac, 6);
    IpSwapStep(m, h.ip, 0);
    for i := 0 to 4
      invariant Shows(buf.Bytes(), tx, IpSwapped(m, h.ip, i), |f|) && OnlyWithin(old(buf.Bytes()), buf.Bytes(), tx, tx + |f|)
    {
      ghost var g := IpSwapped(m, h.ip, i);
      IpSwapStep(m, h.ip, i);
      var v := LoadByte(buf, tx, 26 + i, g);
      StoreByte(buf, tx, 30 + i, v, g);
      StoreByte(buf, tx, 26 + i, h.ip[i], g[30 + i := v]);
    }
    SwapsReaddress(f, h);
  }

  /** icmp_build_ping_reply, in place or into a separate buffer. */
  method BuildPingReply(buf: Buffer, rx: nat, tx: nat, h: Host, ghost f: seq<byte>) returns (frameLength: nat)
    requires 42 <= |f| == 14 + Get16(f, 16) && Proper(h) && Shows(buf.Bytes(), rx, f, |f|)
    requires rx == tx || (Apart(rx, tx, |f|) && tx + |f| <= 4 * buf.words.Length)
    modifies buf.words
    ensures frameLength == |f|
    ensures Shows(buf.Bytes(), tx, Reply(f, h), |f|) && OnlyWithin(old(buf.Bytes()), buf.Bytes(), tx, tx + |f|)
  {
    hide View, Shows, Readdressed;
    var hi := LoadByte(buf, rx, 16, f);
    var lo := LoadByte(buf, rx, 17, f);
    frameLength := 14 + (hi as int * 0x100 + lo as int);
    if rx != tx {
      CopyFrame(buf, rx, tx, frameLength, f);
    }
    SwapAddresses(buf, tx, h, f);
    ghost var g := Readdressed(f, h);
    ReaddressedBytes(f, h);
    StoreByte(buf, tx, 34, 0x00, g);
    g := g[34 := 0];
    var chi := LoadByte(buf, tx, 36, g);
    var clo := LoadByte(buf, tx, 37, g);
    var checksum := Adjusted(chi as int * 0x100 + clo as int);
    StoreByte(buf, tx, 36, checksum / 0x100, g);
    StoreByte(buf, tx, 37, checksum % 0x100, g[36 := checksum / 0x100]);
  }

  /** icmp_process_received: answers exactly the echo requests addressed to us. */
  method ProcessReceived(buf: Buffer, rx: nat, tx: nat, h: Host, ghost f: seq<byte>) returns (answered: bool)
    requires 42 <= |f| == 14 + Get16(f, 16) && Proper(h) && Shows(buf.Bytes(), rx, f, |f|)
    requires rx == tx || (Apart(rx, tx, |f|) && tx + |f| <= 4 * buf.words.Length)
    modifies buf.words
    ensures answered <==> f[34] == 0x08 && f[30..34] == h.ip
    ensures if answered then Shows(buf.Bytes(), tx, Reply(f, h), |f|) else buf.Bytes() == old(buf.Bytes())
  {
    hide View, Shows, Reply;
    answered := false;
    var kind := LoadByte(buf, rx, 34, f);
    if kind == 0x08 {
      var d0 := LoadByte(buf, rx, 30, f);
      var d1 := LoadByte(buf, rx, 31, f);
      var d2 := LoadByte(buf, rx, 32, f);
      var d3 := LoadByte(buf, rx, 33, f);
      assert f[30..34] == [d0, d1, d2, d3];
      if d0 == h.ip[0] && d1 == h.ip[1] && d2 == h.ip[2] && d3 == h.ip[3] {
        assert h.ip == [d0, d1, d2, d3];
        var n := BuildPingReply(buf, rx, tx, h, f);
        answered := true;
      }
    }
  }
}
