/** c/ethlib/udp.c, tcp.c and ipv4.c: reading fields and payload out of the packet buffer. The UDP getters and one
    TCP getter read whole words, whose address loses its two low bits. */
module Getters {
  import opened Bytes
  import opened Frames
  import opened PacketBuffer
  import opened Senders
  import opened Splices

  // ----------------------------------------------------------------------------- UDP

  /** On a word boundary the field itself; otherwise pkt % 4 bytes before it. */
  method UdpGetSourcePort(buf: Buffer, pkt: nat, ghost f: seq<byte>) returns (v: half)
    requires |f| >= 42 && Shows(buf.Bytes(), pkt, f, |f|)
    ensures v == Get16(f, 34 - pkt % 4)
  {
    v := LowHalf(buf, pkt, 34, f);
  }

  method UdpGetDestinationPort(buf: Buffer, pkt: nat, ghost f: seq<byte>) returns (v: half)
    requires |f| >= 42 && Shows(buf.Bytes(), pkt, f, |f|)
    ensures v == Get16(f, 36 - pkt % 4)
  {
    v := HighHalf(buf, pkt, 36, f);
  }

  method UdpGetPacketLength(buf: Buffer, pkt: nat, ghost f: seq<byte>) returns (v: half)
    requires |f| >= 42 && Shows(buf.Bytes(), pkt, f, |f|)
    ensures v == Get16(f, 38 - pkt % 4)
  {
    v := LowHalf(buf, pkt, 38, f);
  }

  method UdpGetChecksum(buf: Buffer, pkt: nat, ghost f: seq<byte>) returns (v: half)
    requires |f| >= 42 && Shows(buf.Bytes(), pkt, f, |f|)
    ensures v == Get16(f, 40 - pkt % 4)
  {
    v := HighHalf(buf, pkt, 40, f);
  }

  /** In 16 bits: a length field below the header size wraps. */
  method UdpGetDataLength(buf: Buffer, pkt: nat, ghost f: seq<byte>) returns (v: half)
    requires |f| >= 42 && Shows(buf.Bytes(), pkt, f, |f|)
    ensures v == (Get16(f, 38 - pkt % 4) - 8) % 0x1_0000
  {
    var n := UdpGetPacketLength(buf, pkt, f);
    v := (n as int - 8) % 0x1_0000;
  }

  /** The word-reading getters return their field, for every frame, exactly on word boundaries; tcp_get_checksum exactly
      two bytes behind one. */
  lemma WordGettersRightIff(pkt: nat)
    ensures Reads(34 - pkt % 4, 34) <==> pkt % 4 == 0
    ensures Reads(36 - pkt % 4, 36) <==> pkt % 4 == 0
    ensures Reads(38 - pkt % 4, 38) <==> pkt % 4 == 0
    ensures Reads(40 - pkt % 4, 40) <==> pkt % 4 == 0
    ensures Reads(50 - (pkt + 2) % 4, 50) <==> pkt % 4 == 2
  {
    ReadsIff(34 - pkt % 4, 34);
    ReadsIff(36 - pkt % 4, 36);
    ReadsIff(38 - pkt % 4, 38);
    ReadsIff(40 - pkt % 4, 40);
    ReadsIff(50 - (pkt + 2) % 4, 50);
  }

  /** What stands at byte b is the field at byte a in every frame. */
  ghost predicate Reads(b: nat, a: nat) {
    forall f: seq<byte> :: |f| >= a + 2 && |f| >= b + 2 ==> Get16(f, b) == Get16(f, a)
  }

  lemma ReadsIff(b: nat, a: nat)
    requires b <= a
    ensures Reads(b, a) <==> b == a
  {
    if b != a {
      var f: seq<byte> := seq(a + 2, i => if i == a + 1 then 1 else 0);
      assert Get16(f, b) != Get16(f, a);
    }
  }

  /** A copy loop out of the buffer, as for addresses and payload, to place at of some memory. */
  method CopyOut(buf: Buffer, pkt: nat, a: nat, n: nat, mem: array<byte>, at: nat, ghost f: seq<byte>)
    requires a + n <= |f| && at + n <= mem.Length && Shows(buf.Bytes(), pkt, f, |f|) && mem as object != buf.words
    modifies mem
    ensures mem[..] == Splice(old(mem[..]), at, f[a..a + n]) && buf.Bytes() == old(buf.Bytes())
  {
    hide View, Splice;
    ghost var b, was := buf.Bytes(), mem[..];
    SpliceNone(was, at);
    assert f[a..a + 0] == [];
    for i := 0 to n
      invariant buf.Bytes() == b && mem[..] == Splice(was, at, f[a..a + i])
    {
      var v := buf.IordByte(pkt + a + i);
      assert v == b[pkt + (a + i)] == At(f, a + i);
      mem[at + i] := v;
      SpliceOne(was, at, f[a..a + i], v);
      assert f[a..a + i] + [v] == f[a..a + i + 1];
    }
  }

  method UdpGetData(buf: Buffer, pkt: nat, data: array<byte>, n: nat, ghost f: seq<byte>)
    requires 42 + n <= |f| && n <= data.Length && Shows(buf.Bytes(), pkt, f, |f|) && data as object != buf.words
    modifies data
    ensures data[..n] == f[42..42 + n] && data[n..] == old(data[n..]) && buf.Bytes() == old(buf.Bytes())
  {
    CopyOut(buf, pkt, 42, n, data, 0, f);
  }

  method Ipv4GetSourceIp(buf: Buffer, pkt: nat, ip: array<byte>, ghost f: seq<byte>)
    requires |f| >= 34 && ip.Length == 4 && Shows(buf.Bytes(), pkt, f, |f|) && ip as object != buf.words
    modifies ip
    ensures ip[..] == f[26..30] && buf.Bytes() == old(buf.Bytes())
  {
    CopyOut(buf, pkt, 26, 4, ip, 0, f);
    assert ip[..4] == ip[..];
  }

  method Ipv4GetDestinationIp(buf: Buffer, pkt: nat, ip: array<byte>, ghost f: seq<byte>)
    requires |f| >= 34 && ip.Length == 4 && Shows(buf.Bytes(), pkt, f, |f|) && ip as object != buf.words
    modifies ip
    ensures ip[..] == f[30..34] && buf.Bytes() == old(buf.Bytes())
  {
    CopyOut(buf, pkt, 30, 4, ip, 0, f);
    assert ip[..4] == ip[..];
  }

  /** Whatever is sent from a word boundary is read back by the getters. */
  method UdpSendThenGet(buf: Buffer, tx: nat, e: Ends, sport: half, dport: half, data: seq<byte>, copy: array<byte>)
    returns (source: half, destination: half, length: half)
    requires Addressed(e) && UdpFits(data) && tx + 44 + |data| <= 4 * buf.words.Length
    requires copy.Length >= |data| && copy as object != buf.words
    modifies buf.words, copy
    ensures source == sport && destination == dport && length == |data| && copy[..length] == data
  {
    hide View, Shows, UdpFrame, Get16, UdpFilled, Seen, UdpRaw;
    ghost var f := UdpFilled(Seen(buf.Bytes(), tx, UdpRaw(e, sport, dport, data), 42));
    UdpSent(buf.Bytes(), tx, e, sport, dport, data);
    UdpSendMac(buf, tx, e, sport, dport, data);
    source := UdpGetSourcePort(buf, tx, f);
    destination := UdpGetDestinationPort(buf, tx, f);
    length := UdpGetDataLength(buf, tx, f);
    UdpGetData(buf, tx, copy, length, f);
    assert f[42..42 + |data|] == f[42..];
  }

  // ----------------------------------------------------------------------------- TCP

  method Read16(buf: Buffer, pkt: nat, a: nat, ghost f: seq<byte>) returns (v: half)
    requires a + 2 <= |f| && Shows(buf.Bytes(), pkt, f, |f|)
    ensures v == Get16(f, a)
  {
    hide View;
    var hi := buf.IordByte(pkt + a);
    var lo := buf.IordByte(pkt + (a + 1));
    assert hi == At(f, a) && lo == At(f, a + 1);
    v := hi as int * 0x100 + lo as int;
  }

  method Read32(buf: Buffer, pkt: nat, a: nat, ghost f: seq<byte>) returns (v: word)
    requires a + 4 <= |f| && Shows(buf.Bytes(), pkt, f, |f|)
    ensures v == Get32(f, a)
  {
    hide View;
    var b0 := buf.IordByte(pkt + a);
    var b1 := buf.IordByte(pkt + (a + 1));
    var b2 := buf.IordByte(pkt + (a + 2));
    var b3 := buf.IordByte(pkt + (a + 3));
    assert b0 == At(f, a) && b1 == At(f, a + 1) && b2 == At(f, a + 2) && b3 == At(f, a + 3);
    v := b0 as int * 0x100_0000 + b1 as int * 0x1_0000 + b2 as int * 0x100 + b3 as int;
  }

  method TcpGetHeaderLength(buf: Buffer, pkt: nat, ghost f: seq<byte>) returns (v: byte)
    requires |f| >= 54 && Shows(buf.Bytes(), pkt, f, |f|)
    ensures v == f[46] / 4
  {
    hide View;
    var b := buf.IordByte(pkt + 46);
    assert b == At(f, 46);
    v := b / 4;
  }

  method TcpGetFlags(buf: Buffer, pkt: nat, ghost f: seq<byte>) returns (v: byte)
    requires |f| >= 54 && Shows(buf.Bytes(), pkt, f, |f|)
    ensures v == f[47]
  {
    hide View;
    v := buf.IordByte(pkt + 47);
    assert v == At(f, 47);
  }

  /** In 16 bits. */
  method TcpGetDataLength(buf: Buffer, pkt: nat, ghost f: seq<byte>) returns (v: half)
    requires |f| >= 54 && Shows(buf.Bytes(), pkt, f, |f|)
    ensures v == TcpDataLength(f) % 0x1_0000 == (f[16] as int * 0x100 + f[17] - 20 - f[46] / 4) % 0x1_0000
  {
    var n := Read16(buf, pkt, 16, f);
    var h := TcpGetHeaderLength(buf, pkt, f);
    v := (n as int - 20 - h as int) % 0x1_0000;
  }

  /** tcp_get_checksum reads the aligned word around byte 50: the checksum only where the packet starts two bytes
      behind a word boundary, on a word boundary the window field before it. */
  method TcpGetChecksum(buf: Buffer, pkt: nat, ghost f: seq<byte>) returns (v: half)
    requires |f| >= 54 && Shows(buf.Bytes(), pkt, f, |f|)
    ensures v == Get16(f, 50 - (pkt + 2) % 4)
  {
    v := HighHalf(buf, pkt, 50, f);
  }

  /** tcp_get_data into the caller's array at place at of memory: it writes as many bytes as the headers announce,
      whatever room the caller states. */
  method TcpGetData(buf: Buffer, pkt: nat, mem: array<byte>, at: nat, room: nat, ghost f: seq<byte>) returns (n: nat)
    requires |f| >= 54 && Shows(buf.Bytes(), pkt, f, |f|) && mem as object != buf.words
    requires 34 + f[46] / 4 + TcpDataLength(f) % 0x1_0000 <= |f| && at + TcpDataLength(f) % 0x1_0000 <= mem.Length
    modifies mem
    ensures n == TcpDataLength(f) % 0x1_0000
    ensures mem[..] == Splice(old(mem[..]), at, f[34 + f[46] / 4..34 + f[46] / 4 + n]) && buf.Bytes() == old(buf.Bytes())
  {
    hide View, TcpDataLength;
    n := TcpGetDataLength(buf, pkt, f);
    var h := TcpGetHeaderLength(buf, pkt, f);
    CopyOut(buf, pkt, 34 + h as int, n, mem, at, f);
  }

  /** So the bytes behind the stated room survive every memory and payload if and only if the headers announce no more
      than that. */
  lemma StaysInRoomIff(n: nat, room: nat)
    ensures n <= room <==>
            forall m: seq<byte>, at: nat, data: seq<byte> ::
              |data| == n && at + n <= |m| && at + room <= |m| ==> Behind(Splice(m, at, data), at + room) == Behind(m, at + room)
  {
    if n <= room {
      forall m: seq<byte>, at: nat, data: seq<byte> | |data| == n && at + n <= |m| && at + room <= |m|
        ensures Behind(Splice(m, at, data), at + room) == Behind(m, at + room)
      {
      }
    } else {
      var m: seq<byte> := seq(n, _ => 0);
      var data: seq<byte> := seq(n, _ => 1);
      assert Behind(Splice(m, 0, data), 0 + room)[0] == 1 && Behind(m, 0 + room)[0] == 0;
    }
  }

  function Behind(m: seq<byte>, a: nat): seq<byte> {
    if a <= |m| then m[a..] else []
  }

  method TcpSendThenGet(buf: Buffer, tx: nat, e: Ends, sport: half, dport: half, seqNum: word, ackNum: word, flags: byte,
                        data: seq<byte>, copy: array<byte>)
    returns (source: half, destination: half, s: word, a: word, fl: byte, length: nat, checksum: half)
    requires Addressed(e) && TcpFits(data) && tx % 4 == 0 && tx + 56 + |data| <= 4 * buf.words.Length
    requires copy.Length >= |data| && copy as object != buf.words
    modifies buf.words, copy
    ensures source == sport && destination == dport && s == seqNum && a == ackNum && fl == flags
    ensures length == |data| && copy[..length] == data && checksum == 0x7210
  {
    hide View, Shows, TcpFrame, Get16, Get32, TcpFilled, Seen, TcpRaw, OnlyWithin, Base, Splice;
    ghost var was := copy[..];
    ghost var f := TcpFrame(e, sport, dport, seqNum, ackNum, flags, data);
    TcpSend(buf, tx, e, sport, dport, seqNum, ackNum, flags, data);
    TcpGettersInvert(e, sport, dport, seqNum, ackNum, flags, data);
    source := Read16(buf, tx, 34, f);
    destination := Read16(buf, tx, 36, f);
    s := Read32(buf, tx, 38, f);
    a := Read32(buf, tx, 42, f);
    fl := TcpGetFlags(buf, tx, f);
    checksum := TcpGetChecksum(buf, tx, f);
    length := TcpGetData(buf, tx, copy, 0, copy.Length, f);
    assert f[54..54 + |data|] == f[54..];
    SpliceAtFront(was, f[54..]);
    assert copy[..length] == copy[..][..length];
  }
}
