/** c/ethlib/eth_patmos_io.c: bytes in a buffer of big-endian 32-bit words. */
module PacketBuffer {
  import opened Bytes

  /** Shift and mask. */
  function ByteOf(w: word, k: nat): (b: byte)
    requires k < 4
  {
    w / Lane(k) % 0x100
  }

  /** `(previous & ~mask) + (data << shift)` */
  function SetByte(w: word, k: nat, d: byte): (r: int)
    requires k < 4
  {
    w - ByteOf(w, k) * Lane(k) + d * Lane(k)
  }

  lemma ByteOfFromBytes(b0: byte, b1: byte, b2: byte, b3: byte)
    ensures var w := FromBytes(b0, b1, b2, b3);
            ByteOf(w, 0) == b0 && ByteOf(w, 1) == b1 && ByteOf(w, 2) == b2 && ByteOf(w, 3) == b3
  {
    var c0, c1, c2, c3 := b0 as int, b1 as int, b2 as int, b3 as int;
    var q := c0 * 0x100 + c1;
    var p := q * 0x100 + c2;
    var w := p * 0x100 + c3;
    assert FromBytes(b0, b1, b2, b3) == w;
    OneByteOff(c0, c1);
    OneByteOff(q, c2);
    OneByteOff(p, c3);
    ByteByByte(w);
  }

  lemma FromBytesOfWord(w: word)
    ensures w == FromBytes(ByteOf(w, 0), ByteOf(w, 1), ByteOf(w, 2), ByteOf(w, 3))
  {
    ByteByByte(w);
    FourDigits(w, w / 0x100, w / 0x1_0000, w / 0x100_0000);
  }

  lemma SetByteReplaces(w: word, k: nat, d: byte)
    requires k < 4
    ensures 0 <= SetByte(w, k, d) < 0x1_0000_0000
    ensures forall j: nat :: j < 4 ==> ByteOf(SetByte(w, k, d), j) == if j == k then d else ByteOf(w, j)
  {
    hide ByteOf;
    var b0, b1, b2, b3 := ByteOf(w, 0), ByteOf(w, 1), ByteOf(w, 2), ByteOf(w, 3);
    FromBytesOfWord(w);
    var c0 := if k == 0 then d else b0;
    var c1 := if k == 1 then d else b1;
    var c2 := if k == 2 then d else b2;
    var c3 := if k == 3 then d else b3;
    ByteOfFromBytes(c0, c1, c2, c3);
    assert SetByte(w, k, d) == FromBytes(c0, c1, c2, c3);
  }

  /** The byte view of a word sequence. */
  function View(ws: seq<word>): (b: seq<byte>)
    ensures |b| == 4 * |ws|
  {
    seq(4 * |ws|, i requires 0 <= i < 4 * |ws| => ByteOf(ws[i / 4], i % 4))
  }

  /** The first byte of a word is its most significant one. */
  lemma ViewIsBigEndian(ws: seq<word>, i: nat)
    requires i < |ws|
    ensures var b, w := View(ws), ws[i];
            && b[4 * i] == w / 0x100_0000 && b[4 * i + 1] == w / 0x1_0000 % 0x100
            && b[4 * i + 2] == w / 0x100 % 0x100 && b[4 * i + 3] == w % 0x100
  {
    hide ByteOf;
    Places(i);
    ByteOfIs(ws[i]);
  }

  lemma ByteOfIs(w: word)
    ensures ByteOf(w, 0) == w / 0x100_0000 && ByteOf(w, 1) == w / 0x1_0000 % 0x100
    ensures ByteOf(w, 2) == w / 0x100 % 0x100 && ByteOf(w, 3) == w % 0x100
  {
    assert w / 0x100_0000 < 0x100;
  }

  lemma Places(i: nat)
    ensures 4 * i / 4 == i && (4 * i + 1) / 4 == i && (4 * i + 2) / 4 == i && (4 * i + 3) / 4 == i
    ensures 4 * i % 4 == 0 && (4 * i + 1) % 4 == 1 && (4 * i + 2) % 4 == 2 && (4 * i + 3) % 4 == 3
  {
  }

  lemma ViewSetByte(ws: seq<word>, a: nat, d: byte)
    requires a < 4 * |ws|
    ensures 0 <= SetByte(ws[a / 4], a % 4, d) < 0x1_0000_0000
    ensures View(ws[a / 4 := SetByte(ws[a / 4], a % 4, d)]) == View(ws)[a := d]
  {
    hide ByteOf, SetByte;
    SetByteReplaces(ws[a / 4], a % 4, d);
    var l, r := View(ws[a / 4 := SetByte(ws[a / 4], a % 4, d)]), View(ws)[a := d];
    forall i | 0 <= i < |l| ensures l[i] == r[i] {
      if i / 4 == a / 4 && i % 4 == a % 4 { assert i == a; }
    }
  }

  /** Four bytes of a packet. */
  function SetWord(b: seq<byte>, a: nat, w: word): (r: seq<byte>)
    requires a + 4 <= |b|
    ensures |r| == |b|
  {
    b[a := ByteOf(w, 0)][a + 1 := ByteOf(w, 1)][a + 2 := ByteOf(w, 2)][a + 3 := ByteOf(w, 3)]
  }

  lemma ViewSetWord(ws: seq<word>, a: nat, w: word)
    requires a < 4 * |ws| && a % 4 == 0
    ensures View(ws[a / 4 := w]) == SetWord(View(ws), a, w)
  {
    hide ByteOf;
    var l, r := View(ws[a / 4 := w]), SetWord(View(ws), a, w);
    forall i | 0 <= i < |l| ensures l[i] == r[i] {
      if i / 4 == a / 4 { assert i == a + i % 4; }
    }
  }

  class Buffer {
    const words: array<word>

    ghost function Bytes(): (b: seq<byte>)
      reads words
      ensures |b| == 4 * words.Length
    {
      View(words[..])
    }

    constructor (words: array<word>)
      ensures this.words == words
    {
      this.words := words;
    }

    /** mem_iowr: the two low address bits are dropped. */
    method Iowr(addr: nat, data: word)
      requires addr < 4 * words.Length
      modifies words
      ensures Bytes() == SetWord(old(Bytes()), addr / 4 * 4, data)
    {
      ghost var was := words[..];
      words[addr / 4] := data;
      assert words[..] == was[addr / 4 := data];
      ViewSetWord(was, addr / 4 * 4, data);
    }

    /** mem_iord: the two low address bits are dropped. */
    method Iord(addr: nat) returns (w: word)
      requires addr < 4 * words.Length
      ensures var a := addr / 4 * 4; var b := Bytes(); w == FromBytes(b[a], b[a + 1], b[a + 2], b[a + 3])
    {
      hide ByteOf;
      w := words[addr / 4];
      FromBytesOfWord(w);
    }

    /** mem_iowr_byte: only the low eight bits of the data count. */
    method IowrByte(addr: nat, data: nat)
      requires addr < 4 * words.Length
      modifies words
      ensures Bytes() == old(Bytes())[addr := data % 0x100]
    {
      hide SetByte, ByteOf;
      ghost var was := words[..];
      ViewSetByte(was, addr, data % 0x100);
      words[addr / 4] := SetByte(words[addr / 4], addr % 4, data % 0x100);
      assert words[..] == was[addr / 4 := SetByte(was[addr / 4], addr % 4, data % 0x100)];
    }

    /** mem_iord_byte */
    method IordByte(addr: nat) returns (b: byte)
      requires addr < 4 * words.Length
      ensures b == Bytes()[addr]
    {
      hide ByteOf;
      b := ByteOf(words[addr / 4], addr % 4);
    }
  }
}
