/** c/bootloader/download.c: what the bytes on the line mean, place by place, for a program of one section in one
    packet. */
module LineFormat {
  import opened Bytes
  import opened Crc32
  import opened Download

  /** The four bytes from i on, most significant first. */
  function Word(bs: seq<byte>, i: nat): word
    requires i + 4 <= |bs|
  {
    bs[i] as int * 0x100_0000 + bs[i + 1] as int * 0x1_0000 + bs[i + 2] as int * 0x100 + bs[i + 3] as int
  }

  lemma WordIs(bs: seq<byte>, i: nat)
    requires i + 4 <= |bs|
    ensures Word(bs, i) == FromBytes(bs[i], bs[i + 1], bs[i + 2], bs[i + 3])
  {
  }

  /** Bit i of the number compared with the checksum on the line is the coefficient of x^(31 - i) in the 802.3 frame
      check sequence of the payload. */
  lemma CrcWordBit(p: seq<byte>, i: nat)
    requires i < 32
    ensures CrcWord(p) / Pow2(i) % 2 == 1 <==> FrameCheck(MessageBits(p))[i]
  {
    hide Crc, FrameCheck, MessageBits, BitsValue, Pow2;
    CrcIsFrameCheck(p);
    BitsValueAt(Crc(p), i);
  }

  /** Byte 0 is the number of payload bytes, 1 to 4 the checksum of the payload, 5 to 8 the entry point, 9 to 12 the
      number of sections; the section has its file size in 13 to 16, its address in 17 to 20, its size in memory in 21 to
      24 and its bytes from 25 on. */
  predicate OneSection(bs: seq<byte>, k: nat) {
    && |bs| == 25 + k && k <= 235 && bs[0] == 20 + k
    && Word(bs, 1) == CrcWord(bs[5..]) && Word(bs, 9) == 1 && Word(bs, 13) == k
    && Word(bs, 17) % 4 == 0 && Word(bs, 17) as int + 256 <= 0x1_0000_0000
    && Word(bs, 17) as int + Word(bs, 21) as int + 4 <= 0x1_0000_0000
  }

  /** Data byte i, zero behind the last one. */
  function DataAt(bs: seq<byte>, i: nat): byte {
    if 25 + i < |bs| then bs[25 + i] else 0
  }

  /** How many words are written: those of the data, and more zeros up to the size in memory. */
  function WordsWritten(k: nat, memsize: nat): nat {
    if k < memsize then (memsize + 3) / 4 else (k + 3) / 4
  }

  /** The download returns the entry point, writes the data big-endian from the section's address on with zeros behind
      it, leaves all other memory alone, and replies with the last byte of the checksum. */
  lemma OneSectionLoads(mem: Memory, bs: seq<byte>, k: nat)
    requires OneSection(bs, k)
    ensures var r := Run(Boot(mem), bs); var m := r.payload.mem;
            && r.result == Started(Word(bs, 5)) && r.sent == [bs[4]]
            && forall a :: if 0 <= a - Word(bs, 17) / 4 < WordsWritten(k, Word(bs, 21))
                           then a in m && m[a] == WordFrom(bs, a - Word(bs, 17) / 4)
                           else (a in m <==> a in mem) && (a in m ==> m[a] == mem[a])
  {
    hide Run, Overlay, CrcWord, FromBytes, WordFrom, Word;
    var x := TheSection(bs, k);
    var p := bs[5..];
    Serialised(bs, k);
    OneFrame(bs, k);
    var ps: seq<seq<byte>> := [p];
    assert ps[1..] == [];
    assert Flatten(ps) == p + Flatten([]) == p;
    DownloadLoadsProgram(mem, Word(bs, 5), [x], ps);
    RepliesFirst(ps);
    LastCrcByte(bs);
    Loaded(mem, bs, k);
  }

  /** Word w of the data. */
  function WordFrom(bs: seq<byte>, w: nat): word {
    DataAt(bs, 4 * w) as int * 0x100_0000 + DataAt(bs, 4 * w + 1) as int * 0x1_0000
    + DataAt(bs, 4 * w + 2) as int * 0x100 + DataAt(bs, 4 * w + 3) as int
  }

  function TheSection(bs: seq<byte>, k: nat): Section
    requires OneSection(bs, k)
  {
    Section(Word(bs, 17), Word(bs, 21), bs[25..])
  }

  lemma WordBytes(bs: seq<byte>, i: nat)
    requires i + 4 <= |bs|
    ensures BigEndian(Word(bs, i)) == bs[i..i + 4]
  {
    hide BigEndian, FromBytes, Word;
    WordIs(bs, i);
    LeadingIsWord(bs[i..i + 4]);
    BigEndianOfLeading(bs[i..i + 4]);
  }

  lemma LeadingIsWord(c: seq<byte>)
    requires |c| == 4
    ensures Leading(c, 4) == FromBytes(c[0], c[1], c[2], c[3])
  {
  }

  lemma SectionFits(bs: seq<byte>, k: nat)
    requires OneSection(bs, k)
    ensures AllFit([TheSection(bs, k)])
  {
    hide CrcWord, Word;
  }

  lemma Serialised(bs: seq<byte>, k: nat)
    requires OneSection(bs, k)
    ensures AllFit([TheSection(bs, k)])
    ensures Serialise(Word(bs, 5), [TheSection(bs, k)]) == bs[5..]
  {
    hide CrcWord, Word, BigEndian, Fits;
    SectionFits(bs, k);
    var x := TheSection(bs, k);
    WordBytes(bs, 5);
    WordBytes(bs, 9);
    WordBytes(bs, 13);
    WordBytes(bs, 17);
    WordBytes(bs, 21);
    assert [x][1..] == [];
    assert SectionsBytes([x]) == SectionBytes(x) + SectionsBytes([]);
    assert bs[5..] == bs[5..9] + bs[9..13] + (bs[13..17] + bs[17..21] + bs[21..25] + bs[25..]);
  }

  lemma OneFrame(bs: seq<byte>, k: nat)
    requires OneSection(bs, k)
    ensures AllPackets([bs[5..]]) && Frames([bs[5..]]) == bs
  {
    hide CrcWord, Word, BigEndian;
    var p := bs[5..];
    WordBytes(bs, 1);
    var ps: seq<seq<byte>> := [p];
    assert ps[1..] == [];
    assert Frames(ps) == PacketWith(CrcWord(p), p) + Frames([]);
    assert bs == [bs[0]] + bs[1..5] + p;
  }

  lemma LastCrcByte(bs: seq<byte>)
    requires |bs| >= 5
    ensures Word(bs, 1) % 0x100 == bs[4]
  {
  }

  lemma Loaded(mem: Memory, bs: seq<byte>, k: nat)
    requires OneSection(bs, k)
    ensures var m := LoadAll(mem, [TheSection(bs, k)]);
            forall a :: if 0 <= a - Word(bs, 17) / 4 < WordsWritten(k, Word(bs, 21))
                        then a in m && m[a] == WordFrom(bs, a - Word(bs, 17) / 4)
                        else (a in m <==> a in mem) && (a in m ==> m[a] == mem[a])
  {
    hide CrcWord, Word, WordFrom, WordOf;
    var x := TheSection(bs, k);
    var c, base := Contents(x), x.offset / 4;
    assert [x][1..] == [];
    assert LoadAll(mem, [x]) == Overlay(mem, base, c);
    assert RoundUp(|c|) / 4 == WordsWritten(k, x.memsize);
    forall w: nat ensures WordOf(c, w) == WordFrom(bs, w) {
      SameWord(bs, k, w);
    }
  }

  lemma SameWord(bs: seq<byte>, k: nat, w: nat)
    requires OneSection(bs, k)
    ensures WordOf(Contents(TheSection(bs, k)), w) == WordFrom(bs, w)
  {
    hide OneSection, Contents, DataAt, At;
    ContentsAt(bs, k, 4 * w);
    ContentsAt(bs, k, 4 * w + 1);
    ContentsAt(bs, k, 4 * w + 2);
    ContentsAt(bs, k, 4 * w + 3);
  }

  lemma ContentsAt(bs: seq<byte>, k: nat, i: nat)
    requires OneSection(bs, k)
    ensures At(Contents(TheSection(bs, k)), i) == DataAt(bs, i)
  {
    hide CrcWord, Word;
  }
}
