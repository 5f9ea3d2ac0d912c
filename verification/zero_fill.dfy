/** c/bootloader/download.c: the zero-fill loop turn by turn, with its 32-bit byte counter, and the programs for
    which it never ends. */
module ZeroFillLoop {
  import opened Bytes
  import opened Crc32
  import opened Download

  /** One turn, if the counter has not reached memsize; then the loop has ended. */
  function Turn(mem: Memory, offset: word, k: word, memsize: word): (Memory, word) {
    if k < memsize then (mem[(offset + k) % WORDS / 4 := 0], (k + 4) % WORDS) else (mem, k)
  }

  /** Memory and byte counter after n turns. */
  function Turns(mem: Memory, offset: word, c: word, memsize: word, n: nat): (Memory, word) {
    if n == 0 then (mem, c)
    else
      var t := Turns(mem, offset, c, memsize, n - 1);
      Turn(t.0, offset, t.1, memsize)
  }

  ghost predicate Ends(mem: Memory, offset: word, c: word, memsize: word) {
    exists n: nat :: Turns(mem, offset, c, memsize, n).1 >= memsize
  }

  lemma CountUp(k: word)
    requires k % 4 == 0
    ensures (k + 4) % WORDS == (if k == WORDS - 4 then 0 else k + 4) && (k + 4) % WORDS % 4 == 0 && k <= WORDS - 4
  {
  }

  lemma TurnFills(mem: Memory, offset: word, k: word, memsize: word)
    requires k % 4 == 0 && memsize <= WORDS - 4
    ensures var t := Turn(mem, offset, k, memsize);
            t.1 % 4 == 0 && t.1 == (if k < memsize then k + 4 else k)
            && ZeroFill(t.0, offset, t.1, memsize) == ZeroFill(mem, offset, k, memsize)
  {
    CountUp(k);
  }

  lemma TurnStaysAligned(mem: Memory, offset: word, k: word, memsize: word)
    requires k % 4 == 0
    ensures Turn(mem, offset, k, memsize).1 % 4 == 0 && Turn(mem, offset, k, memsize).1 <= WORDS - 4
  {
    CountUp(k);
  }

  /** With a size beyond the last word the counter goes round for ever. */
  lemma {:induction false} GoesRound(mem: Memory, offset: word, c: word, memsize: word, n: nat)
    requires c % 4 == 0 && memsize > WORDS - 4
    ensures var k := Turns(mem, offset, c, memsize, n).1; k % 4 == 0 && k <= WORDS - 4
  {
    hide Turn;
    CountUp(c);
    if n > 0 {
      GoesRound(mem, offset, c, memsize, n - 1);
      var t := Turns(mem, offset, c, memsize, n - 1);
      TurnStaysAligned(t.0, offset, t.1, memsize);
    }
  }

  /** Otherwise it fills memory as the recursive form says. */
  lemma {:induction false} FillsSoFar(mem: Memory, offset: word, c: word, memsize: word, n: nat)
    requires c % 4 == 0 && memsize <= WORDS - 4
    ensures var t := Turns(mem, offset, c, memsize, n);
            && t.1 % 4 == 0 && (t.1 >= memsize || t.1 == c + 4 * n)
            && ZeroFill(t.0, offset, t.1, memsize) == ZeroFill(mem, offset, c, memsize)
  {
    hide ZeroFill, Turn;
    if n > 0 {
      FillsSoFar(mem, offset, c, memsize, n - 1);
      var t := Turns(mem, offset, c, memsize, n - 1);
      TurnFills(t.0, offset, t.1, memsize);
    }
  }

  /** The loop ends if and only if the size is reached at once or is at most 2^32 - 4. */
  lemma FillEndsIff(mem: Memory, offset: word, c: word, memsize: word)
    requires c % 4 == 0
    ensures Ends(mem, offset, c, memsize) <==> !(c < memsize && memsize > WORDS - 4)
  {
    hide Turns, ZeroFill;
    if memsize > WORDS - 4 {
      if c >= memsize {
        CountUp(c);
      }
      forall n: nat ensures Turns(mem, offset, c, memsize, n).1 < memsize {
        GoesRound(mem, offset, c, memsize, n);
      }
    } else {
      FillsSoFar(mem, offset, c, memsize, memsize);
      assert Turns(mem, offset, c, memsize, memsize).1 >= memsize;
    }
  }

  /** What the section state machine flags is exactly a loop that never ends. */
  lemma FlagIsRight(s: Payload)
    ensures FillNeverEnds(s) <==> !Ends(s.mem, s.offset, RoundUp(s.filesize) % WORDS, s.memsize)
  {
    AlignedStart(s.filesize);
    FillEndsIff(s.mem, s.offset, RoundUp(s.filesize) % WORDS, s.memsize);
  }

  lemma AlignedStart(n: word)
    ensures RoundUp(n) % WORDS % 4 == 0
  {
    if RoundUp(n) >= WORDS {
      assert RoundUp(n) == WORDS;
    }
  }

  /** Where it ends, memory is what the recursive form says. */
  lemma EndsFilled(mem: Memory, offset: word, c: word, memsize: word, n: nat)
    requires c % 4 == 0 && Turns(mem, offset, c, memsize, n).1 >= memsize
    ensures Turns(mem, offset, c, memsize, n).0 == ZeroFill(mem, offset, c, memsize)
  {
    hide Turns;
    if memsize > WORDS - 4 {
      GoesRound(mem, offset, c, memsize, n);
    } else {
      FillsSoFar(mem, offset, c, memsize, n);
    }
  }

  // ------------------------------------------------------------- a program that sticks

  /** One packet whose only section is empty and larger in memory than 2^32 - 4 bytes. */
  function HugeSection(entry: word, number: word, offset: word, memsize: word): (p: seq<byte>)
    ensures |p| == 20
  {
    BigEndian(entry) + BigEndian(number) + BigEndian(0) + BigEndian(offset) + BigEndian(memsize)
  }

  lemma HugeSectionRefused(mem: Memory, entry: word, number: word, offset: word, memsize: word)
    requires memsize > WORDS - 4
    ensures var s, p := Start(mem), HugeSection(entry, number, offset, memsize);
            Proper(s) && Absorb(s, p).None? && Absorb(s, p[..19]).Some?
  {
    hide Absorb, BigEndian;
    var s := Start(mem);
    var a, b, c, d, e := BigEndian(entry), BigEndian(number), BigEndian(0), BigEndian(offset), BigEndian(memsize);
    var s1 := s.(entry := entry, phase := SectionNumber);
    var s2 := s1.(number := number, phase := SectionFilesize);
    var s3 := s2.(filesize := 0, phase := SectionOffset);
    var s4 := s3.(offset := offset, phase := SectionMemsize);
    FieldAbsorbed(s, entry);
    FieldAbsorbed(s1, number);
    FieldAbsorbed(s2, 0);
    FieldAbsorbed(s3, offset);
    MemsizeAbsorbed(s4, memsize);
    FieldPrefix(s4, e, 3);
    FiveFields(s, s1, s2, s3, s4, a, b, c, d, e);
    FiveFields(s, s1, s2, s3, s4, a, b, c, d, e[..3]);
    assert HugeSection(entry, number, offset, memsize)[..19] == a + b + c + d + e[..3];
  }

  lemma FiveFields(s: Payload, s1: Payload, s2: Payload, s3: Payload, s4: Payload,
                   a: seq<byte>, b: seq<byte>, c: seq<byte>, d: seq<byte>, e: seq<byte>)
    requires Proper(s) && Proper(s1) && Proper(s2) && Proper(s3) && Proper(s4)
    requires Absorb(s, a) == Some(s1) && Absorb(s1, b) == Some(s2) && Absorb(s2, c) == Some(s3) && Absorb(s3, d) == Some(s4)
    ensures Absorb(s, a + b + c + d + e) == Absorb(s4, e)
  {
    hide Absorb, Proper;
    AbsorbAppend(s, a, b);
    AbsorbAppend(s, a + b, c);
    AbsorbAppend(s, a + b + c, d);
    AbsorbAppend(s, a + b + c + d, e);
  }

  /** Whatever its checksum, its last byte starts a fill that never ends: `download` does not return. */
  lemma HugeSectionSticks(mem: Memory, entry: word, number: word, offset: word, memsize: word, w: word)
    requires memsize > WORDS - 4
    ensures Run(Boot(mem), PacketWith(w, HugeSection(entry, number, offset, memsize))).result == Stuck
  {
    hide Run, BigEndian, Register, Absorb, HugeSection, ByteStep, LowBits, Repeat;
    var m, p := Boot(mem), HugeSection(entry, number, offset, memsize);
    HugeSectionRefused(mem, entry, number, offset, memsize);
    var a, b := p[..19], p[19];
    assert p == a + [b];
    HeaderReceived(m, 20, w);
    var m1 := Announced(m, 20, w);
    AbsorbLast(m.payload, a, b);
    PayloadReceived(m1, a);
    RunAppend(m, [20] + BigEndian(w), p);
    RunLast(m1, a, b);
  }
}
