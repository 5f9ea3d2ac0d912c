/** `download` itself, reading through the decompressor: the variables of
    c/bootloader/download.c updated byte by byte. */
module Loader {
  import opened Bytes
  import opened Crc32
  import opened Download
  import Lzss
  import ZeroFillLoop

  class Downloader {
    var currentState: Phase
    var entrypoint: word
    var sectionNumber: word
    var sectionCount: word
    var sectionFilesize: word
    var sectionOffset: word
    var sectionMemsize: word
    var sectionByteCount: word
    var integer: word
    var mem: Memory

    var packetSize: byte
    var packetByteCount: nat
    var calculatedCrc: Reg
    var receivedCrc: word
    var sent: seq<byte>

    ghost function AbsPayload(): Payload
      reads this
    {
      Payload(currentState, entrypoint, sectionNumber, sectionCount, sectionFilesize, sectionOffset,
              sectionMemsize, sectionByteCount, integer, mem)
    }

    ghost function Abs(result: Result): Machine
      reads this
    {
      Machine(AbsPayload(), packetSize, packetByteCount, calculatedCrc, receivedCrc, sent, result)
    }

    constructor (memory: Memory)
      ensures Abs(Reading) == Boot(memory)
    {
      currentState, entrypoint, sectionNumber, sectionCount := EntryPoint, 0, WORDS - 1, 0;
      sectionFilesize, sectionOffset, sectionMemsize := 0, 0, 0;
      sectionByteCount, integer, mem := 0, 0, memory;
      packetSize, packetByteCount, calculatedCrc := 0, 0, Repeat(false, 32);
      receivedCrc, sent := WORDS - 1, [];
    }

    /** Header fields, or one byte into the current memory word. */
    method AcceptByte(data: byte)
      requires Proper(AbsPayload())
      modifies this`currentState, this`entrypoint, this`sectionNumber, this`sectionCount, this`sectionFilesize,
               this`sectionOffset, this`sectionMemsize, this`sectionByteCount, this`integer, this`mem
      ensures AbsPayload() == Accept(old(AbsPayload()), data)
    {
      integer := InsertByte(integer, data, sectionByteCount % 4);
      sectionByteCount := (sectionByteCount + 1) % WORDS;
      if currentState != SectionData {
        if sectionByteCount == 4 {
          match currentState {
            case EntryPoint => entrypoint := integer;
            case SectionNumber => sectionNumber := integer;
            case SectionFilesize => sectionFilesize := integer;
            case SectionOffset => sectionOffset := integer;
            case SectionMemsize => sectionMemsize := integer;
          }
          sectionByteCount := 0;
          currentState := Next(currentState);
        }
      } else {
        mem := mem[(sectionOffset + sectionByteCount - 1) % WORDS / 4 := integer];
      }
    }

    /** The zero-fill loop, where it ends. */
    method FillZeros()
      requires sectionByteCount % 4 == 0 && (sectionByteCount >= sectionMemsize || sectionMemsize <= WORDS - 4)
      modifies this`sectionByteCount, this`mem
      ensures mem == ZeroFill(old(mem), sectionOffset, old(sectionByteCount), sectionMemsize)
    {
      hide ZeroFill;
      while sectionByteCount < sectionMemsize
        invariant sectionByteCount % 4 == 0 && (sectionByteCount >= sectionMemsize || sectionMemsize <= WORDS - 4)
        invariant ZeroFill(mem, sectionOffset, sectionByteCount, sectionMemsize)
               == ZeroFill(old(mem), sectionOffset, old(sectionByteCount), sectionMemsize)
      {
        ZeroFillStep(mem, sectionOffset, sectionByteCount, sectionMemsize);
        mem := mem[(sectionOffset + sectionByteCount) % WORDS / 4 := 0];
        sectionByteCount := sectionByteCount + 4;
      }
      ZeroFillStep(mem, sectionOffset, sectionByteCount, sectionMemsize);
    }

    /** Word alignment and the zero-fill loop; false if that loop never ends. */
    method FinishSection() returns (ends: bool)
      modifies this`currentState, this`sectionCount, this`sectionByteCount, this`mem
      ensures CloseSection(old(AbsPayload())) == if ends then Some(AbsPayload()) else None
      ensures !ends ==> !ZeroFillLoop.Ends(old(mem), sectionOffset, RoundUp(sectionFilesize) % WORDS, sectionMemsize)
    {
      hide ZeroFill, ZeroFillLoop.Ends, RoundUp;
      if currentState == SectionData && sectionByteCount == sectionFilesize {
        ZeroFillLoop.FlagIsRight(AbsPayload());
        ZeroFillLoop.AlignedStart(sectionFilesize);
        sectionByteCount := RoundUp(sectionByteCount) % WORDS;
        if sectionByteCount < sectionMemsize && sectionMemsize > WORDS - 4 {
          return false;
        }
        FillZeros();
        sectionByteCount := 0;
        sectionCount := (sectionCount + 1) % WORDS;
        currentState := SectionFilesize;
      }
      return true;
    }

    /** A payload byte; false if it starts a zero fill that never ends. */
    method TakePayload(data: byte) returns (ends: bool)
      requires Proper(AbsPayload())
      modifies this`currentState, this`entrypoint, this`sectionNumber, this`sectionCount, this`sectionFilesize,
               this`sectionOffset, this`sectionMemsize, this`sectionByteCount, this`integer, this`mem
      ensures PayloadByte(old(AbsPayload()), data) == if ends then Some(AbsPayload()) else None
    {
      hide Accept, CloseSection;
      AcceptByte(data);
      ends := FinishSection();
      if ends && sectionByteCount % 4 == 0 {
        integer := 0;
      }
    }

    method EndPacket() returns (r: Result)
      modifies this`calculatedCrc, this`sent, this`packetSize
      ensures Abs(r) == ClosePacket(old(Abs(Reading)))
    {
      hide LowByteOf, BitsValue, Xor, LowBits;
      calculatedCrc := Xor(calculatedCrc, ONES);
      sent := sent + [LowByteOf(calculatedCrc)];
      if BitsValue(calculatedCrc) != receivedCrc { return BadPacket; }
      if sectionCount == sectionNumber { return Started(entrypoint); }
      packetSize := 0;
      return Reading;
    }

    method TakeByte(data: byte) returns (ends: bool)
      requires ProperMachine(Abs(Reading))
      modifies this
      ensures var m := InsidePacket(old(Abs(Reading)), data);
              if ends then Abs(Reading) == m else m.result == Stuck
    {
      hide PayloadByte, ByteStep, Proper;
      ends := true;
      if packetByteCount < 4 {
        receivedCrc := (receivedCrc * 0x100 + data) % WORDS;
      } else {
        calculatedCrc := UpdateCrc(calculatedCrc, data);
        ends := TakePayload(data);
      }
    }

    /** One turn of the receive loop. */
    method Step(data: byte) returns (r: Result)
      requires ProperMachine(Abs(Reading))
      modifies this
      ensures r == Receive(old(Abs(Reading)), data).result
      ensures r != Stuck ==> Abs(r) == Receive(old(Abs(Reading)), data)
    {
      hide InsidePacket, ClosePacket, Proper, LowBits;
      if packetSize == 0 {
        packetSize := data;
        packetByteCount := 0;
        calculatedCrc := ONES;
        receivedCrc := 0;
        return Reading;
      }
      var ends := TakeByte(data);
      if !ends { return Stuck; }
      packetByteCount := packetByteCount + 1;
      if packetByteCount == packetSize + 4 {
        r := EndPacket();
      } else {
        r := Reading;
      }
    }

    /** The receive loop over at most `limit` decompressed bytes. */
    method Download(dec: Lzss.Decoder, limit: nat) returns (r: Result)
      requires dec.Valid() && ProperMachine(Abs(Reading))
      modifies this, dec, dec.textBuf
      ensures var m := Run(old(Abs(Reading)), Lzss.Take(dec.uart, old(dec.Abs()), limit).0);
              r == m.result && (r != Stuck ==> Abs(r) == m)
    {
      hide Receive, Run, Lzss.Take, Lzss.Ready, ProperMachine;
      ghost var m0, d0 := Abs(Reading), dec.Abs();
      r := Reading;
      TakenNone(dec.uart, d0);
      RunNone(m0);
      var n := 0;
      while n < limit
        invariant n <= limit && dec.Valid() && r == Reading && ProperMachine(Abs(Reading))
        invariant Lzss.Proper(d0) && Lzss.Take(dec.uart, d0, n).1 == dec.Abs()
        invariant Abs(Reading) == Run(m0, Lzss.Take(dec.uart, d0, n).0)
      {
        ghost var bytes, d, m := Lzss.Take(dec.uart, d0, n).0, dec.Abs(), Abs(Reading);
        var data := dec.GetByte();
        TakenOne(dec.uart, d0, n, data, dec.Abs());
        RunLast(m0, bytes, data);
        r := Step(data);
        n := n + 1;
        if r != Reading {
          StopsReading(dec.uart, d0, m0, n, limit);
          return;
        }
      }
    }
  }

  lemma TakenNone(uart: nat -> byte, d: Lzss.Dec)
    requires Lzss.Proper(d)
    ensures Lzss.Take(uart, d, 0) == ([], d)
  {
  }

  lemma TakenOne(uart: nat -> byte, d0: Lzss.Dec, n: nat, data: byte, after: Lzss.Dec)
    requires Lzss.Proper(d0)
    requires var d := Lzss.Take(uart, d0, n).1; var e := Lzss.Ready(uart, d);
             data == e.h[e.read] && after == e.(read := e.read + 1)
    ensures Lzss.Take(uart, d0, n + 1) == (Lzss.Take(uart, d0, n).0 + [data], after)
  {
    hide Lzss.Take, Lzss.Ready;
    var d := Lzss.Take(uart, d0, n).1;
    Lzss.TakeAdd(uart, d0, n, 1);
    TakenSingle(uart, d);
  }

  lemma TakenSingle(uart: nat -> byte, d: Lzss.Dec)
    requires Lzss.Proper(d)
    ensures var e := Lzss.Ready(uart, d);
            Lzss.Take(uart, d, 1) == ([e.h[e.read]], e.(read := e.read + 1))
  {
    hide Lzss.Ready;
    var e := Lzss.Ready(uart, d);
    assert Lzss.Take(uart, e.(read := e.read + 1), 0) == ([], e.(read := e.read + 1));
    assert [e.h[e.read]] + [] == [e.h[e.read]];
  }

  lemma {:induction false} RunFrozen(m: Machine, bytes: seq<byte>)
    requires ProperMachine(m) && m.result != Reading
    ensures Run(m, bytes) == m
    decreases |bytes|
  {
    if bytes != [] { RunFrozen(m, bytes[1..]); }
  }

  lemma RunStops(m: Machine, a: seq<byte>, b: seq<byte>)
    requires ProperMachine(m) && Run(m, a).result != Reading
    ensures Run(m, a + b) == Run(m, a)
  {
    hide *;
    RunAppend(m, a, b);
    RunFrozen(Run(m, a), b);
  }

  lemma TakenPrefix(uart: nat -> byte, d: Lzss.Dec, n: nat, limit: nat) returns (rest: seq<byte>)
    requires Lzss.Proper(d) && n <= limit
    ensures Lzss.Take(uart, d, limit).0 == Lzss.Take(uart, d, n).0 + rest
  {
    hide Lzss.Take;
    Lzss.TakeAdd(uart, d, n, limit - n);
    rest := Lzss.Take(uart, Lzss.Take(uart, d, n).1, limit - n).0;
  }

  lemma StopsReading(uart: nat -> byte, d: Lzss.Dec, m: Machine, n: nat, limit: nat)
    requires Lzss.Proper(d) && ProperMachine(m) && n <= limit
    requires Run(m, Lzss.Take(uart, d, n).0).result != Reading
    ensures Run(m, Lzss.Take(uart, d, limit).0) == Run(m, Lzss.Take(uart, d, n).0)
  {
    hide Run, Lzss.Take;
    var rest := TakenPrefix(uart, d, n, limit);
    RunStops(m, Lzss.Take(uart, d, n).0, rest);
  }

  /** The whole boot path: a program cut into packets, packed by any compressor, sent over the
      serial line and decompressed on the fly is started with its sections in memory. */
  lemma CompressedDownloadLoads(
    uart: nat -> byte, garbage: seq<byte>, ts: seq<Lzss.Token>,
    mem: Memory, entry: word, xs: seq<Section>, ps: seq<seq<byte>>)
    requires AllFit(xs) && |xs| < WORDS - 1 && AllPackets(ps) && Flatten(ps) == Serialise(entry, xs)
    requires |garbage| == Lzss.F && Lzss.AllWellFormed(ts)
    requires Lzss.ExpandAll(Lzss.Initial(garbage).h, ts)[Lzss.N..] == Frames(ps)
    requires Lzss.Sends(uart, 0, Lzss.Encode(ts, Lzss.N, 0))
    ensures var r := Run(Boot(mem), Lzss.Take(uart, Lzss.Initial(garbage), |Frames(ps)|).0);
            r.result == Started(entry) && r.payload.mem == LoadAll(mem, xs)
  {
    hide Run, Lzss.Take, Lzss.ExpandAll, Lzss.Encode, Frames, Serialise, Flatten, LoadAll;
    Lzss.DecompressInvertsCompress(uart, garbage, ts);
    DownloadLoadsProgram(mem, entry, xs, ps);
  }
}
