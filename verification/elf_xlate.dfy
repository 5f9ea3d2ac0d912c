/**
 * Translation of 32-bit ELF records between memory and file.  Both sides are byte buffers: memory holds
 * every field in the host's byte order, the file in the order its header names.
 */
module ElfXlate {
  import opened Bytes
  import opened Splices

  datatype Order = Lsb | Msb

  // ------------------------------------------------------------------ load and store

  function Load16(o: Order, b: seq<byte>): (v: int)
    requires |b| == 2
    ensures 0 <= v < 0x1_0000
  {
    if o.Lsb? then b[1] as int * 0x100 + b[0] as int else b[0] as int * 0x100 + b[1] as int
  }

  function Load32(o: Order, b: seq<byte>): (v: int)
    requires |b| == 4
    ensures 0 <= v < 0x1_0000_0000
  {
    if o.Lsb? then FromBytes(b[3], b[2], b[1], b[0]) else FromBytes(b[0], b[1], b[2], b[3])
  }

  /** The top byte carries the sign. */
  function LoadSigned32(o: Order, b: seq<byte>): (v: int)
    requires |b| == 4
    ensures -0x8000_0000 <= v < 0x8000_0000
  {
    var u := Load32(o, b);
    if u < 0x8000_0000 then u else u - 0x1_0000_0000
  }

  function Digit(v: int, unit: int): byte
    requires unit > 0
  {
    v / unit % 0x100
  }

  function Store16(o: Order, v: int): (b: seq<byte>)
    ensures |b| == 2
  {
    if o.Lsb? then [Digit(v, 1), Digit(v, 0x100)] else [Digit(v, 0x100), Digit(v, 1)]
  }

  /** The bytes of a 32-bit word, signed or not. */
  function Store32(o: Order, v: int): (b: seq<byte>)
    ensures |b| == 4
  {
    if o.Lsb? then [Digit(v, 1), Digit(v, 0x100), Digit(v, 0x1_0000), Digit(v, 0x100_0000)]
    else [Digit(v, 0x100_0000), Digit(v, 0x1_0000), Digit(v, 0x100), Digit(v, 1)]
  }

  lemma JoinDigits(b3: byte, b2: byte, b1: byte, b0: byte)
    ensures var v := FromBytes(b3, b2, b1, b0);
            Digit(v, 1) == b0 && Digit(v, 0x100) == b1 && Digit(v, 0x1_0000) == b2 && Digit(v, 0x100_0000) == b3
  {
    var v := FromBytes(b3, b2, b1, b0);
    assert v / 0x100 == b3 as int * 0x1_0000 + b2 as int * 0x100 + b1 as int;
    assert v / 0x1_0000 == b3 as int * 0x100 + b2 as int;
    assert v / 0x100_0000 == b3 as int;
  }

  /** Taking away 2^32 changes no byte. */
  lemma WrapKeepsDigits(v: int)
    ensures Digit(v - 0x1_0000_0000, 1) == Digit(v, 1) && Digit(v - 0x1_0000_0000, 0x100) == Digit(v, 0x100)
    ensures Digit(v - 0x1_0000_0000, 0x1_0000) == Digit(v, 0x1_0000)
    ensures Digit(v - 0x1_0000_0000, 0x100_0000) == Digit(v, 0x100_0000)
  {
    hide Digit;
    WrapKeepsLow(v);
    WrapKeepsMiddle(v);
    WrapKeepsTop(v);
  }

  lemma WrapKeepsLow(v: int)
    ensures Digit(v - 0x1_0000_0000, 1) == Digit(v, 1) && Digit(v - 0x1_0000_0000, 0x100) == Digit(v, 0x100)
  {
    assert (v - 0x1_0000_0000) / 0x100 == v / 0x100 - 0x100_0000;
  }

  lemma WrapKeepsMiddle(v: int)
    ensures Digit(v - 0x1_0000_0000, 0x1_0000) == Digit(v, 0x1_0000)
  {
    assert (v - 0x1_0000_0000) / 0x1_0000 == v / 0x1_0000 - 0x1_0000;
  }

  lemma WrapKeepsTop(v: int)
    ensures Digit(v - 0x1_0000_0000, 0x100_0000) == Digit(v, 0x100_0000)
  {
    assert (v - 0x1_0000_0000) / 0x100_0000 == v / 0x100_0000 - 0x100;
  }

  lemma StoreLoad16(o: Order, b: seq<byte>)
    requires |b| == 2
    ensures Store16(o, Load16(o, b)) == b
  {
    if o.Lsb? {
      OneByteOff(b[1], b[0]);
    } else {
      OneByteOff(b[0], b[1]);
    }
  }

  lemma StoreLoad32(o: Order, b: seq<byte>)
    requires |b| == 4
    ensures Store32(o, Load32(o, b)) == b && Store32(o, LoadSigned32(o, b)) == b
  {
    hide FromBytes, Digit;
    if o.Lsb? {
      JoinDigits(b[3], b[2], b[1], b[0]);
    } else {
      JoinDigits(b[0], b[1], b[2], b[3]);
    }
    WrapKeepsDigits(Load32(o, b));
  }

  lemma LoadStore16(o: Order, v: int)
    requires 0 <= v < 0x1_0000
    ensures Load16(o, Store16(o, v)) == v
  {
  }

  lemma JoinOfDigits(v: int)
    requires 0 <= v < 0x1_0000_0000
    ensures FromBytes(Digit(v, 0x100_0000), Digit(v, 0x1_0000), Digit(v, 0x100), Digit(v, 1)) == v
  {
    ByteByByte(v);
    FourDigits(v, v / 0x100, v / 0x1_0000, v / 0x100_0000);
  }

  lemma LoadStore32(o: Order, v: int)
    requires 0 <= v < 0x1_0000_0000
    ensures Load32(o, Store32(o, v)) == v
  {
    hide FromBytes, Digit;
    JoinOfDigits(v);
  }

  lemma LoadStoreSigned32(o: Order, v: int)
    requires -0x8000_0000 <= v < 0x8000_0000
    ensures LoadSigned32(o, Store32(o, v)) == v
  {
    hide FromBytes, Digit;
    if v >= 0 {
      JoinOfDigits(v);
    } else {
      JoinOfDigits(v + 0x1_0000_0000);
      WrapKeepsDigits(v + 0x1_0000_0000);
    }
  }

  // ------------------------------------------------------------------ storing in place

  /** A store macro whose source is its own destination: every byte is taken from the word as it is by then. */
  function PutDigit(host: Order, b: seq<byte>, i: nat, unit: int): (r: seq<byte>)
    requires |b| == 4 && i < 4 && unit > 0
    ensures |r| == 4
  {
    b[i := Digit(Load32(host, b), unit)]
  }

  function StoreInPlace32(host: Order, p: Order, b: seq<byte>): (r: seq<byte>)
    requires |b| == 4
    ensures |r| == 4
  {
    if p.Lsb? then
      PutDigit(host, PutDigit(host, PutDigit(host, PutDigit(host, b, 3, 0x100_0000), 2, 0x1_0000), 1, 0x100), 0, 1)
    else
      PutDigit(host, PutDigit(host, PutDigit(host, PutDigit(host, b, 0, 0x100_0000), 1, 0x1_0000), 2, 0x100), 3, 1)
  }

  lemma LoadDigits(host: Order, b: seq<byte>)
    requires |b| == 4
    ensures var v := Load32(host, b);
            && Digit(v, 1) == (if host.Lsb? then b[0] else b[3]) && Digit(v, 0x100) == (if host.Lsb? then b[1] else b[2])
            && Digit(v, 0x1_0000) == (if host.Lsb? then b[2] else b[1])
            && Digit(v, 0x100_0000) == (if host.Lsb? then b[3] else b[0])
  {
    hide FromBytes, Digit;
    if host.Lsb? {
      JoinDigits(b[3], b[2], b[1], b[0]);
    } else {
      JoinDigits(b[0], b[1], b[2], b[3]);
    }
  }

  /** What the four stores leave. */
  lemma InPlaceResult(host: Order, p: Order, b: seq<byte>)
    requires |b| == 4
    ensures StoreInPlace32(host, p, b)
         == if host == p then b else if p.Lsb? then [b[0], b[1], b[1], b[0]] else [b[3], b[2], b[2], b[3]]
  {
    hide Load32, Digit;
    var i, j, k, l := if p.Lsb? then 3 else 0, if p.Lsb? then 2 else 1, if p.Lsb? then 1 else 2, if p.Lsb? then 0 else 3;
    LoadDigits(host, b);
    var c := PutDigit(host, b, i, 0x100_0000);
    LoadDigits(host, c);
    var d := PutDigit(host, c, j, 0x1_0000);
    LoadDigits(host, d);
    var e := PutDigit(host, d, k, 0x100);
    LoadDigits(host, e);
    var f := PutDigit(host, e, l, 1);
    assert f == StoreInPlace32(host, p, b);
    var x, y := if host.Lsb? then b[3] else b[0], if host.Lsb? then b[2] else b[1];
    assert c == b[i := x] && d == c[j := y];
  }

  /** Writing a word to the file in its own place is right if and only if no byte has to move, because the orders
      agree or the word reads the same both ways. */
  lemma InPlaceIff(host: Order, p: Order, b: seq<byte>)
    requires |b| == 4
    ensures StoreInPlace32(host, p, b) == Store32(p, Load32(host, b))
            <==> host == p || (b[0] == b[3] && b[1] == b[2])
  {
    hide Load32, Digit, StoreInPlace32;
    LoadDigits(host, b);
    InPlaceResult(host, p, b);
    assert Store32(p, Load32(host, b)) == if host == p then b else [b[3], b[2], b[1], b[0]];
    if host != p {
      Mirror(b, StoreInPlace32(host, p, b));
    }
  }

  lemma Mirror(b: seq<byte>, r: seq<byte>)
    requires |b| == 4 && (r == [b[0], b[1], b[1], b[0]] || r == [b[3], b[2], b[2], b[3]])
    ensures r == [b[3], b[2], b[1], b[0]] <==> b[0] == b[3] && b[1] == b[2]
  {
    assert r == [b[3], b[2], b[1], b[0]] ==> r[0] == b[3] && r[1] == b[2] && r[2] == b[1] && r[3] == b[0];
  }

  function PutHalfDigit(host: Order, b: seq<byte>, i: nat, unit: int): (r: seq<byte>)
    requires |b| == 2 && i < 2 && unit > 0
    ensures |r| == 2
  {
    b[i := Digit(Load16(host, b), unit)]
  }

  function StoreInPlace16(host: Order, p: Order, b: seq<byte>): (r: seq<byte>)
    requires |b| == 2
    ensures |r| == 2
  {
    if p.Lsb? then PutHalfDigit(host, PutHalfDigit(host, b, 1, 0x100), 0, 1)
    else PutHalfDigit(host, PutHalfDigit(host, b, 0, 0x100), 1, 1)
  }

  lemma LoadHalfDigits(host: Order, b: seq<byte>)
    requires |b| == 2
    ensures var v := Load16(host, b);
            Digit(v, 1) == (if host.Lsb? then b[0] else b[1]) && Digit(v, 0x100) == (if host.Lsb? then b[1] else b[0])
  {
    if host.Lsb? {
      OneByteOff(b[1], b[0]);
    } else {
      OneByteOff(b[0], b[1]);
    }
  }

  /** A half word in its own place comes out right if and only if the orders agree or its two bytes do. */
  lemma InPlaceHalfIff(host: Order, p: Order, b: seq<byte>)
    requires |b| == 2
    ensures StoreInPlace16(host, p, b) == Store16(p, Load16(host, b)) <==> host == p || b[0] == b[1]
  {
    hide Load16, Digit;
    LoadHalfDigits(host, b);
    var c := PutHalfDigit(host, b, if p.Lsb? then 1 else 0, 0x100);
    LoadHalfDigits(host, c);
    var d := PutHalfDigit(host, c, if p.Lsb? then 0 else 1, 1);
    assert d == StoreInPlace16(host, p, b);
    assert Store16(p, Load16(host, b)) == if host == p then b else [b[1], b[0]];
    assert d == if host == p then b else if p.Lsb? then [b[0], b[0]] else [b[1], b[1]];
    assert host != p && d == [b[1], b[0]] ==> d[0] == b[1] && d[1] == b[0];
  }

  // ------------------------------------------------------------------ record layouts

  /** addr, off and word are unsigned 32-bit fields alike. */
  datatype Field = Octet | Half | Word | Sword | Octets(n: nat)

  function Size(f: Field): nat {
    match f
    case Octet => 1
    case Half => 2
    case Word => 4
    case Sword => 4
    case Octets(n) => n
  }

  function SizeAll(l: seq<Field>): nat {
    if l == [] then 0 else Size(l[0]) + SizeAll(l[1..])
  }

  const DYN := [Sword, Word]
  const EHDR := [Octets(16), Half, Half, Word, Word, Word, Word, Word, Half, Half, Half, Half, Half, Half]
  const PHDR := [Word, Word, Word, Word, Word, Word, Word, Word]
  const RELA := [Word, Word, Sword]
  const REL := [Word, Word]
  const SHDR := [Word, Word, Word, Word, Word, Word, Word, Word, Word, Word]
  const SYM := [Word, Word, Word, Octet, Octet, Half]

  /** The translation table, by type number; the two 64-bit scalars and the version records have no entry. */
  function Layout(t: nat): (l: seq<Field>) {
    match t
    case 0 => [Octet]
    case 1 => [Word]
    case 2 => DYN
    case 3 => EHDR
    case 4 => [Half]
    case 5 => [Word]
    case 6 => PHDR
    case 7 => RELA
    case 8 => REL
    case 9 => SHDR
    case 10 => [Sword]
    case 11 => SYM
    case 12 => [Word]
    case _ => []
  }

  // -------------------------------------------------------------------- what is meant

  datatype Value = Number(v: int) | Raw(b: seq<byte>)

  function ValueOf(f: Field, o: Order, b: seq<byte>): Value
    requires |b| == Size(f)
  {
    match f
    case Octet => Raw(b)
    case Half => Number(Load16(o, b))
    case Word => Number(Load32(o, b))
    case Sword => Number(LoadSigned32(o, b))
    case Octets(_) => Raw(b)
  }

  /** The field values of a record kept in byte order o. */
  function Values(l: seq<Field>, o: Order, b: seq<byte>): seq<Value>
    requires |b| == SizeAll(l)
  {
    if l == [] then [] else [ValueOf(l[0], o, b[..Size(l[0])])] + Values(l[1..], o, b[Size(l[0])..])
  }

  // --------------------------------------------------------------------- what is done

  /** A load in one order and a store in the other. */
  function MoveField(f: Field, o: Order, p: Order, b: seq<byte>): (r: seq<byte>)
    requires |b| == Size(f)
    ensures |r| == |b|
  {
    match f
    case Octet => b
    case Half => Store16(p, Load16(o, b))
    case Word => Store32(p, Load32(o, b))
    case Sword => Store32(p, LoadSigned32(o, b))
    case Octets(_) => b
  }

  /** Where the destination lies. Into the file every byte is taken from memory again, so there a field stored over
      itself differs; into memory the load is complete before the assignment. */
  datatype Place = Apart | Itself

  function StoreField(w: Place, f: Field, o: Order, p: Order, b: seq<byte>): (r: seq<byte>)
    requires |b| == Size(f)
    ensures |r| == |b|
  {
    if w == Itself && f.Half? then StoreInPlace16(o, p, b)
    else if w == Itself && (f.Word? || f.Sword?) then StoreInPlace32(o, p, b)
    else MoveField(f, o, p, b)
  }

  function MoveRecord(w: Place, l: seq<Field>, o: Order, p: Order, b: seq<byte>): (r: seq<byte>)
    requires |b| == SizeAll(l)
    ensures |r| == |b|
  {
    if l == [] then [] else
      StoreField(w, l[0], o, p, b[..Size(l[0])]) + MoveRecord(w, l[1..], o, p, b[Size(l[0])..])
  }

  /** Whole records from the front; a rest shorter than a record is left alone. */
  function MoveAll(w: Place, l: seq<Field>, o: Order, p: Order, b: seq<byte>): (r: seq<byte>)
    requires SizeAll(l) > 0
    ensures |r| <= |b| < |r| + SizeAll(l)
  {
    if |b| < SizeAll(l) then [] else MoveRecord(w, l, o, p, b[..SizeAll(l)]) + MoveAll(w, l, o, p, b[SizeAll(l)..])
  }

  lemma MoveFieldMeans(f: Field, o: Order, p: Order, b: seq<byte>)
    requires |b| == Size(f)
    ensures ValueOf(f, p, MoveField(f, o, p, b)) == ValueOf(f, o, b)
    ensures MoveField(f, p, o, MoveField(f, o, p, b)) == b
  {
    hide Load16, Load32, LoadSigned32, Store16, Store32;
    match f {
      case Half =>
        LoadStore16(p, Load16(o, b));
        StoreLoad16(o, b);
      case Word =>
        LoadStore32(p, Load32(o, b));
        StoreLoad32(o, b);
      case Sword =>
        LoadStoreSigned32(p, LoadSigned32(o, b));
        StoreLoad32(o, b);
      case Octet =>
      case Octets(_) =>
    }
  }

  lemma FirstField(w: Place, l: seq<Field>, o: Order, p: Order, b: seq<byte>)
    requires |b| == SizeAll(l)
    ensures l == [] ==> MoveRecord(w, l, o, p, b) == []
    ensures l != [] ==> SizeAll(l) == Size(l[0]) + SizeAll(l[1..])
                        && MoveRecord(w, l, o, p, b)
                        == StoreField(w, l[0], o, p, b[..Size(l[0])]) + MoveRecord(w, l[1..], o, p, b[Size(l[0])..])
  {
  }

  lemma FirstValue(l: seq<Field>, o: Order, b: seq<byte>)
    requires |b| == SizeAll(l)
    ensures l == [] ==> b == [] && Values(l, o, b) == []
    ensures l != [] ==> Size(l[0]) <= |b| && |b| == Size(l[0]) + SizeAll(l[1..])
                        && Values(l, o, b) == [ValueOf(l[0], o, b[..Size(l[0])])] + Values(l[1..], o, b[Size(l[0])..])
  {
  }

  /** A moved record has the same field values in its new order, and moving it back restores every byte. */
  lemma {:induction false} MoveRecordMeans(l: seq<Field>, o: Order, p: Order, b: seq<byte>)
    requires |b| == SizeAll(l)
    ensures Values(l, p, MoveRecord(Apart, l, o, p, b)) == Values(l, o, b)
    ensures MoveRecord(Apart, l, p, o, MoveRecord(Apart, l, o, p, b)) == b
    decreases |l|
  {
    hide MoveField, ValueOf, MoveRecord, Values, SizeAll, Size;
    FirstField(Apart, l, o, p, b);
    FirstField(Apart, l, p, o, MoveRecord(Apart, l, o, p, b));
    FirstValue(l, o, b);
    FirstValue(l, p, MoveRecord(Apart, l, o, p, b));
    if l != [] {
      var k := Size(l[0]);
      MoveFieldMeans(l[0], o, p, b[..k]);
      MoveRecordMeans(l[1..], o, p, b[k..]);
      var head, rest := MoveField(l[0], o, p, b[..k]), MoveRecord(Apart, l[1..], o, p, b[k..]);
      assert MoveRecord(Apart, l, o, p, b)[..k] == head && MoveRecord(Apart, l, o, p, b)[k..] == rest;
      assert b[..k] + b[k..] == b;
    }
  }

  /** Translating there and back is the identity on whole records, for every record type and both orders. */
  lemma {:induction false} RoundTrip(l: seq<Field>, o: Order, p: Order, b: seq<byte>)
    requires SizeAll(l) > 0
    ensures MoveAll(Apart, l, p, o, MoveAll(Apart, l, o, p, b)) == b[..|MoveAll(Apart, l, o, p, b)|]
    decreases |b|
  {
    hide MoveRecord, SizeAll;
    var n := SizeAll(l);
    if |b| >= n {
      var head, rest := MoveRecord(Apart, l, o, p, b[..n]), MoveAll(Apart, l, o, p, b[n..]);
      MoveRecordMeans(l, o, p, b[..n]);
      RoundTrip(l, o, p, b[n..]);
      assert MoveAll(Apart, l, o, p, b)[..n] == head && MoveAll(Apart, l, o, p, b)[n..] == rest;
      assert b[..n] + b[n..][..|rest|] == b[..n + |rest|];
    }
  }

  lemma {:induction false} MoveAllSize(w: Place, l: seq<Field>, o: Order, p: Order, b: seq<byte>)
    requires SizeAll(l) > 0
    ensures |MoveAll(w, l, o, p, b)| == |b| - |b| % SizeAll(l)
    decreases |b|
  {
    hide SizeAll;
    if |b| >= SizeAll(l) {
      MoveAllSize(w, l, o, p, b[SizeAll(l)..]);
      OneLess(|b|, SizeAll(l));
    } else {
      Remainder(|b|, SizeAll(l));
    }
  }

  /** Behind whole records the rest is moved on its own. */
  lemma {:induction false} MoveSplits(w: Place, l: seq<Field>, o: Order, p: Order, a: seq<byte>, b: seq<byte>)
    requires SizeAll(l) > 0 && |MoveAll(w, l, o, p, a)| == |a|
    ensures MoveAll(w, l, o, p, a + b) == MoveAll(w, l, o, p, a) + MoveAll(w, l, o, p, b)
    decreases |a|
  {
    hide SizeAll, MoveRecord;
    var n := SizeAll(l);
    if a == [] {
      assert a + b == b;
    } else {
      assert (a + b)[..n] == a[..n] && (a + b)[n..] == a[n..] + b;
      MoveSplits(w, l, o, p, a[n..], b);
    }
  }

  /** Every record of the result is the record of the source at the same place, moved. */
  lemma RecordAt(l: seq<Field>, o: Order, p: Order, b: seq<byte>, at: nat)
    requires SizeAll(l) > 0 && at + SizeAll(l) <= |b| && at % SizeAll(l) == 0
    ensures at + SizeAll(l) <= |MoveAll(Apart, l, o, p, b)|
    ensures MoveAll(Apart, l, o, p, b)[at..at + SizeAll(l)] == MoveRecord(Apart, l, o, p, b[at..at + SizeAll(l)])
  {
    hide MoveRecord, SizeAll;
    var n := SizeAll(l);
    MoveAllSize(Apart, l, o, p, b[..at]);
    MoveSplits(Apart, l, o, p, b[..at], b[at..]);
    assert b[..at] + b[at..] == b;
    assert b[at..][..n] == b[at..at + n];
    assert MoveAll(Apart, l, o, p, b[at..])[..n] == MoveRecord(Apart, l, o, p, b[at..at + n]);
  }

  lemma RecordMoves(l: seq<Field>, o: Order, p: Order, b: seq<byte>, at: nat)
    requires SizeAll(l) > 0 && at + SizeAll(l) <= |b| && at % SizeAll(l) == 0
    ensures at + SizeAll(l) <= |MoveAll(Apart, l, o, p, b)|
    ensures Values(l, p, MoveAll(Apart, l, o, p, b)[at..at + SizeAll(l)]) == Values(l, o, b[at..at + SizeAll(l)])
  {
    hide MoveRecord, SizeAll, Values;
    RecordAt(l, o, p, b, at);
    MoveRecordMeans(l, o, p, b[at..at + SizeAll(l)]);
  }

  // ------------------------------------------------------------------------- in place

  /** Reads the same in both orders. */
  predicate Mirrored(f: Field, b: seq<byte>)
    requires |b| == Size(f)
  {
    match f
    case Half => b[0] == b[1]
    case Word => b[0] == b[3] && b[1] == b[2]
    case Sword => b[0] == b[3] && b[1] == b[2]
    case _ => true
  }

  predicate MirroredRecord(l: seq<Field>, b: seq<byte>)
    requires |b| == SizeAll(l)
  {
    l == [] || (Mirrored(l[0], b[..Size(l[0])]) && MirroredRecord(l[1..], b[Size(l[0])..]))
  }

  /** In every whole record. */
  predicate MirroredAll(l: seq<Field>, b: seq<byte>)
    requires SizeAll(l) > 0
  {
    |b| < SizeAll(l) || (MirroredRecord(l, b[..SizeAll(l)]) && MirroredAll(l, b[SizeAll(l)..]))
  }

  lemma FieldInPlaceIff(f: Field, o: Order, p: Order, b: seq<byte>)
    requires |b| == Size(f)
    ensures StoreField(Itself, f, o, p, b) == MoveField(f, o, p, b) <==> o == p || Mirrored(f, b)
  {
    hide Load16, Load32, Store16, Store32, StoreInPlace16, StoreInPlace32;
    match f {
      case Half => InPlaceHalfIff(o, p, b);
      case Word => InPlaceIff(o, p, b);
      case Sword =>
        InPlaceIff(o, p, b);
        SignDoesNotShow(o, p, b);
      case Octet =>
      case Octets(_) =>
    }
  }

  lemma SignDoesNotShow(o: Order, p: Order, b: seq<byte>)
    requires |b| == 4
    ensures Store32(p, LoadSigned32(o, b)) == Store32(p, Load32(o, b))
  {
    hide Load32, Digit;
    WrapKeepsDigits(Load32(o, b));
  }

  lemma SameParts(a: seq<byte>, b: seq<byte>, c: seq<byte>, d: seq<byte>)
    requires |a| == |c|
    ensures a + b == c + d <==> a == c && b == d
  {
    if a + b == c + d {
      assert (a + b)[..|a|] == a && (c + d)[..|a|] == c;
      assert (a + b)[|a|..] == b && (c + d)[|a|..] == d;
    }
  }

  lemma {:induction false} RecordInPlaceIff(l: seq<Field>, o: Order, p: Order, b: seq<byte>)
    requires |b| == SizeAll(l)
    ensures MoveRecord(Itself, l, o, p, b) == MoveRecord(Apart, l, o, p, b) <==> o == p || MirroredRecord(l, b)
    decreases |l|
  {
    hide StoreField, MoveField, MoveRecord, Mirrored, Size;
    FirstField(Itself, l, o, p, b);
    FirstField(Apart, l, o, p, b);
    if l != [] {
      var k := Size(l[0]);
      FieldApart(l[0], o, p, b[..k]);
      FieldInPlaceIff(l[0], o, p, b[..k]);
      RecordInPlaceIff(l[1..], o, p, b[k..]);
      SameParts(StoreField(Itself, l[0], o, p, b[..k]), MoveRecord(Itself, l[1..], o, p, b[k..]),
                MoveField(l[0], o, p, b[..k]), MoveRecord(Apart, l[1..], o, p, b[k..]));
    }
  }

  lemma FieldApart(f: Field, o: Order, p: Order, b: seq<byte>)
    requires |b| == Size(f)
    ensures StoreField(Apart, f, o, p, b) == MoveField(f, o, p, b)
  {
  }

  /** Written over itself, any number of records of any layout comes out as in a buffer of its own if and only if the
      orders agree or every field of every whole record reads the same both ways. */
  lemma {:induction false} AllInPlaceIff(l: seq<Field>, o: Order, p: Order, b: seq<byte>)
    requires SizeAll(l) > 0
    ensures MoveAll(Itself, l, o, p, b) == MoveAll(Apart, l, o, p, b) <==> o == p || MirroredAll(l, b)
    decreases |b|
  {
    hide MoveRecord, MirroredRecord, SizeAll;
    var n := SizeAll(l);
    if |b| >= n {
      RecordInPlaceIff(l, o, p, b[..n]);
      AllInPlaceIff(l, o, p, b[n..]);
      SameParts(MoveRecord(Itself, l, o, p, b[..n]), MoveAll(Itself, l, o, p, b[n..]),
                MoveRecord(Apart, l, o, p, b[..n]), MoveAll(Apart, l, o, p, b[n..]));
    }
  }

  // -------------------------------------------------------------------------- the code

  method StoreBytes(dst: array<byte>, at: nat, v: seq<byte>)
    requires at + |v| <= dst.Length
    modifies dst
    ensures dst[..] == Splice(old(dst[..]), at, v)
  {
    ghost var was := dst[..];
    for k := 0 to |v|
      invariant dst[..] == Splice(was, at, v[..k])
    {
      dst[at + k] := v[k];
      SpliceOne(was, at, v[..k], v[k]);
      assert v[..k] + [v[k]] == v[..k + 1];
    }
    assert v[..|v|] == v;
  }

  function PlaceOf(tof: bool, same: bool): Place {
    if tof && same then Itself else Apart
  }

  lemma SpliceAgain(b: seq<byte>, a: nat, t: seq<byte>, u: seq<byte>)
    requires |t| == |u| && a + |t| <= |b|
    ensures Splice(b, a, t)[a..a + |t|] == t && Splice(Splice(b, a, t), a, u) == Splice(b, a, u)
  {
  }

  lemma SpliceInside(b: seq<byte>, a: nat, n: nat, i: nat, v: byte)
    requires a + n <= |b| && i < n
    ensures b[a + i := v] == Splice(b, a, b[a..a + n][i := v])
  {
  }

  /** One byte of a store macro: the value is read for every byte. */
  method PutByte32(o: Order, dst: array<byte>, src: array<byte>, at: nat, i: nat, unit: int)
    requires at + 4 <= dst.Length && at + 4 <= src.Length && i < 4 && unit > 0
    modifies dst
    ensures dst[..] == Splice(old(dst[..]), at, old(dst[at..at + 4])[i := Digit(Load32(o, old(src[at..at + 4])), unit)])
  {
    hide Load32, Digit, Splice;
    var v := Digit(Load32(o, src[at..at + 4]), unit);
    SpliceInside(dst[..], at, 4, i, v);
    assert dst[..][at..at + 4] == dst[at..at + 4];
    dst[at + i] := v;
  }

  method PutByte16(o: Order, dst: array<byte>, src: array<byte>, at: nat, i: nat, unit: int)
    requires at + 2 <= dst.Length && at + 2 <= src.Length && i < 2 && unit > 0
    modifies dst
    ensures dst[..] == Splice(old(dst[..]), at, old(dst[at..at + 2])[i := Digit(Load16(o, old(src[at..at + 2])), unit)])
  {
    hide Load16, Digit, Splice;
    var v := Digit(Load16(o, src[at..at + 2]), unit);
    SpliceInside(dst[..], at, 2, i, v);
    assert dst[..][at..at + 2] == dst[at..at + 2];
    dst[at + i] := v;
  }

  method StoreHalf(o: Order, p: Order, dst: array<byte>, src: array<byte>, at: nat)
    requires at + 2 <= dst.Length && at + 2 <= src.Length
    modifies dst
    ensures dst[..] == Splice(old(dst[..]), at, StoreField(PlaceOf(true, dst == src), Half, o, p, old(src[at..at + 2])))
  {
    hide Load16, Digit, Splice;
    ghost var was, d, b := dst[..], dst[at..at + 2], src[at..at + 2];
    var i, j := if p.Lsb? then 1 else 0, if p.Lsb? then 0 else 1;
    PutByte16(o, dst, src, at, i, 0x100);
    ghost var d1 := d[i := Digit(Load16(o, b), 0x100)];
    SpliceAgain(was, at, d1, d1);
    assert dst[at..at + 2] == dst[..][at..at + 2] == d1;
    ghost var b1 := src[at..at + 2];
    PutByte16(o, dst, src, at, j, 1);
    ghost var d2 := d1[j := Digit(Load16(o, b1), 1)];
    SpliceAgain(was, at, d1, d2);
    assert d2 == StoreField(PlaceOf(true, dst == src), Half, o, p, b);
  }

  method StoreWord(o: Order, p: Order, dst: array<byte>, src: array<byte>, at: nat)
    requires at + 4 <= dst.Length && at + 4 <= src.Length
    modifies dst
    ensures dst[..] == Splice(old(dst[..]), at, StoreField(PlaceOf(true, dst == src), Word, o, p, old(src[at..at + 4])))
  {
    hide Load32, Digit, Splice;
    ghost var was, d, b := dst[..], dst[at..at + 4], src[at..at + 4];
    var i, j, k, m := if p.Lsb? then 3 else 0, if p.Lsb? then 2 else 1, if p.Lsb? then 1 else 2, if p.Lsb? then 0 else 3;
    PutByte32(o, dst, src, at, i, 0x100_0000);
    ghost var d1 := d[i := Digit(Load32(o, b), 0x100_0000)];
    SpliceAgain(was, at, d1, d1);
    assert dst[at..at + 4] == dst[..][at..at + 4] == d1;
    ghost var b1 := src[at..at + 4];
    PutByte32(o, dst, src, at, j, 0x1_0000);
    ghost var d2 := d1[j := Digit(Load32(o, b1), 0x1_0000)];
    SpliceAgain(was, at, d1, d2);
    SpliceAgain(was, at, d2, d2);
    assert dst[at..at + 4] == dst[..][at..at + 4] == d2;
    ghost var b2 := src[at..at + 4];
    PutByte32(o, dst, src, at, k, 0x100);
    ghost var d3 := d2[k := Digit(Load32(o, b2), 0x100)];
    SpliceAgain(was, at, d2, d3);
    SpliceAgain(was, at, d3, d3);
    assert dst[at..at + 4] == dst[..][at..at + 4] == d3;
    ghost var b3 := src[at..at + 4];
    PutByte32(o, dst, src, at, m, 1);
    ghost var d4 := d3[m := Digit(Load32(o, b3), 1)];
    SpliceAgain(was, at, d3, d4);
    assert d4 == StoreField(PlaceOf(true, dst == src), Word, o, p, b);
  }

  method CopyField(f: Field, o: Order, p: Order, tof: bool, dst: array<byte>, src: array<byte>, at: nat)
    requires at + Size(f) <= dst.Length && at + Size(f) <= src.Length
    modifies dst
    ensures dst[..] == Splice(old(dst[..]), at, StoreField(PlaceOf(tof, dst == src), f, o, p, old(src[at..at + Size(f)])))
  {
    hide Load16, Load32, LoadSigned32, Store16, Store32, Splice, StoreInPlace16, StoreInPlace32;
    var b := src[at..at + Size(f)];
    if tof && f.Half? {
      StoreHalf(o, p, dst, src, at);
    } else if tof && (f.Word? || f.Sword?) {
      SignDoesNotShow(o, p, b);
      StoreWord(o, p, dst, src, at);
    } else {
      StoreBytes(dst, at, MoveField(f, o, p, b));
    }
  }

  method CopyRecord(l: seq<Field>, o: Order, p: Order, tof: bool, dst: array<byte>, src: array<byte>, at: nat)
    requires at + SizeAll(l) <= dst.Length && at + SizeAll(l) <= src.Length
    modifies dst
    ensures dst[..] == Splice(old(dst[..]), at,
                              MoveRecord(PlaceOf(tof, dst == src), l, o, p, old(src[at..at + SizeAll(l)])))
    decreases |l|
  {
    hide StoreField, Splice, MoveRecord, SizeAll, Size, PlaceOf;
    ghost var was, b, w := dst[..], src[at..at + SizeAll(l)], PlaceOf(tof, dst == src);
    FirstField(w, l, o, p, b);
    if l == [] {
      SpliceNone(was, at);
    } else {
      var k := Size(l[0]);
      assert b[..k] == src[at..at + k];
      CopyField(l[0], o, p, tof, dst, src, at);
      ghost var first := StoreField(w, l[0], o, p, b[..k]);
      assert b[k..] == src[at + k..at + SizeAll(l)] by {
        if dst == src {
          SpliceKeeps(was, at, first, at + k, at + SizeAll(l));
        }
      }
      CopyRecord(l[1..], o, p, tof, dst, src, at + k);
      SpliceNext(was, at, first, MoveRecord(w, l[1..], o, p, b[k..]));
    }
  }

  /** Bytes behind what was written stay. */
  lemma SpliceKeeps(b: seq<byte>, a: nat, t: seq<byte>, i: nat, j: nat)
    requires a + |t| <= i <= j <= |b|
    ensures Splice(b, a, t)[i..j] == b[i..j]
  {
  }

  /** One more whole record. */
  lemma MoveOneMore(w: Place, l: seq<Field>, o: Order, p: Order, b: seq<byte>, at: nat)
    requires SizeAll(l) > 0 && at + SizeAll(l) <= |b| && |MoveAll(w, l, o, p, b[..at])| == at
    ensures MoveAll(w, l, o, p, b[..at + SizeAll(l)])
         == MoveAll(w, l, o, p, b[..at]) + MoveRecord(w, l, o, p, b[at..at + SizeAll(l)])
  {
    hide SizeAll, MoveRecord;
    var n := SizeAll(l);
    var rec := b[at..at + n];
    MoveSplits(w, l, o, p, b[..at], rec);
    assert b[..at] + rec == b[..at + n];
    assert rec[..n] == rec && rec[n..] == [];
  }

  /** What is left is no record. */
  lemma MoveRest(w: Place, l: seq<Field>, o: Order, p: Order, b: seq<byte>, at: nat)
    requires SizeAll(l) > 0 && at <= |b| < at + SizeAll(l) && |MoveAll(w, l, o, p, b[..at])| == at
    ensures MoveAll(w, l, o, p, b) == MoveAll(w, l, o, p, b[..at])
  {
    hide SizeAll, MoveRecord;
    MoveSplits(w, l, o, p, b[..at], b[at..]);
    assert b[..at] + b[at..] == b;
  }

  lemma MoveNothing(w: Place, l: seq<Field>, o: Order, p: Order)
    requires SizeAll(l) > 0
    ensures MoveAll(w, l, o, p, []) == []
  {
  }

  lemma TwoParts(b: seq<byte>, a: nat, r: nat, n: nat)
    requires a + r <= n <= |b|
    ensures b[a..n][..r] == b[a..a + r] && b[a..n][r..] == b[a + r..n]
  {
  }

  /** One round of the translator's loop. */
  method CopyNext(l: seq<Field>, o: Order, p: Order, tof: bool, dst: array<byte>, src: array<byte>, n: nat, at: nat,
                  ghost was: seq<byte>, ghost b: seq<byte>)
    requires SizeAll(l) > 0 && at + SizeAll(l) <= n == |b| <= src.Length && at + SizeAll(l) <= dst.Length == |was|
    requires src[at..n] == b[at..]
    requires var m := MoveAll(PlaceOf(tof, dst == src), l, o, p, b[..at]); |m| == at && dst[..] == Splice(was, 0, m)
    modifies dst
    ensures src[at + SizeAll(l)..n] == b[at + SizeAll(l)..]
    ensures var m := MoveAll(PlaceOf(tof, dst == src), l, o, p, b[..at + SizeAll(l)]);
            |m| == at + SizeAll(l) && dst[..] == Splice(was, 0, m)
  {
    hide SizeAll, MoveRecord, Splice, MoveAll, PlaceOf;
    ghost var r, w, now := SizeAll(l), PlaceOf(tof, dst == src), dst[..];
    MoveOneMore(w, l, o, p, b, at);
    TwoParts(src[..], at, r, n);
    TwoParts(b, at, r, n);
    assert b[at..n] == b[at..] && b[at + r..n] == b[at + r..];
    ghost var rec := MoveRecord(w, l, o, p, b[at..at + r]);
    CopyRecord(l, o, p, tof, dst, src, at);
    assert src[at + r..n] == b[at + r..] by {
      if dst == src {
        SpliceKeeps(now, at, rec, at + r, n);
        assert src[at + r..n] == dst[..][at + r..n];
      }
    }
    SpliceNext(was, 0, MoveAll(w, l, o, p, b[..at]), rec);
  }

  /** A translator: with no destination it only measures; the destination may be the source itself. */
  method Translate(l: seq<Field>, o: Order, p: Order, tof: bool, dst: array?<byte>, src: array<byte>, n: nat)
    returns (size: nat)
    requires SizeAll(l) > 0 && n <= src.Length
    requires dst != null ==> n - n % SizeAll(l) <= dst.Length
    modifies if dst != null then {dst} else {}
    ensures size == |MoveAll(PlaceOf(tof, dst == src), l, o, p, old(src[..n]))| == n - n % SizeAll(l)
    ensures dst != null ==>
              dst[..] == Splice(old(dst[..]), 0, MoveAll(PlaceOf(tof, dst == src), l, o, p, old(src[..n])))
  {
    hide SizeAll, MoveRecord, Splice, MoveAll, PlaceOf;
    var r := SizeAll(l);
    var count := n / r;
    ghost var w := PlaceOf(tof, dst == src);
    MoveAllSize(w, l, o, p, src[..n]);
    assert count * r == n - n % r;
    if dst != null {
      ghost var was, b := dst[..], src[..n];
      SpliceNone(was, 0);
      MoveNothing(w, l, o, p);
      var at := 0;
      for i := 0 to count
        invariant at == i * r <= count * r && at == |MoveAll(w, l, o, p, b[..at])|
        invariant src[at..n] == b[at..]
        invariant dst[..] == Splice(was, 0, MoveAll(w, l, o, p, b[..at]))
      {
        Within(i, count, r);
        CopyNext(l, o, p, tof, dst, src, n, at, was, b);
        at := at + r;
      }
      MoveRest(w, l, o, p, b, at);
    }
    size := count * r;
  }

  /** struct Elf_Data: a buffer of size bytes, a type number and a version. */
  class ElfData {
    var buf: array?<byte>
    var size: nat
    var kind: int
    var version: int

    constructor (b: array?<byte>, n: nat, k: int, v: int)
      ensures buf == b && size == n && kind == k && version == v
    {
      buf := b;
      size := n;
      kind := k;
      version := v;
    }
  }

  datatype Outcome = NullBuffer | UnknownEncoding | UnknownVersion | UnknownType | TooSmall | Done

  const EV_CURRENT := 1
  const ELF_T_NUM := 17

  predicate Known(t: int) {
    0 <= t && Layout(t) != []
  }

  lemma LayoutHasSize(t: nat)
    requires Layout(t) != []
    ensures SizeAll(Layout(t)) > 0
  {
    assert Size(Layout(t)[0]) > 0;
  }

  /** The byte order a file encoding stands for, and the direction's two orders. */
  function FileOrder(encode: nat): Order {
    if encode == 1 then Lsb else Msb
  }

  function Source(tof: bool, host: Order, encode: nat): Order {
    if tof then host else FileOrder(encode)
  }

  function Target(tof: bool, host: Order, encode: nat): Order {
    if tof then FileOrder(encode) else host
  }

  /** What elf32_xlate answers, in the order in which it looks. */
  function Answer(ssize: nat, dsize: nat, kind: int, sv: int, dv: int, encode: nat, buffers: bool): Outcome {
    if !buffers then NullBuffer
    else if encode != 1 && encode != 2 then UnknownEncoding
    else if !(0 < sv <= EV_CURRENT && 0 < dv <= EV_CURRENT) then UnknownVersion
    else if !Known(kind) then UnknownType
    else if dsize < ssize - ssize % RecordSize(kind) then TooSmall
    else Done
  }

  function RecordSize(t: nat): (n: nat)
    requires Known(t)
    ensures n > 0
  {
    LayoutHasSize(t);
    SizeAll(Layout(t))
  }

  function Moved(w: Place, kind: int, tof: bool, host: Order, encode: nat, b: seq<byte>): seq<byte>
    requires Known(kind)
  {
    LayoutHasSize(kind);
    MoveAll(w, Layout(kind), Source(tof, host, encode), Target(tof, host, encode), b)
  }

  /** In one buffer, translating to memory is always right; translating to the file is right if and only if the orders
      agree or every field of every whole record reads the same both ways. */
  lemma OneBufferIff(kind: int, tof: bool, host: Order, encode: nat, b: seq<byte>)
    requires Known(kind)
    ensures RecordSize(kind) == SizeAll(Layout(kind)) > 0
    ensures Moved(PlaceOf(tof, true), kind, tof, host, encode, b) == Moved(Apart, kind, tof, host, encode, b)
            <==> !tof || host == FileOrder(encode) || MirroredAll(Layout(kind), b)
  {
    hide MoveAll, MirroredAll, SizeAll, Layout;
    LayoutHasSize(kind);
    AllInPlaceIff(Layout(kind), Source(tof, host, encode), Target(tof, host, encode), b);
  }

  function Held(b: array?<byte>): seq<byte>
    reads b
  {
    if b == null then [] else b[..]
  }

  /** The translator found for a record type. */
  method Translator(kind: nat, tof: bool, host: Order, encode: nat, dst: array?<byte>, src: array<byte>, n: nat)
    returns (size: nat)
    requires Known(kind) && n <= src.Length && (dst != null ==> n - n % RecordSize(kind) <= dst.Length)
    modifies if dst != null then {dst} else {}
    ensures size == n - n % RecordSize(kind)
         == |Moved(PlaceOf(tof, dst == src), kind, tof, host, encode, old(src[..n]))|
    ensures dst != null ==>
              dst[..] == Splice(old(dst[..]), 0, Moved(PlaceOf(tof, dst == src), kind, tof, host, encode, old(src[..n])))
  {
    hide MoveAll, Splice, SizeAll, Layout, PlaceOf;
    LayoutHasSize(kind);
    size := Translate(Layout(kind), Source(tof, host, encode), Target(tof, host, encode), tof, dst, src, n);
  }

  lemma MovedNothing(w: Place, kind: int, tof: bool, host: Order, encode: nat, b: seq<byte>, d: seq<byte>)
    requires Known(kind) && |b| - |b| % RecordSize(kind) == 0
    ensures Moved(w, kind, tof, host, encode, b) == [] && Splice(d, 0, []) == d
  {
    hide MoveAll, SizeAll, Layout;
    LayoutHasSize(kind);
    MoveAllSize(w, Layout(kind), Source(tof, host, encode), Target(tof, host, encode), b);
    SpliceNone(d, 0);
  }

  /** elf32_xlate, whether the two descriptors or their buffers are one or two; the host's byte order is a parameter. */
  method Xlate(dst: ElfData, src: ElfData, encode: nat, tof: bool, host: Order) returns (r: Outcome)
    requires (src.buf != null ==> src.size <= src.buf.Length) && (dst.buf != null ==> dst.size <= dst.buf.Length)
    modifies dst, if dst.buf == null then {} else {dst.buf}
    ensures r == Answer(old(src.size), old(dst.size), old(src.kind), src.version, dst.version, encode,
                        src.buf != null && dst.buf != null)
    ensures dst.buf == old(dst.buf) && dst.version == old(dst.version)
    ensures r != Done ==> dst.size == old(dst.size) && dst.kind == old(dst.kind) && Held(dst.buf) == old(Held(dst.buf))
    ensures r == Done ==>
              Known(old(src.kind)) && old(src.size) <= |old(Held(src.buf))| && dst.kind == old(src.kind)
              && var moved := Moved(PlaceOf(tof, src.buf == dst.buf), old(src.kind), tof, host, encode,
                                    old(Held(src.buf)[..src.size]));
              dst.size == |moved| <= |old(Held(dst.buf))| && Held(dst.buf) == Splice(old(Held(dst.buf)), 0, moved)
  {
    hide Moved, Splice, RecordSize, Layout, PlaceOf;
    if src.buf == null || dst.buf == null {
      return NullBuffer;
    }
    if encode != 1 && encode != 2 {
      return UnknownEncoding;
    }
    if !(0 < src.version <= EV_CURRENT) || !(0 < dst.version <= EV_CURRENT) {
      return UnknownVersion;
    }
    NoLayoutBeyond(src.kind);
    if !(0 <= src.kind < ELF_T_NUM) {
      return UnknownType;
    }
    if Layout(src.kind) == [] {
      return UnknownType;
    }
    var dsize := Translator(src.kind, tof, host, encode, null, src.buf, src.size);
    if dst.size < dsize {
      return TooSmall;
    }
    if dsize > 0 {
      var written := Translator(src.kind, tof, host, encode, dst.buf, src.buf, src.size);
      assert written == dsize;
    } else {
      MovedNothing(PlaceOf(tof, src.buf == dst.buf), src.kind, tof, host, encode, src.buf[..src.size], dst.buf[..]);
    }
    dst.size := dsize;
    dst.kind := src.kind;
    r := Done;
  }

  lemma NoLayoutBeyond(t: int)
    ensures t >= ELF_T_NUM ==> !Known(t)
  {
  }

  ghost predicate Separate(dst: ElfData, src: ElfData)
    reads dst, src
  {
    && src != dst && (src.buf == null || src.buf != dst.buf)
    && (src.buf != null ==> src.size <= src.buf.Length) && (dst.buf != null ==> dst.size <= dst.buf.Length)
  }

  /** Memory to file and back to fresh memory through elf32_xlatetof and elf32_xlatetom. */
  method ThereAndBack(mem: ElfData, file: ElfData, again: ElfData, encode: nat, host: Order) returns (ok: bool)
    requires mem.buf != null && file.buf != null && again.buf != null
    requires Separate(file, mem) && Separate(again, file) && again != mem && again.buf != mem.buf
    modifies file, file.buf, again, again.buf
    ensures again.buf == old(again.buf)
    ensures ok ==> Known(mem.kind) && again.size <= mem.size && again.size <= again.buf.Length && again.kind == mem.kind
                   && again.size == mem.size - mem.size % RecordSize(mem.kind)
                   && again.buf[..again.size] == mem.buf[..again.size]
    ensures !ok ==> (encode != 1 && encode != 2) || mem.version != EV_CURRENT || old(file.version) != EV_CURRENT
                    || old(again.version) != EV_CURRENT || !Known(mem.kind)
                    || old(file.size) < mem.size - mem.size % RecordSize(mem.kind)
                    || old(again.size) < mem.size - mem.size % RecordSize(mem.kind)
  {
    hide Splice, MoveAll, Layout, SizeAll;
    ok := false;
    var r := Xlate(file, mem, encode, true, host);
    if r != Done {
      return;
    }
    LayoutHasSize(mem.kind);
    ghost var l, o, p := Layout(mem.kind), host, FileOrder(encode);
    ghost var b := mem.buf[..mem.size];
    MoveAllSize(Apart, l, o, p, b);
    SpliceAtFront(old(file.buf[..]), MoveAll(Apart, l, o, p, b));
    assert file.buf[..file.size] == MoveAll(Apart, l, o, p, b);
    MoveAllSize(Apart, l, p, o, MoveAll(Apart, l, o, p, b));
    RoundTrip(l, o, p, b);
    WholeRecords(mem.size, RecordSize(mem.kind));
    r := Xlate(again, file, encode, false, host);
    if r != Done {
      return;
    }
    SpliceAtFront(old(again.buf[..]), MoveAll(Apart, l, p, o, MoveAll(Apart, l, o, p, b)));
    ok := true;
  }

  lemma WholeRecords(a: nat, n: nat)
    requires n > 0
    ensures (a - a % n) % n == 0
  {
    assert a - a % n == a / n * n + 0;
    SameRemainder(n, (a - a % n) / n, (a - a % n) % n, a / n, 0);
  }
}
