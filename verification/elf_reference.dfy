/** The 32-bit ELF records of the System V ABI, field by field, and what translation does to each of them: what a field
    means is written out here, apart from the load and store macros of c/libelf. */
module ElfReference {
  import opened Bytes
  import opened Splices
  import opened ElfXlate

  // ------------------------------------------------------------------------ numbers

  /** Least significant byte first. */
  function Little(b: seq<byte>): nat {
    if b == [] then 0 else b[0] + 0x100 * Little(b[1..])
  }

  /** Most significant byte first. */
  function Big(b: seq<byte>): nat {
    if b == [] then 0 else 0x100 * Big(b[..|b| - 1]) + b[|b| - 1]
  }

  function Valued(little: bool, b: seq<byte>): nat {
    if little then Little(b) else Big(b)
  }

  // ------------------------------------------------------------------------ records

  /** A number whose bytes depend on the order, or bytes that are copied. */
  datatype Part = Num(at: nat, width: nat) | Raws(at: nat, width: nat)

  function Size32(kind: nat): nat {
    match kind
    case 0 => 1
    case 2 => 8
    case 3 => 52
    case 4 => 2
    case 6 => 32
    case 7 => 12
    case 8 => 8
    case 9 => 40
    case 11 => 16
    case _ => 4
  }

  /** Where the fields of each record type lie, by type number. */
  function Parts(kind: nat): seq<Part> {
    match kind
    case 0 => [Raws(0, 1)]
    case 2 => Words(2)
    case 3 => [Raws(0, 16), Num(16, 2), Num(18, 2), Num(20, 4), Num(24, 4), Num(28, 4), Num(32, 4), Num(36, 4),
               Num(40, 2), Num(42, 2), Num(44, 2), Num(46, 2), Num(48, 2), Num(50, 2)]
    case 4 => [Num(0, 2)]
    case 6 => Words(8)
    case 7 => Words(3)
    case 8 => Words(2)
    case 9 => Words(10)
    case 11 => [Num(0, 4), Num(4, 4), Num(8, 4), Raws(12, 1), Raws(13, 1), Num(14, 2)]
    case _ => Words(1)
  }

  /** n words, one after the other. */
  function Words(n: nat): seq<Part> {
    seq(n, i requires 0 <= i < n => Num(4 * i, 4))
  }

  /** The part has the same meaning in both records. */
  predicate SameMeaning(q: Part, from: seq<byte>, fromLittle: bool, to: seq<byte>, toLittle: bool)
    requires |from| == |to| && q.at + q.width <= |from|
  {
    var (x, y) := (from[q.at..q.at + q.width], to[q.at..q.at + q.width]);
    if q.Num? then Valued(toLittle, y) == Valued(fromLittle, x) else y == x
  }

  // ------------------------------------------------------------- fields of a layout

  function Offset(l: seq<Field>, i: nat): nat
    requires i <= |l|
  {
    if i == 0 then 0 else Offset(l, i - 1) + Size(l[i - 1])
  }

  lemma {:induction false} OffsetTail(l: seq<Field>, i: nat)
    requires 1 <= i <= |l|
    ensures Offset(l, i) == Size(l[0]) + Offset(l[1..], i - 1)
    decreases i
  {
    if i > 1 {
      OffsetTail(l, i - 1);
      assert l[1..][i - 2] == l[i - 1];
    } else {
      assert Offset(l, 0) == 0;
    }
  }

  lemma {:induction false} OffsetAll(l: seq<Field>)
    ensures Offset(l, |l|) == SizeAll(l)
    decreases |l|
  {
    if l != [] {
      OffsetTail(l, |l|);
      OffsetAll(l[1..]);
    }
  }

  lemma {:induction false} OffsetsGrow(l: seq<Field>, i: nat, j: nat)
    requires i <= j <= |l|
    ensures Offset(l, i) <= Offset(l, j)
    decreases j
  {
    if i < j { OffsetsGrow(l, i, j - 1); }
  }

  lemma OffsetInside(l: seq<Field>, i: nat)
    requires i < |l|
    ensures Offset(l, i) + Size(l[i]) <= SizeAll(l)
  {
    OffsetAll(l);
    OffsetsGrow(l, i + 1, |l|);
  }

  /** Each field is moved on its own. */
  lemma {:induction false} FieldMoves(l: seq<Field>, o: Order, p: Order, b: seq<byte>, i: nat)
    requires |b| == SizeAll(l) && i < |l|
    ensures Offset(l, i) + Size(l[i]) <= |b|
    ensures var (lo, hi) := (Offset(l, i), Offset(l, i) + Size(l[i]));
            MoveRecord(Apart, l, o, p, b)[lo..hi] == MoveField(l[i], o, p, b[lo..hi])
    decreases i
  {
    hide StoreField, MoveField, MoveRecord, SizeAll, Size;
    OffsetInside(l, i);
    FirstField(Apart, l, o, p, b);
    var k := Size(l[0]);
    FieldApart(l[0], o, p, b[..k]);
    var head, rest := MoveField(l[0], o, p, b[..k]), MoveRecord(Apart, l[1..], o, p, b[k..]);
    if i > 0 {
      FieldMoves(l[1..], o, p, b[k..], i - 1);
      OffsetTail(l, i);
      var lo, hi := Offset(l, i), Offset(l, i) + Size(l[i]);
      SliceBehind(head, rest, lo, hi);
      SliceBehind(b[..k], b[k..], lo, hi);
      assert b == b[..k] + b[k..];
    } else {
      assert (head + rest)[0..k] == head;
      assert b[0..k] == b[..k];
    }
  }

  lemma SliceBehind(a: seq<byte>, b: seq<byte>, lo: nat, hi: nat)
    requires |a| <= lo <= hi <= |a| + |b|
    ensures (a + b)[lo..hi] == b[lo - |a|..hi - |a|]
  {
  }

  // --------------------------------------------------------------- numbers in fields

  lemma LittleTwo(b: seq<byte>)
    requires |b| == 2
    ensures Little(b) == b[1] as int * 0x100 + b[0] && Big(b) == b[0] as int * 0x100 + b[1]
  {
    assert Little(b[1..][1..]) == 0 && Big(b[..1][..0]) == 0;
    assert Little(b[1..]) == b[1] && Big(b[..1]) == b[0];
  }

  lemma LittleFour(b: seq<byte>)
    requires |b| == 4
    ensures Little(b) == FromBytes(b[3], b[2], b[1], b[0]) && Big(b) == FromBytes(b[0], b[1], b[2], b[3])
  {
    LittleTwo(b[2..]);
    LittleTwo(b[..2]);
    assert b[1..][1..] == b[2..] && b[..3][..2] == b[..2];
    assert Little(b[1..]) == b[1] + 0x100 * Little(b[2..]);
    assert Big(b[..3]) == 0x100 * Big(b[..2]) + b[2];
  }

  predicate Numeric(f: Field) {
    f.Half? || f.Word? || f.Sword?
  }

  /** A moved number has the same value, read in the new order. */
  lemma FieldValue(f: Field, o: Order, p: Order, b: seq<byte>)
    requires |b| == Size(f) && Numeric(f)
    ensures Valued(p.Lsb?, MoveField(f, o, p, b)) == Valued(o.Lsb?, b)
  {
    hide Little, Big, FromBytes, Digit;
    var r := MoveField(f, o, p, b);
    if f.Half? {
      LoadStore16(p, Load16(o, b));
      LittleTwo(b);
      LittleTwo(r);
    } else {
      if f.Sword? { SignDoesNotShow(o, p, b); }
      LoadStore32(p, Load32(o, b));
      LittleFour(b);
      LittleFour(r);
    }
  }

  // ------------------------------------------------------------- layouts and records

  /** Field i of the layout is part q of the record. */
  predicate Is(l: seq<Field>, i: nat, q: Part) {
    i < |l| && Offset(l, i) == q.at && Size(l[i]) == q.width && (Numeric(l[i]) <==> q.Num?)
  }

  predicate LaidOut(l: seq<Field>, ps: seq<Part>, size: nat) {
    |l| == |ps| && SizeAll(l) == size && forall i :: 0 <= i < |l| ==> Is(l, i, ps[i])
  }

  /** One field after the other. */
  lemma {:induction false} LaidOutSoFar(l: seq<Field>, ps: seq<Part>, n: nat)
    requires n <= |l| == |ps| && (forall i :: 0 <= i < |l| ==> Size(l[i]) == ps[i].width && (Numeric(l[i]) <==> ps[i].Num?))
    requires forall i :: 0 <= i < |l| ==> ps[i].at == if i == 0 then 0 else ps[i - 1].at + ps[i - 1].width
    ensures Offset(l, n) == if n == 0 then 0 else ps[n - 1].at + ps[n - 1].width
    ensures forall i :: 0 <= i < n ==> Is(l, i, ps[i])
    decreases n
  {
    if n > 0 { LaidOutSoFar(l, ps, n - 1); }
  }

  /** The translation table has the records of the ABI. */
  lemma LayoutsAreRight(kind: nat)
    requires kind <= 12
    ensures LaidOut(Layout(kind), Parts(kind), Size32(kind))
  {
    hide Offset, SizeAll, Is, Layout, Parts, Numeric;
    var l, ps := Layout(kind), Parts(kind);
    FieldsMatch(kind);
    LaidOutSoFar(l, ps, |l|);
    OffsetAll(l);
  }

  /** The same fields, and no gaps. */
  predicate Matching(l: seq<Field>, ps: seq<Part>, size: nat) {
    Alike(l, ps) && NoGaps(ps, size)
  }

  predicate Alike(l: seq<Field>, ps: seq<Part>) {
    |l| == |ps| && forall i :: 0 <= i < |l| ==> Size(l[i]) == ps[i].width && (Numeric(l[i]) <==> ps[i].Num?)
  }

  predicate NoGaps(ps: seq<Part>, size: nat) {
    && ps != [] && ps[|ps| - 1].at + ps[|ps| - 1].width == size
    && forall i :: 0 <= i < |ps| ==> ps[i].at == if i == 0 then 0 else ps[i - 1].at + ps[i - 1].width
  }

  lemma FieldsMatch(kind: nat)
    requires kind <= 12
    ensures Matching(Layout(kind), Parts(kind), Size32(kind))
  {
    hide Alike, NoGaps, Layout, Parts;
    HeaderAlike();
    HeaderHasNoGaps();
    SectionsMatch();
    SegmentsMatch();
    SymbolsMatch();
    ScalarsMatch();
    RelocationsMatch();
  }

  lemma HeaderAlike()
    ensures Alike(Layout(3), Parts(3))
  {
    var l, ps := Layout(3), Parts(3);
    assert Alike(l[..7], ps[..7]);
    assert Alike(l[7..], ps[7..]);
    forall i | 0 <= i < |l| ensures Size(l[i]) == ps[i].width && (Numeric(l[i]) <==> ps[i].Num?) {
      if i < 7 { assert l[i] == l[..7][i] && ps[i] == ps[..7][i]; } else { assert l[i] == l[7..][i - 7] && ps[i] == ps[7..][i - 7]; }
    }
  }

  lemma HeaderHasNoGaps()
    ensures NoGaps(Parts(3), 52)
  {
  }

  lemma SectionsMatch()
    ensures Matching(Layout(9), Parts(9), 40)
  {
  }

  lemma SegmentsMatch()
    ensures Matching(Layout(6), Parts(6), 32)
  {
  }

  lemma SymbolsMatch()
    ensures Matching(Layout(11), Parts(11), 16)
  {
  }

  lemma ScalarsMatch()
    ensures Matching(Layout(0), Parts(0), 1) && Matching(Layout(1), Parts(1), 4) && Matching(Layout(4), Parts(4), 2)
    ensures Matching(Layout(5), Parts(5), 4) && Matching(Layout(10), Parts(10), 4) && Matching(Layout(12), Parts(12), 4)
  {
  }

  lemma RelocationsMatch()
    ensures Matching(Layout(2), Parts(2), 8) && Matching(Layout(7), Parts(7), 12) && Matching(Layout(8), Parts(8), 8)
  {
  }

  lemma KnownKinds(kind: int)
    ensures Known(kind) <==> 0 <= kind <= 12
  {
  }

  /** For every record type, record and field: what elf32_xlatetof writes means in the file, by its encoding (1 is least
      significant byte first, 2 most), what the field means in memory, by the host's order; and the other way round for
      elf32_xlatetom. */
  lemma XlateKeepsMeaning(kind: nat, tof: bool, host: Order, encode: nat, b: seq<byte>, at: nat, i: nat)
    requires kind <= 12 && (encode == 1 || encode == 2) && i < |Parts(kind)|
    requires at % Size32(kind) == 0 && at + Size32(kind) <= |b|
    ensures Known(kind)
    ensures var n, q, r := Size32(kind), Parts(kind)[i], Moved(Apart, kind, tof, host, encode, b);
            && at + n <= |r| && q.at + q.width <= n
            && SameMeaning(q, b[at..at + n], if tof then host.Lsb? else encode == 1,
                           r[at..at + n], if tof then encode == 1 else host.Lsb?)
  {
    hide MoveAll, MoveRecord, SizeAll, Offset, Layout, Parts, Size32, MoveField, Valued, RecordSize;
    KnownKinds(kind);
    LayoutsAreRight(kind);
    LayoutHasSize(kind);
    var l, n, o, p := Layout(kind), Size32(kind), Source(tof, host, encode), Target(tof, host, encode);
    RecordAt(l, o, p, b, at);
    var x, q := b[at..at + n], Parts(kind)[i];
    assert Is(l, i, q);
    FieldMoves(l, o, p, x, i);
    FieldMeaning(l[i], q, o, p, x, MoveRecord(Apart, l, o, p, x));
  }

  lemma FieldMeaning(f: Field, q: Part, o: Order, p: Order, x: seq<byte>, y: seq<byte>)
    requires q.width == Size(f) && q.at + q.width <= |x| == |y| && (Numeric(f) <==> q.Num?)
    requires y[q.at..q.at + q.width] == MoveField(f, o, p, x[q.at..q.at + q.width])
    ensures SameMeaning(q, x, o.Lsb?, y, p.Lsb?)
  {
    hide Valued;
    if Numeric(f) {
      FieldValue(f, o, p, x[q.at..q.at + q.width]);
    }
  }

  // ------------------------------------------------------------------- one number

  /** Byte k of a number has weight 256^k, least significant first. */
  lemma WordBytes(v: word, b: seq<byte>)
    requires |b| == 4
    ensures Little(b) == v <==> b == [v % 0x100, v / 0x100 % 0x100, v / 0x1_0000 % 0x100, v / 0x100_0000]
    ensures Big(b) == v <==> b == [v / 0x100_0000, v / 0x1_0000 % 0x100, v / 0x100 % 0x100, v % 0x100]
  {
    hide Little, Big, FromBytes, Digit;
    LittleFour(b);
    JoinOfDigits(v);
    JoinDigits(b[0], b[1], b[2], b[3]);
    JoinDigits(b[3], b[2], b[1], b[0]);
    TopDigit(v);
  }

  lemma TopDigit(v: word)
    ensures Digit(v, 1) == v % 0x100 && Digit(v, 0x100) == v / 0x100 % 0x100 && Digit(v, 0x1_0000) == v / 0x1_0000 % 0x100
    ensures Digit(v, 0x100_0000) == v / 0x100_0000
  {
  }

  lemma HalfBytes(v: nat, b: seq<byte>)
    requires |b| == 2 && v < 0x1_0000
    ensures Little(b) == v <==> b == [v % 0x100, v / 0x100]
    ensures Big(b) == v <==> b == [v / 0x100, v % 0x100]
  {
    hide Little, Big;
    LittleTwo(b);
    OneByteOff(b[0], b[1]);
    OneByteOff(b[1], b[0]);
  }

  /** A record of one number, translated through a call of elf32_xlate into a buffer of its own. */
  method OneNumber(kind: nat, tof: bool, from: array<byte>, host: Order, encode: nat) returns (to: array<byte>)
    requires (kind == 12 || kind == 4) && from.Length == Size32(kind) && (encode == 1 || encode == 2)
    ensures to.Length == from.Length
    ensures Valued(if tof then encode == 1 else host.Lsb?, to[..]) == Valued(if tof then host.Lsb? else encode == 1, from[..])
  {
    hide Moved, Valued, Splice, RecordSize;
    var n := from.Length;
    to := new byte[n];
    var src := new ElfData(from, n, kind, 1);
    var dst := new ElfData(to, n, kind, 1);
    OneNumberMoves(kind, tof, host, encode, from[..]);
    ghost var was, moved := to[..], Moved(Apart, kind, tof, host, encode, from[..]);
    assert from[..][..n] == from[..];
    var r := Xlate(dst, src, encode, tof, host);
    assert r == Done;
    SpliceWhole(was, moved);
  }

  lemma OneNumberMoves(kind: nat, tof: bool, host: Order, encode: nat, b: seq<byte>)
    requires (kind == 12 || kind == 4) && |b| == Size32(kind) && (encode == 1 || encode == 2)
    ensures Known(kind) && |b| % RecordSize(kind) == 0
    ensures var r := Moved(Apart, kind, tof, host, encode, b);
            |r| == |b| && Valued(if tof then encode == 1 else host.Lsb?, r) == Valued(if tof then host.Lsb? else encode == 1, b)
  {
    hide Valued, MoveAll;
    XlateKeepsMeaning(kind, tof, host, encode, b, 0, 0);
    LayoutsAreRight(kind);
    MoveAllSize(Apart, Layout(kind), Source(tof, host, encode), Target(tof, host, encode), b);
    var r, n := Moved(Apart, kind, tof, host, encode, b), |b|;
    assert r[0..n] == r && b[0..n] == b;
    assert r[0..n][0..n] == r && b[0..n][0..n] == b;
  }

  /** elf32_xlatetof on one word in memory: byte k of the file is v / 256^k, from the front under encoding 1 and from the
      back under encoding 2, whatever the host. */
  method WordToFile(v: word, mem: array<byte>, host: Order, encode: nat) returns (file: array<byte>)
    requires mem.Length == 4 && Valued(host.Lsb?, mem[..]) == v && (encode == 1 || encode == 2)
    ensures file[..] == if encode == 1 then [v % 0x100, v / 0x100 % 0x100, v / 0x1_0000 % 0x100, v / 0x100_0000]
                        else [v / 0x100_0000, v / 0x1_0000 % 0x100, v / 0x100 % 0x100, v % 0x100]
  {
    hide Little, Big;
    file := OneNumber(12, true, mem, host, encode);
    WordBytes(v, file[..]);
  }

  method HalfToFile(v: nat, mem: array<byte>, host: Order, encode: nat) returns (file: array<byte>)
    requires v < 0x1_0000 && mem.Length == 2 && Valued(host.Lsb?, mem[..]) == v && (encode == 1 || encode == 2)
    ensures file[..] == if encode == 1 then [v % 0x100, v / 0x100] else [v / 0x100, v % 0x100]
  {
    hide Little, Big;
    file := OneNumber(4, true, mem, host, encode);
    HalfBytes(v, file[..]);
  }

  /** elf32_xlatetom on a word of the file written that way leaves v in memory. */
  method WordFromFile(v: word, file: array<byte>, host: Order, encode: nat) returns (mem: array<byte>)
    requires encode == 1 || encode == 2
    requires file[..] == if encode == 1 then [v % 0x100, v / 0x100 % 0x100, v / 0x1_0000 % 0x100, v / 0x100_0000]
                         else [v / 0x100_0000, v / 0x1_0000 % 0x100, v / 0x100 % 0x100, v % 0x100]
    ensures mem.Length == 4 && (if host.Lsb? then Little(mem[..]) else Big(mem[..])) == v
  {
    hide Little, Big;
    WordBytes(v, file[..]);
    assert |file[..]| == 4;
    mem := OneNumber(12, false, file, host, encode);
  }

  /** What elf32_xlate answers: it translates exactly between two buffers, for a known encoding, current versions, a
      known record type and room for all whole records, and otherwise names the first of these that fails. */
  lemma AnswerIs(ssize: nat, dsize: nat, kind: int, sv: int, dv: int, encode: nat, buffers: bool)
    ensures var a := Answer(ssize, dsize, kind, sv, dv, encode, buffers);
            && (a == NullBuffer <==> !buffers)
            && (a == UnknownEncoding <==> buffers && encode != 1 && encode != 2)
            && (a == UnknownVersion <==> buffers && (encode == 1 || encode == 2) && (sv != 1 || dv != 1))
            && (a == UnknownType <==> buffers && (encode == 1 || encode == 2) && sv == dv == 1 && !(0 <= kind <= 12))
            && (a == TooSmall <==> buffers && (encode == 1 || encode == 2) && sv == dv == 1 && 0 <= kind <= 12
                                   && dsize < ssize - ssize % Size32(kind))
  {
    hide Size32, Layout, SizeAll;
    KnownKinds(kind);
    if 0 <= kind <= 12 { LayoutsAreRight(kind); }
  }
}
