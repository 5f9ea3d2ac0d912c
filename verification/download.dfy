/** c/bootloader/download.c: packets with a CRC carry a stream of sections that is
    written to main memory word by word. */
module Download {
  import opened Bytes
  import opened Crc32

  const WORDS := 0x1_0000_0000  // values of an unsigned int

  type Memory = map<int, word>

  /** STATE_ENTRYPOINT .. STATE_SECTION_DATA */
  datatype Phase = EntryPoint | SectionNumber | SectionFilesize | SectionOffset | SectionMemsize | SectionData

  /** The variables that the bytes inside the packets drive. */
  datatype Payload = Payload(
    phase: Phase, entry: word, number: word, count: word,
    filesize: word, offset: word, memsize: word,
    byteCount: word, integer: word, mem: Memory)

  // ------------------------------------------------------- one payload byte

  /** Lanes not yet received are zero, so or-ing a byte in is adding it. */
  predicate LanesFree(integer: word, k: nat)
    requires k < 4
  {
    if k == 0 then integer == 0 else if k == 1 then integer % 0x100_0000 == 0
    else if k == 2 then integer % 0x1_0000 == 0 else integer % 0x100 == 0
  }

  function InsertByte(integer: word, data: byte, k: nat): (r: word)
    requires k < 4 && LanesFree(integer, k)
    ensures k < 3 ==> LanesFree(r, k + 1)
  {
    integer + data * Lane(k)
  }

  predicate Proper(s: Payload) {
    LanesFree(s.integer, s.byteCount % 4)
  }

  function Next(p: Phase): Phase {
    match p
    case EntryPoint => SectionNumber
    case SectionNumber => SectionFilesize
    case SectionFilesize => SectionOffset
    case SectionOffset => SectionMemsize
    case SectionMemsize => SectionData
    case SectionData => SectionData
  }

  function StoreField(s: Payload, v: word): Payload {
    match s.phase
    case EntryPoint => s.(entry := v)
    case SectionNumber => s.(number := v)
    case SectionFilesize => s.(filesize := v)
    case SectionOffset => s.(offset := v)
    case SectionMemsize => s.(memsize := v)
    case SectionData => s
  }

  function RoundUp(n: nat): (r: nat)
    ensures r % 4 == 0 && n <= r < n + 4
  {
    (n + 3) / 4 * 4
  }

  /** The zero-fill loop from byte count `from`. */
  function ZeroFill(mem: Memory, offset: word, from: nat, memsize: word): Memory
    decreases memsize - from
  {
    if from >= memsize then mem
    else ZeroFill(mem[(offset + from) % WORDS / 4 := 0], offset, from + 4, memsize)
  }

  /** The byte counter of the zero-fill loop wraps before it reaches such a size. */
  predicate FillNeverEnds(s: Payload) {
    RoundUp(s.filesize) % WORDS < s.memsize && s.memsize > WORDS - 4
  }

  datatype Option<+T> = None | Some(value: T)

  /** End of a section's data: align, fill with zeros, go to the next section. */
  function CloseSection(s: Payload): (r: Option<Payload>)
  {
    if s.phase == SectionData && s.byteCount == s.filesize then
      if FillNeverEnds(s) then None
      else Some(s.(mem := ZeroFill(s.mem, s.offset, RoundUp(s.byteCount) % WORDS, s.memsize),
                   byteCount := 0, count := (s.count + 1) % WORDS, phase := SectionFilesize))
    else Some(s)
  }

  /** Put the byte into its lane; then finish a header field or write memory. */
  function Accept(s: Payload, data: byte): (r: Payload)
    requires Proper(s)
    ensures r.byteCount % 4 != 0 ==> Proper(r)
  {
    var s1 := s.(integer := InsertByte(s.integer, data, s.byteCount % 4),
                 byteCount := (s.byteCount + 1) % WORDS);
    if s.phase != SectionData then
      if s1.byteCount == 4 then StoreField(s1, s1.integer).(byteCount := 0, phase := Next(s.phase)) else s1
    else
      s1.(mem := s.mem[(s.offset + s.byteCount) % WORDS / 4 := s1.integer])
  }

  /** None: the zero-fill loop does not end. */
  function PayloadByte(s: Payload, data: byte): (r: Option<Payload>)
    requires Proper(s)
    ensures r.Some? ==> Proper(r.value)
  {
    match CloseSection(Accept(s, data))
    case None => None
    case Some(t) => Some(if t.byteCount % 4 == 0 then t.(integer := 0) else t)
  }

  function Absorb(s: Payload, bytes: seq<byte>): (r: Option<Payload>)
    requires Proper(s)
    ensures r.Some? ==> Proper(r.value)
    decreases |bytes|
  {
    if bytes == [] then Some(s)
    else
      match PayloadByte(s, bytes[0])
      case None => None
      case Some(t) => Absorb(t, bytes[1..])
  }

  lemma {:induction false} AbsorbAppend(s: Payload, a: seq<byte>, b: seq<byte>)
    requires Proper(s)
    ensures Absorb(s, a + b) == match Absorb(s, a) case None => None case Some(t) => Absorb(t, b)
    decreases |a|
  {
    hide PayloadByte, Proper;
    if a == [] {
      assert a + b == b;
    } else {
      assert (a + b)[1..] == a[1..] + b;
      var r := PayloadByte(s, a[0]);
      if r.Some? { AbsorbAppend(r.value, a[1..], b); }
    }
  }

  // ------------------------------------------------------ what a section means

  datatype Section = Section(offset: word, memsize: word, data: seq<byte>)

  /** Word-aligned, and no address or counter leaves 32 bits. */
  predicate Fits(x: Section) {
    && x.offset % 4 == 0
    && |x.data| <= WORDS - 4 && x.memsize <= WORDS - 4
    && x.offset + RoundUp(|x.data|) <= WORDS && x.offset + RoundUp(x.memsize) <= WORDS
  }

  /** Word w of `bytes`, most significant byte first, missing bytes zero. */
  function WordOf(bytes: seq<byte>, w: nat): (r: word) {
    FromBytes(At(bytes, 4 * w), At(bytes, 4 * w + 1), At(bytes, 4 * w + 2), At(bytes, 4 * w + 3))
  }

  function Range(base: nat, n: nat): (r: set<int>)
    ensures forall a :: a in r <==> base <= a < base + n
  {
    if n == 0 then {} else Range(base, n - 1) + {base + n - 1}
  }

  /** `mem` with `bytes` laid over it from word `base` on, up to a whole word. */
  function Overlay(mem: Memory, base: nat, bytes: seq<byte>): (r: Memory)
    ensures r.Keys == mem.Keys + Range(base, RoundUp(|bytes|) / 4)
  {
    var n := RoundUp(|bytes|) / 4;
    map a: int | a in mem.Keys + Range(base, n) :: OverlayWord(mem, base, bytes, a)
  }

  function OverlayWord(mem: Memory, base: nat, bytes: seq<byte>, a: int): (r: word)
    requires a in mem.Keys || base <= a < base + RoundUp(|bytes|) / 4
  {
    if base <= a < base + RoundUp(|bytes|) / 4 then WordOf(bytes, a - base) else mem[a]
  }

  /** A section is its data followed by zeros up to its size in memory. */
  function Contents(x: Section): (r: seq<byte>)
    ensures |r| == if |x.data| < x.memsize then x.memsize else |x.data|
    ensures x.data <= r && forall i :: |x.data| <= i < |r| ==> r[i] == 0
  {
    if |x.data| < x.memsize then x.data + seq(x.memsize - |x.data|, _ => 0) else x.data
  }

  function LoadAll(mem: Memory, xs: seq<Section>): (r: Memory)
    decreases |xs|
  {
    if xs == [] then mem else LoadAll(Overlay(mem, xs[0].offset / 4, Contents(xs[0])), xs[1..])
  }

  // ------------------------------------------------------------- serialisation

  function SectionBytes(x: Section): (r: seq<byte>)
    requires |x.data| < WORDS
  {
    BigEndian(|x.data|) + BigEndian(x.offset) + BigEndian(x.memsize) + x.data
  }

  predicate AllFit(xs: seq<Section>) {
    forall i :: 0 <= i < |xs| ==> Fits(xs[i])
  }

  function SectionsBytes(xs: seq<Section>): (r: seq<byte>)
    requires AllFit(xs)
    decreases |xs|
  {
    if xs == [] then [] else SectionBytes(xs[0]) + SectionsBytes(xs[1..])
  }

  /** The program as the host sends it. */
  function Serialise(entry: word, xs: seq<Section>): (r: seq<byte>)
    requires AllFit(xs) && |xs| < WORDS
  {
    BigEndian(entry) + BigEndian(|xs|) + SectionsBytes(xs)
  }

  // --------------------------------------------------------- absorbing a field

  /** Between fields: nothing collected. */
  predicate AtBoundary(s: Payload) {
    s.byteCount == 0 && s.integer == 0
  }

  lemma FieldByte(s: Payload, data: byte)
    requires Proper(s) && s.phase != SectionData && s.byteCount < 3
    ensures PayloadByte(s, data)
         == Some(s.(integer := InsertByte(s.integer, data, s.byteCount), byteCount := s.byteCount + 1))
  {
  }

  lemma FieldLastByte(s: Payload, data: byte)
    requires Proper(s) && s.phase != SectionData && s.phase != SectionMemsize && s.byteCount == 3
    ensures PayloadByte(s, data)
         == Some(StoreField(s, InsertByte(s.integer, data, 3)).(integer := 0, byteCount := 0, phase := Next(s.phase)))
  {
    hide InsertByte, LanesFree;
  }

  lemma AbsorbNone(s: Payload)
    requires AtBoundary(s)
    ensures Proper(s) && Absorb(s, []) == Some(s)
  {
  }

  lemma AbsorbOne(s: Payload, b: byte)
    requires Proper(s)
    ensures Absorb(s, [b]) == PayloadByte(s, b)
  {
    hide PayloadByte, Proper;
    var r := PayloadByte(s, b);
    if r.Some? { assert Absorb(r.value, [b][1..]) == r; }
  }

  lemma AbsorbLast(s: Payload, a: seq<byte>, b: byte)
    requires Proper(s)
    ensures Absorb(s, a + [b]) == match Absorb(s, a) case None => None case Some(t) => PayloadByte(t, b)
  {
    hide PayloadByte, Proper, Absorb;
    AbsorbAppend(s, a, [b]);
    var r := Absorb(s, a);
    if r.Some? { AbsorbOne(r.value, b); }
  }

  /** The word that the first k of four bytes make. */
  function Leading(b: seq<byte>, k: nat): (r: word)
    requires |b| == 4 && k <= 4
  {
    var (b0, b1, b2, b3) := (b[0] as int, b[1] as int, b[2] as int, b[3] as int);
    (if k > 0 then b0 * 0x100_0000 else 0) + (if k > 1 then b1 * 0x1_0000 else 0)
    + (if k > 2 then b2 * 0x100 else 0) + (if k > 3 then b3 else 0)
  }

  lemma LanesOfBytes(b0: int, b1: int, b2: int)
    ensures b0 * 0x100_0000 % 0x100_0000 == 0
    ensures (b0 * 0x100_0000 + b1 * 0x1_0000) % 0x1_0000 == 0
    ensures (b0 * 0x100_0000 + b1 * 0x1_0000 + b2 * 0x100) % 0x100 == 0
  {
    assert b0 * 0x100_0000 + b1 * 0x1_0000 == (b0 * 0x100 + b1) * 0x1_0000;
    assert b0 * 0x100_0000 + b1 * 0x1_0000 + b2 * 0x100 == (b0 * 0x1_0000 + b1 * 0x100 + b2) * 0x100;
  }

  lemma LeadingLanes(b: seq<byte>, k: nat)
    requires |b| == 4 && k < 4
    ensures LanesFree(Leading(b, k), k) && InsertByte(Leading(b, k), b[k], k) == Leading(b, k + 1)
  {
    LanesOfBytes(b[0], b[1], b[2]);
  }

  lemma LeadingOfBigEndian(v: word)
    ensures Leading(BigEndian(v), 4) == v
  {
    var a, c := v / 0x100, v / 0x1_0000;
    assert a / 0x100 == c && c / 0x100 == v / 0x100_0000;
    assert v == a * 0x100 + v % 0x100 && a == c * 0x100 + a % 0x100;
  }

  /** After three bytes of a field. */
  function Collected(s: Payload, b: seq<byte>): Payload
    requires |b| == 4
  {
    s.(integer := Leading(b, 3), byteCount := 3)
  }

  /** Inside a header field nothing is decided yet. */
  lemma {:induction false} FieldPrefix(s: Payload, b: seq<byte>, k: nat)
    requires AtBoundary(s) && s.phase != SectionData && |b| == 4 && k < 4
    ensures Proper(s) && Proper(s.(integer := Leading(b, k), byteCount := k))
    ensures Absorb(s, b[..k]) == Some(s.(integer := Leading(b, k), byteCount := k))
  {
    hide PayloadByte, InsertByte, Absorb, Leading, LanesFree;
    LeadingNone(b);
    LeadingLanes(b, k);
    LeadingLanes(b, 0);
    if k == 0 {
      AbsorbNone(s);
      assert b[..0] == [];
    } else {
      FieldPrefix(s, b, k - 1);
      var t := s.(integer := Leading(b, k - 1), byteCount := k - 1);
      LeadingLanes(b, k - 1);
      FieldByte(t, b[k - 1]);
      AbsorbLast(s, b[..k - 1], b[k - 1]);
      assert b[..k] == b[..k - 1] + [b[k - 1]];
    }
  }

  lemma FieldCollected(s: Payload, b: seq<byte>)
    requires AtBoundary(s) && s.phase != SectionData && |b| == 4
    ensures Proper(s) && Proper(Collected(s, b))
    ensures Absorb(s, b) == PayloadByte(Collected(s, b), b[3])
  {
    hide PayloadByte, Absorb, Leading, LanesFree;
    FieldPrefix(s, b, 3);
    AbsorbLast(s, b[..3], b[3]);
    assert b == b[..3] + [b[3]];
  }

  lemma LeadingNone(b: seq<byte>)
    requires |b| == 4
    ensures Leading(b, 0) == 0
  {
  }

  lemma FieldAbsorbed(s: Payload, v: word)
    requires AtBoundary(s) && s.phase != SectionData && s.phase != SectionMemsize
    ensures Proper(s) && Absorb(s, BigEndian(v)) == Some(StoreField(s, v).(phase := Next(s.phase)))
  {
    hide PayloadByte, InsertByte, Absorb, BigEndian, Leading, LanesFree;
    var b := BigEndian(v);
    FieldCollected(s, b);
    FieldLastByte(Collected(s, b), b[3]);
    LeadingLanes(b, 3);
    LeadingOfBigEndian(v);
  }

  /** The last header field: an empty section ends right here. */
  lemma MemsizeAbsorbed(s: Payload, v: word)
    requires AtBoundary(s) && s.phase == SectionMemsize
    ensures Proper(s) && Absorb(s, BigEndian(v)) == CloseSection(s.(memsize := v, phase := SectionData))
  {
    hide InsertByte, Absorb, BigEndian, FillNeverEnds, ZeroFill, Leading, LanesFree, CloseSection;
    var b := BigEndian(v);
    FieldCollected(s, b);
    LeadingLanes(b, 3);
    LeadingOfBigEndian(v);
    assert Accept(Collected(s, b), b[3]) == s.(integer := v, memsize := v, phase := SectionData);
    CloseKeepsInteger(s.(memsize := v, phase := SectionData), v);
  }

  lemma CloseKeepsInteger(s: Payload, v: word)
    requires s.byteCount == 0 || (s.phase == SectionData && s.byteCount == s.filesize)
    ensures match CloseSection(s)
            case None => CloseSection(s.(integer := v)).None?
            case Some(t) => t.byteCount == 0 && t.integer == s.integer && CloseSection(s.(integer := v)) == Some(t.(integer := v))
  {
  }

  // ------------------------------------------------------ absorbing the data

  lemma WordGrows(d: seq<byte>, b: byte, w: nat)
    ensures w < |d| / 4 ==> WordOf(d + [b], w) == WordOf(d, w)
  {
  }

  lemma RoundUpStep(n: nat)
    ensures RoundUp(n + 1) / 4 == n / 4 + 1
    ensures RoundUp(n) / 4 == if n % 4 == 0 then n / 4 else n / 4 + 1
  {
  }

  lemma OverlayGrows(mem: Memory, base: nat, d: seq<byte>, b: byte)
    ensures Overlay(mem, base, d + [b]) == Overlay(mem, base, d)[base + |d| / 4 := WordOf(d + [b], |d| / 4)]
  {
    hide WordOf, RoundUp;
    RoundUpStep(|d|);
    var l, r := Overlay(mem, base, d + [b]), Overlay(mem, base, d)[base + |d| / 4 := WordOf(d + [b], |d| / 4)];
    assert l.Keys == r.Keys;
    forall a | a in l ensures l[a] == r[a] {
      if base <= a { WordGrows(d, b, a - base); }
    }
  }

  lemma OverlayPads(mem: Memory, base: nat, a: seq<byte>, b: seq<byte>)
    requires RoundUp(|a|) == RoundUp(|b|) && forall i: nat :: At(a, i) == At(b, i)
    ensures Overlay(mem, base, a) == Overlay(mem, base, b)
  {
    hide RoundUp, At;
    var l, r := Overlay(mem, base, a), Overlay(mem, base, b);
    forall k | k in l ensures l[k] == r[k] {
      if base <= k { assert WordOf(a, k - base) == WordOf(b, k - base); }
    }
  }

  /** The state after the bytes `d` of a section's data. */
  function InData(s: Payload, d: seq<byte>): Payload
    requires |d| < WORDS
  {
    s.(byteCount := |d|, integer := if |d| % 4 == 0 then 0 else WordOf(d, |d| / 4),
       mem := Overlay(s.mem, s.offset / 4, d))
  }

  function FourBytes(d: seq<byte>, w: nat): (r: seq<byte>)
    ensures |r| == 4
  {
    [At(d, 4 * w), At(d, 4 * w + 1), At(d, 4 * w + 2), At(d, 4 * w + 3)]
  }

  lemma WordLanes(d: seq<byte>, b: byte)
    ensures var i: word := if |d| % 4 == 0 then 0 else WordOf(d, |d| / 4);
            LanesFree(i, |d| % 4) && InsertByte(i, b, |d| % 4) == WordOf(d + [b], |d| / 4)
  {
    hide LanesFree, InsertByte;
    var w, k := |d| / 4, |d| % 4;
    assert 4 * w + k == |d|;
    var q := FourBytes(d + [b], w);
    assert q[k] == b;
    assert WordOf(d + [b], w) == Leading(q, k + 1);
    assert k > 0 ==> WordOf(d, w) == Leading(q, k);
    LeadingLanes(q, k);
  }

  lemma DataByte(s: Payload, d: seq<byte>, b: byte)
    requires s.phase == SectionData && s.offset % 4 == 0 && s.offset + |d| < WORDS && |d| + 1 < WORDS
    ensures Proper(InData(s, d))
    ensures Accept(InData(s, d), b) == InData(s, d + [b]).(integer := WordOf(d + [b], |d| / 4))
  {
    hide WordOf, Overlay, InsertByte, LanesFree;
    WordLanes(d, b);
    OverlayGrows(s.mem, s.offset / 4, d, b);
    AddressOf(s.offset, |d|);
  }

  lemma AddressOf(offset: nat, n: nat)
    requires offset % 4 == 0 && offset + n < WORDS
    ensures (offset + n) % WORDS / 4 == offset / 4 + n / 4
  {
  }

  lemma DataByteInside(s: Payload, d: seq<byte>, b: byte)
    requires s.phase == SectionData && s.offset % 4 == 0 && s.offset + |d| < WORDS
    requires |d| + 1 < s.filesize
    ensures Proper(InData(s, d)) && PayloadByte(InData(s, d), b) == Some(InData(s, d + [b]))
  {
    hide WordOf, Overlay, Accept, LanesFree;
    DataByte(s, d, b);
    if (|d| + 1) % 4 != 0 { assert (|d| + 1) / 4 == |d| / 4; }
  }

  lemma DataByteLast(s: Payload, d: seq<byte>, b: byte)
    requires s.phase == SectionData && s.offset % 4 == 0 && s.offset + |d| < WORDS
    requires |d| + 1 == s.filesize && AtBoundary(s)
    ensures Proper(InData(s, d)) && PayloadByte(InData(s, d), b) == CloseAfter(s, d + [b])
  {
    hide WordOf, Overlay, Accept, LanesFree, ZeroFill, FillNeverEnds;
    DataByte(s, d, b);
    CloseKeepsInteger(s.(byteCount := s.filesize, mem := Overlay(s.mem, s.offset / 4, d + [b])), WordOf(d + [b], |d| / 4));
  }

  /** The section's end, with all its data in memory. */
  function CloseAfter(s: Payload, d: seq<byte>): Option<Payload>
    requires |d| == s.filesize && s.phase == SectionData
  {
    CloseSection(s.(byteCount := s.filesize, mem := Overlay(s.mem, s.offset / 4, d)))
  }

  predicate DataFits(s: Payload) {
    s.phase == SectionData && AtBoundary(s) && s.offset % 4 == 0 && s.offset + s.filesize <= WORDS
  }

  lemma {:induction false} DataPrefix(s: Payload, d: seq<byte>)
    requires DataFits(s) && |d| < s.filesize
    ensures Proper(s) && Proper(InData(s, d)) && Absorb(s, d) == Some(InData(s, d))
    decreases |d|
  {
    hide PayloadByte, InData, LanesFree, Absorb;
    if d == [] {
      DataStarts(s);
      AbsorbNone(s);
    } else {
      var a, b := d[..|d| - 1], d[|d| - 1];
      assert d == a + [b];
      DataPrefix(s, a);
      DataByteInside(s, a, b);
      AbsorbLast(s, a, b);
    }
  }

  lemma DataAbsorbed(s: Payload, d: seq<byte>)
    requires DataFits(s) && |d| == s.filesize > 0
    ensures Proper(s) && Absorb(s, d) == CloseAfter(s, d)
  {
    hide PayloadByte, InData, LanesFree, Absorb, CloseAfter;
    var a, b := d[..|d| - 1], d[|d| - 1];
    assert d == a + [b];
    DataPrefix(s, a);
    DataByteLast(s, a, b);
    AbsorbLast(s, a, b);
  }

  // --------------------------------------------------------------- zero fill

  function Padded(d: seq<byte>, n: nat): (r: seq<byte>)
    ensures |r| == if |d| < n then n else |d|
    ensures forall i: nat :: At(r, i) == At(d, i)
  {
    if |d| < n then d + seq(n - |d|, _ => 0) else d
  }

  lemma WordPastEnd(d: seq<byte>, w: nat)
    requires |d| <= 4 * w
    ensures WordOf(d, w) == 0
  {
  }

  lemma OverlayZeroWord(mem: Memory, base: nat, d: seq<byte>, n: nat)
    requires |d| <= n && n % 4 == 0
    ensures Overlay(mem, base, Padded(d, n))[base + n / 4 := 0] == Overlay(mem, base, Padded(d, n + 4))
  {
    hide Padded, WordOf, RoundUp, At;
    var p, q := Padded(d, n), Padded(d, n + 4);
    var l, r := Overlay(mem, base, p)[base + n / 4 := 0], Overlay(mem, base, q);
    RoundUpStep(n);
    RoundUpStep(n + 4);
    WordPastEnd(d, n / 4);
    WordCong(d, q, n / 4);
    assert l.Keys == r.Keys;
    forall a | a in l ensures l[a] == r[a] {
      if base <= a { WordCong(p, q, a - base); }
    }
  }

  lemma WordCong(p: seq<byte>, q: seq<byte>, w: nat)
    requires forall i: nat :: At(p, i) == At(q, i)
    ensures WordOf(p, w) == WordOf(q, w)
  {
    hide At;
  }

  lemma ZeroFillStep(mem: Memory, offset: word, from: nat, memsize: word)
    ensures ZeroFill(mem, offset, from, memsize)
         == if from >= memsize then mem
            else ZeroFill(mem[(offset + from) % WORDS / 4 := 0], offset, from + 4, memsize)
  {
  }

  lemma AlignedBelow(n: nat, m: nat)
    requires n < m && n % 4 == 0
    ensures n + 4 <= RoundUp(m) && (n + 4 >= m ==> RoundUp(m) == n + 4)
  {
  }

  lemma {:induction false} ZeroFillOverlays(mem: Memory, offset: word, d: seq<byte>, n: nat, memsize: word)
    requires offset % 4 == 0 && |d| <= n && n % 4 == 0 && offset + RoundUp(memsize) <= WORDS
    ensures ZeroFill(Overlay(mem, offset / 4, Padded(d, n)), offset, n, memsize)
         == Overlay(mem, offset / 4, Padded(d, if n < memsize then RoundUp(memsize) else n))
    decreases memsize - n
  {
    hide Overlay, Padded, ZeroFill, RoundUp;
    ZeroFillStep(Overlay(mem, offset / 4, Padded(d, n)), offset, n, memsize);
    if n < memsize {
      AlignedBelow(n, memsize);
      AddressOf(offset, n);
      OverlayZeroWord(mem, offset / 4, d, n);
      ZeroFillOverlays(mem, offset, d, n + 4, memsize);
    }
  }

  lemma ContentsByteAt(x: Section, i: nat)
    ensures At(Contents(x), i) == At(x.data, i)
  {
  }

  lemma SectionFilled(mem: Memory, x: Section)
    requires Fits(x)
    ensures ZeroFill(Overlay(mem, x.offset / 4, x.data), x.offset, RoundUp(|x.data|), x.memsize)
         == Overlay(mem, x.offset / 4, Contents(x))
  {
    hide Overlay, ZeroFill, Padded, Contents, At;
    var n := RoundUp(|x.data|);
    OverlayPads(mem, x.offset / 4, x.data, Padded(x.data, n));
    ZeroFillOverlays(mem, x.offset, x.data, n, x.memsize);
    var m := if n < x.memsize then RoundUp(x.memsize) else n;
    forall i: nat ensures At(Contents(x), i) == At(Padded(x.data, m), i) {
      ContentsByteAt(x, i);
    }
    OverlayPads(mem, x.offset / 4, Contents(x), Padded(x.data, m));
  }

  // ------------------------------------------------------------ whole sections

  function AfterSection(s: Payload, x: Section): Payload
    requires Fits(x)
  {
    s.(filesize := |x.data|, offset := x.offset, memsize := x.memsize,
       count := (s.count + 1) % WORDS, mem := Overlay(s.mem, x.offset / 4, Contents(x)))
  }

  lemma SectionClosed(s: Payload, x: Section)
    requires Fits(x) && AtBoundary(s) && s.phase == SectionData
    requires s.filesize == |x.data| && s.offset == x.offset && s.memsize == x.memsize
    ensures CloseAfter(s, x.data) == Some(AfterSection(s, x).(phase := SectionFilesize))
  {
    hide ZeroFill, Overlay;
    SectionFilled(s.mem, x);
  }

  lemma EmptyOverlay(mem: Memory, base: nat)
    ensures Overlay(mem, base, []) == mem
  {
  }

  lemma SectionBodyAbsorbed(s: Payload, x: Section)
    requires Fits(x) && AtBoundary(s) && s.phase == SectionMemsize
    requires s.filesize == |x.data| && s.offset == x.offset
    ensures Proper(s)
    ensures Absorb(s, BigEndian(x.memsize) + x.data)
         == Some(AfterSection(s.(phase := SectionFilesize), x))
  {
    hide CloseAfter, BigEndian, Overlay, Proper, Absorb, InData;
    var t := s.(memsize := x.memsize, phase := SectionData);
    MemsizeAbsorbed(s, x.memsize);
    AbsorbAppend(s, BigEndian(x.memsize), x.data);
    SectionClosed(t, x);
    if x.data == [] {
      assert BigEndian(x.memsize) + x.data == BigEndian(x.memsize);
      EmptySectionCloses(t);
    } else {
      DataStarts(t);
      DataAbsorbed(t, x.data);
    }
  }

  lemma EmptySectionCloses(t: Payload)
    requires AtBoundary(t) && t.phase == SectionData && t.filesize == 0
    ensures CloseSection(t) == CloseAfter(t, [])
  {
    EmptyOverlay(t.mem, t.offset / 4);
    assert t.(byteCount := t.filesize, mem := t.mem) == t;
  }

  lemma DataStarts(t: Payload)
    requires AtBoundary(t) && t.phase == SectionData
    ensures InData(t, []) == t && (t.filesize > 0 ==> CloseSection(t) == Some(t))
  {
    EmptyOverlay(t.mem, t.offset / 4);
  }

  lemma SectionAbsorbed(s: Payload, x: Section)
    requires Fits(x) && AtBoundary(s) && s.phase == SectionFilesize
    ensures Proper(s) && Absorb(s, SectionBytes(x)) == Some(AfterSection(s, x))
  {
    hide BigEndian, Overlay, Proper, Absorb;
    var a, b, c := BigEndian(|x.data|), BigEndian(x.offset), BigEndian(x.memsize) + x.data;
    var s1 := s.(filesize := |x.data|, phase := SectionOffset);
    var s2 := s1.(offset := x.offset, phase := SectionMemsize);
    FieldAbsorbed(s, |x.data|);
    FieldAbsorbed(s1, x.offset);
    SectionBodyAbsorbed(s2, x);
    AbsorbAppend(s, a, b + c);
    AbsorbAppend(s1, b, c);
    assert SectionBytes(x) == a + (b + c);
  }

  /** Nothing that decides the end of the download has happened since `s`. */
  predicate SameProgress(s: Payload, t: Option<Payload>) {
    t.Some? && t.value.count == s.count && t.value.number == s.number
  }

  lemma FieldPrefixQuiet(s: Payload, v: word, k: nat)
    requires AtBoundary(s) && s.phase != SectionData && k < 4
    ensures Proper(s) && SameProgress(s, Absorb(s, BigEndian(v)[..k]))
  {
    hide Absorb, BigEndian, Leading, LanesFree;
    FieldPrefix(s, BigEndian(v), k);
  }

  lemma SectionPrefix(s: Payload, x: Section, n: nat)
    requires Fits(x) && AtBoundary(s) && s.phase == SectionFilesize && n < |SectionBytes(x)|
    ensures Proper(s) && SameProgress(s, Absorb(s, SectionBytes(x)[..n]))
  {
    hide Absorb, BigEndian, LanesFree;
    var a, b, c := BigEndian(|x.data|), BigEndian(x.offset), BigEndian(x.memsize);
    var s1 := s.(filesize := |x.data|, phase := SectionOffset);
    if n < 4 {
      FieldPrefixQuiet(s, |x.data|, n);
      assert SectionBytes(x)[..n] == a[..n];
    } else {
      FieldAbsorbed(s, |x.data|);
      SectionPrefixFrom4(s1, x, n - 4);
      AbsorbAppend(s, a, (b + c + x.data)[..n - 4]);
      assert SectionBytes(x)[..n] == a + (b + c + x.data)[..n - 4];
    }
  }

  lemma SectionPrefixFrom4(s: Payload, x: Section, n: nat)
    requires Fits(x) && AtBoundary(s) && s.phase == SectionOffset && s.filesize == |x.data|
    requires n < 8 + |x.data|
    ensures Proper(s) && SameProgress(s, Absorb(s, (BigEndian(x.offset) + BigEndian(x.memsize) + x.data)[..n]))
  {
    hide Absorb, BigEndian, LanesFree;
    var b, c := BigEndian(x.offset), BigEndian(x.memsize);
    var s2 := s.(offset := x.offset, phase := SectionMemsize);
    if n < 4 {
      FieldPrefixQuiet(s, x.offset, n);
      assert (b + c + x.data)[..n] == b[..n];
    } else {
      FieldAbsorbed(s, x.offset);
      SectionPrefixFrom8(s2, x, n - 4);
      AbsorbAppend(s, b, (c + x.data)[..n - 4]);
      assert (b + c + x.data)[..n] == b + (c + x.data)[..n - 4];
    }
  }

  lemma SectionPrefixFrom8(s: Payload, x: Section, n: nat)
    requires Fits(x) && AtBoundary(s) && s.phase == SectionMemsize && s.filesize == |x.data| && s.offset == x.offset
    requires n < 4 + |x.data|
    ensures Proper(s) && SameProgress(s, Absorb(s, (BigEndian(x.memsize) + x.data)[..n]))
  {
    hide Absorb, BigEndian, LanesFree, InData, CloseSection;
    var c := BigEndian(x.memsize);
    if n < 4 {
      FieldPrefixQuiet(s, x.memsize, n);
      assert (c + x.data)[..n] == c[..n];
    } else {
      var t := s.(memsize := x.memsize, phase := SectionData);
      MemsizeAbsorbed(s, x.memsize);
      DataStarts(t);
      DataPrefix(t, x.data[..n - 4]);
      InDataQuiet(t, x.data[..n - 4]);
      AbsorbAppend(s, c, x.data[..n - 4]);
      assert (c + x.data)[..n] == c + x.data[..n - 4];
    }
  }

  lemma InDataQuiet(t: Payload, d: seq<byte>)
    requires |d| < WORDS
    ensures SameProgress(t, Some(InData(t, d)))
  {
  }

  /** Before the last byte of the last section some section is still missing. */
  lemma {:induction false} SectionsPrefix(s: Payload, xs: seq<Section>, n: nat)
    requires AllFit(xs) && AtBoundary(s) && s.phase == SectionFilesize && s.count + |xs| < WORDS
    requires n < |SectionsBytes(xs)|
    ensures Proper(s)
    ensures var r := Absorb(s, SectionsBytes(xs)[..n]);
            r.Some? && r.value.number == s.number && r.value.count < s.count + |xs|
    decreases |xs|
  {
    hide Overlay, SectionBytes, Absorb, LanesFree, Contents;
    var a, rest := SectionBytes(xs[0]), SectionsBytes(xs[1..]);
    if n < |a| {
      SectionPrefix(s, xs[0], n);
      assert (a + rest)[..n] == a[..n];
    } else {
      SectionAbsorbed(s, xs[0]);
      var t := AfterSection(s, xs[0]);
      SectionsPrefix(t, xs[1..], n - |a|);
      AbsorbAppend(s, a, rest[..n - |a|]);
      assert (a + rest)[..n] == a + rest[..n - |a|];
    }
  }

  lemma {:induction false} SectionsAbsorbed(s: Payload, xs: seq<Section>)
    requires AllFit(xs) && AtBoundary(s) && s.phase == SectionFilesize && s.count + |xs| < WORDS
    ensures Proper(s)
    ensures var r := Absorb(s, SectionsBytes(xs));
            && r.Some? && r.value.mem == LoadAll(s.mem, xs) && r.value.count == s.count + |xs|
            && r.value.entry == s.entry && r.value.number == s.number
    decreases |xs|
  {
    hide Overlay, SectionBytes, Absorb, LanesFree, Contents;
    if xs == [] {
      AbsorbNone(s);
    } else {
      SectionAbsorbed(s, xs[0]);
      var t := AfterSection(s, xs[0]);
      SectionsAbsorbed(t, xs[1..]);
      AbsorbAppend(s, SectionBytes(xs[0]), SectionsBytes(xs[1..]));
    }
  }

  /** Before the first byte: section_number is -1. */
  function Start(mem: Memory): (s: Payload)
    ensures AtBoundary(s) && Proper(s)
  {
    Payload(EntryPoint, 0, WORDS - 1, 0, 0, 0, 0, 0, 0, mem)
  }

  /** The payload bytes of a whole program load exactly its sections. */
  lemma ProgramAbsorbed(mem: Memory, entry: word, xs: seq<Section>)
    requires AllFit(xs) && |xs| < WORDS - 1
    ensures var r := Absorb(Start(mem), Serialise(entry, xs));
            && r.Some? && r.value.mem == LoadAll(mem, xs)
            && r.value.count == r.value.number == |xs| && r.value.entry == entry
  {
    hide Absorb, BigEndian, SectionsBytes, LoadAll;
    var s := Start(mem);
    var s1 := s.(entry := entry, phase := SectionNumber);
    var s2 := s1.(number := |xs|, phase := SectionFilesize);
    FieldAbsorbed(s, entry);
    FieldAbsorbed(s1, |xs|);
    SectionsAbsorbed(s2, xs);
    var a, b, c := BigEndian(entry), BigEndian(|xs|), SectionsBytes(xs);
    AbsorbAppend(s, a, b + c);
    AbsorbAppend(s1, b, c);
    assert Serialise(entry, xs) == a + (b + c);
  }

  /** No proper prefix of a program looks complete. */
  lemma ProgramPrefix(mem: Memory, entry: word, xs: seq<Section>, n: nat)
    requires AllFit(xs) && |xs| < WORDS - 1 && n < |Serialise(entry, xs)|
    ensures var r := Absorb(Start(mem), Serialise(entry, xs)[..n]);
            r.Some? && r.value.count != r.value.number
  {
    hide Absorb, BigEndian, SectionsBytes;
    var s := Start(mem);
    var s1 := s.(entry := entry, phase := SectionNumber);
    var s2 := s1.(number := |xs|, phase := SectionFilesize);
    var a, b, c := BigEndian(entry), BigEndian(|xs|), SectionsBytes(xs);
    FieldAbsorbed(s, entry);
    FieldAbsorbed(s1, |xs|);
    if n < 4 {
      FieldPrefixQuiet(s, entry, n);
      assert Serialise(entry, xs)[..n] == a[..n];
    } else if n < 8 {
      FieldPrefixQuiet(s1, |xs|, n - 4);
      AbsorbAppend(s, a, b[..n - 4]);
      assert Serialise(entry, xs)[..n] == a + b[..n - 4];
    } else {
      SectionsPrefix(s2, xs, n - 8);
      AbsorbAppend(s, a, b + c[..n - 8]);
      AbsorbAppend(s1, b, c[..n - 8]);
      assert Serialise(entry, xs)[..n] == a + (b + c[..n - 8]);
    }
  }

  // ----------------------------------------------------------------- packets

  /** What `download` has done: still reading, returned NULL after a bad packet,
      returned the received entry point, or filling zeros for ever. */
  datatype Result = Reading | BadPacket | Started(entry: word) | Stuck

  datatype Machine = Machine(
    payload: Payload, packetSize: byte, packetBytes: nat, calculated: Reg, received: word,
    sent: seq<byte>, result: Result)

  predicate ProperMachine(m: Machine) {
    Proper(m.payload)
  }

  function Boot(mem: Memory): (m: Machine)
    ensures ProperMachine(m)
  {
    Machine(Start(mem), 0, 0, Repeat(false, 32), WORDS - 1, [], Reading)
  }

  function OpenPacket(m: Machine, size: byte): Machine {
    m.(packetSize := size, packetBytes := 0, calculated := ONES, received := 0)
  }

  /** A byte of the checksum or of the payload. */
  function InsidePacket(m: Machine, data: byte): (r: Machine)
    requires ProperMachine(m)
    ensures ProperMachine(r)
  {
    if m.packetBytes < 4 then
      m.(received := (m.received * 0x100 + data) % WORDS)
    else
      var m1 := m.(calculated := ByteStep(m.calculated, data));
      match PayloadByte(m.payload, data)
      case None => m1.(result := Stuck)
      case Some(p) => m1.(payload := p)
  }

  /** The last byte of a packet: reply with the low byte of the CRC, then decide. */
  function ClosePacket(m: Machine): (r: Machine)
    ensures r.payload == m.payload
  {
    var m1 := m.(calculated := Xor(m.calculated, ONES));
    var m2 := m1.(sent := m.sent + [LowByteOf(m1.calculated)]);
    if BitsValue(m2.calculated) != m.received then m2.(result := BadPacket)
    else if m.payload.count == m.payload.number then m2.(result := Started(m.payload.entry))
    else m2.(packetSize := 0)
  }

  function LowByteOf(c: Reg): (b: byte) {
    assert Pow2(8) == 256;
    BitsValue(c[..8])
  }

  lemma LowByteIs(c: Reg)
    ensures LowByteOf(c) == BitsValue(c) % 0x100
  {
    hide LowBits;
    BitsValueSplit(c, 8);
    assert Pow2(8) == 256;
  }

  lemma {:induction false} BitsValueSplit(bits: seq<bool>, n: nat)
    requires n <= |bits|
    ensures BitsValue(bits) == BitsValue(bits[..n]) + Pow2(n) * BitsValue(bits[n..])
    decreases n
  {
    if n == 0 {
      assert bits[..0] == [] && bits[0..] == bits;
      assert Pow2(0) == 1 && BitsValue([]) == 0;
    } else {
      BitsValueSplit(bits[1..], n - 1);
      assert bits[1..][..n - 1] == bits[..n][1..] && bits[1..][n - 1..] == bits[n..];
      assert bits[..n][0] == bits[0];
      DoubleBoth(BitsValue(bits[1..][..n - 1]), Pow2(n - 1), BitsValue(bits[n..]));
    }
  }

  lemma DoubleBoth(a: int, p: int, b: int)
    ensures 2 * (a + p * b) == 2 * a + (2 * p) * b
  {
  }

  /** One turn of the receive loop. */
  function Receive(m: Machine, data: byte): (r: Machine)
    requires ProperMachine(m)
    ensures ProperMachine(r)
  {
    if m.result != Reading then m
    else if m.packetSize == 0 then OpenPacket(m, data)
    else
      var m1 := InsidePacket(m, data);
      if m1.result == Stuck then m1
      else
        var m2 := m1.(packetBytes := m1.packetBytes + 1);
        if m2.packetBytes == m2.packetSize + 4 then ClosePacket(m2) else m2
  }

  function Run(m: Machine, bytes: seq<byte>): (r: Machine)
    requires ProperMachine(m)
    ensures ProperMachine(r)
    decreases |bytes|
  {
    if bytes == [] then m else Run(Receive(m, bytes[0]), bytes[1..])
  }

  lemma {:induction false} RunAppend(m: Machine, a: seq<byte>, b: seq<byte>)
    requires ProperMachine(m)
    ensures Run(m, a + b) == Run(Run(m, a), b)
    decreases |a|
  {
    hide Receive, ProperMachine;
    if a == [] {
      assert a + b == b;
    } else {
      RunAppend(Receive(m, a[0]), a[1..], b);
      assert (a + b)[1..] == a[1..] + b;
    }
  }

  function CrcWord(p: seq<byte>): (w: word) {
    RegWord(Crc(p));
    BitsValue(Crc(p))
  }

  lemma RegWord(c: Reg)
    ensures BitsValue(c) < WORDS
  {
    assert Pow2(8) == 256;
    PowerAdds(8, 8);
    PowerAdds(16, 16);
  }

  lemma {:induction false} PowerAdds(m: nat, n: nat)
    ensures Pow2(m + n) == Pow2(m) * Pow2(n)
    decreases m
  {
    if m > 0 { PowerAdds(m - 1, n); }
  }

  predicate Inside(m: Machine) {
    ProperMachine(m) && m.result == Reading && m.packetSize != 0
  }

  lemma {:induction false} PayloadReceived(m: Machine, q: seq<byte>)
    requires Inside(m) && m.packetBytes >= 4 && m.packetBytes + |q| < m.packetSize + 4
    requires Absorb(m.payload, q).Some?
    ensures Run(m, q) == m.(payload := Absorb(m.payload, q).value,
                            calculated := Register(m.calculated, q), packetBytes := m.packetBytes + |q|)
    decreases |q|
  {
    hide PayloadByte, ByteStep, Proper;
    if q != [] {
      var p := PayloadByte(m.payload, q[0]);
      assert Absorb(m.payload, q) == Absorb(p.value, q[1..]);
      var m1 := m.(payload := p.value, calculated := ByteStep(m.calculated, q[0]), packetBytes := m.packetBytes + 1);
      assert Receive(m, q[0]) == m1;
      PayloadReceived(m1, q[1..]);
    }
  }

  lemma CheckByte(m: Machine, b: byte)
    requires Inside(m) && m.packetBytes < 4
    ensures Receive(m, b) == m.(received := (m.received * 0x100 + b) % WORDS, packetBytes := m.packetBytes + 1)
  {
  }

  lemma {:induction false} CheckBytes(m: Machine, b: seq<byte>, k: nat)
    requires Inside(m) && m.packetBytes == 0 && m.received == 0 && |b| == 4 && k <= 4
    ensures Run(m, b[..k]) == m.(received := Shifted(b, k), packetBytes := k)
  {
    hide Receive, Run, Shifted;
    ShiftedStep(b, k);
    if k == 0 {
      assert b[..0] == [];
      RunNone(m);
    } else {
      CheckBytes(m, b, k - 1);
      var m1 := m.(received := Shifted(b, k - 1), packetBytes := k - 1);
      CheckByte(m1, b[k - 1]);
      RunLast(m, b[..k - 1], b[k - 1]);
      assert b[..k] == b[..k - 1] + [b[k - 1]];
    }
  }

  lemma RunNone(m: Machine)
    requires ProperMachine(m)
    ensures Run(m, []) == m
  {
  }

  lemma RunLast(m: Machine, a: seq<byte>, b: byte)
    requires ProperMachine(m)
    ensures Run(m, a + [b]) == Receive(Run(m, a), b)
  {
    hide Receive, ProperMachine;
    RunAppend(m, a, [b]);
    assert Run(Run(m, a), [b]) == Run(Receive(Run(m, a), b), [b][1..]);
  }

  /** received_crc after k bytes. */
  function Shifted(b: seq<byte>, k: nat): (r: word)
    requires |b| == 4 && k <= 4
  {
    if k == 0 then 0 else (Shifted(b, k - 1) * 0x100 + b[k - 1]) % WORDS
  }

  lemma ShiftedStep(b: seq<byte>, k: nat)
    requires |b| == 4 && k <= 4
    ensures Shifted(b, 0) == 0 && (k > 0 ==> Shifted(b, k) == (Shifted(b, k - 1) * 0x100 + b[k - 1]) % WORDS)
  {
  }

  lemma ShiftedIsLeading(b: seq<byte>)
    requires |b| == 4
    ensures Shifted(b, 4) == Leading(b, 4)
  {
    hide Shifted;
    ShiftedStep(b, 1);
    ShiftedStep(b, 2);
    ShiftedStep(b, 3);
    ShiftedStep(b, 4);
    var b0, b1, b2, b3 := b[0] as int, b[1] as int, b[2] as int, b[3] as int;
    assert Shifted(b, 1) == b0 && Shifted(b, 2) == b0 * 0x100 + b1;
    assert Shifted(b, 3) == b0 * 0x1_0000 + b1 * 0x100 + b2;
  }

  /** A packet as the host frames it: size, a claimed CRC w, payload. */
  function PacketWith(w: word, p: seq<byte>): (r: seq<byte>)
    requires 1 <= |p| <= 255
  {
    [|p| as int] + BigEndian(w) + p
  }

  predicate Idle(m: Machine) {
    ProperMachine(m) && m.result == Reading && m.packetSize == 0
  }

  /** After the size byte and the checksum. */
  function Announced(m: Machine, n: byte, w: word): Machine {
    m.(packetSize := n, packetBytes := 4, calculated := ONES, received := w)
  }

  lemma HeaderReceived(m: Machine, n: byte, w: word)
    requires Idle(m) && n > 0
    ensures Run(m, [n] + BigEndian(w)) == Announced(m, n, w)
  {
    hide Run, BigEndian, Shifted, Leading, Receive;
    var b := BigEndian(w);
    Opened(m, n);
    var m1 := OpenPacket(m, n);
    RunAppend(m, [n], b);
    RunOne(m, n);
    CheckBytes(m1, b, 4);
    assert b[..4] == b;
    ShiftedIsLeading(b);
    LeadingOfBigEndian(w);
  }

  lemma Opened(m: Machine, n: byte)
    requires Idle(m)
    ensures Receive(m, n) == OpenPacket(m, n)
  {
  }

  lemma RunOne(m: Machine, b: byte)
    requires ProperMachine(m)
    ensures Run(m, [b]) == Receive(m, b)
  {
    hide Receive, ProperMachine, Run;
    RunNone(m);
    RunLast(m, [], b);
    assert [] + [b] == [b];
  }

  /** What a whole packet does when its payload can be absorbed. */
  function Delivered(m: Machine, w: word, p: seq<byte>): Machine
    requires Proper(m.payload) && 1 <= |p| <= 255 && Absorb(m.payload, p).Some?
  {
    ClosePacket(Announced(m, |p|, w).(payload := Absorb(m.payload, p).value,
                                      calculated := Register(ONES, p), packetBytes := |p| + 4))
  }

  lemma PacketReceived(m: Machine, w: word, p: seq<byte>)
    requires Idle(m) && 1 <= |p| <= 255 && Absorb(m.payload, p).Some?
    ensures Run(m, PacketWith(w, p)) == Delivered(m, w, p)
  {
    hide Run, BigEndian, Receive, Register, Absorb, ClosePacket, Proper, PayloadByte, ByteStep, LowBits;
    var a, b := p[..|p| - 1], p[|p| - 1];
    assert p == a + [b];
    HeaderReceived(m, |p|, w);
    var m1 := Announced(m, |p|, w);
    AbsorbLast(m.payload, a, b);
    PayloadReceived(m1, a);
    RunAppend(m, [|p| as int] + BigEndian(w), p);
    RunLast(m1, a, b);
    var m2 := m1.(payload := Absorb(m.payload, a).value, calculated := Register(ONES, a), packetBytes := |p| + 3);
    LastByteReceived(m2, b);
    RegisterAppend(ONES, a, [b]);
    RegisterOne(Register(ONES, a), b);
  }

  lemma RegisterOne(c: Reg, b: byte)
    ensures Register(c, [b]) == ByteStep(c, b)
  {
    hide ByteStep;
    assert Register(c, [b]) == Register(ByteStep(c, b), [b][1..]);
  }

  lemma LastByteReceived(m: Machine, b: byte)
    requires Inside(m) && m.packetBytes >= 4 && m.packetBytes + 1 == m.packetSize + 4
    requires PayloadByte(m.payload, b).Some?
    ensures Receive(m, b) == ClosePacket(m.(payload := PayloadByte(m.payload, b).value,
                                            calculated := ByteStep(m.calculated, b), packetBytes := m.packetBytes + 1))
  {
    hide PayloadByte, ByteStep, ClosePacket, Proper;
  }

  /** A packet is accepted exactly when it carries its own CRC; then either the program is
      complete, or the loop waits for the next packet. */
  lemma PacketJudged(m: Machine, w: word, p: seq<byte>)
    requires Idle(m) && 1 <= |p| <= 255 && Absorb(m.payload, p).Some?
    ensures var r := Run(m, PacketWith(w, p)); var t := Absorb(m.payload, p).value;
            && r.payload == t && r.sent == m.sent + [CrcWord(p) % 0x100]
            && (if w != CrcWord(p) then r.result == BadPacket
                else if t.count == t.number then r.result == Started(t.entry)
                else Idle(r))
  {
    hide Run, Register, Absorb, LowByteOf, Xor, Proper, BitsValue;
    PacketReceived(m, w, p);
    LowByteIs(Crc(p));
  }

  // ---------------------------------------------------------- the main theorem

  predicate AllPackets(ps: seq<seq<byte>>) {
    forall i :: 0 <= i < |ps| ==> 1 <= |ps[i]| <= 255
  }

  function Flatten(ps: seq<seq<byte>>): (r: seq<byte>)
    decreases |ps|
  {
    if ps == [] then [] else ps[0] + Flatten(ps[1..])
  }

  function Frames(ps: seq<seq<byte>>): (r: seq<byte>)
    requires AllPackets(ps)
    decreases |ps|
  {
    if ps == [] then [] else PacketWith(CrcWord(ps[0]), ps[0]) + Frames(ps[1..])
  }

  /** What the host reads back: the lowest byte of each packet's CRC. */
  function Replies(ps: seq<seq<byte>>): (r: seq<byte>) {
    if ps == [] then [] else [CrcWord(ps[0]) % 0x100] + Replies(ps[1..])
  }

  lemma RepliesFirst(ps: seq<seq<byte>>)
    requires ps != []
    ensures Replies(ps) == [CrcWord(ps[0]) % 0x100] + Replies(ps[1..]) && Replies([]) == []
  {
    hide CrcWord;
  }

  lemma FlattenNonEmpty(ps: seq<seq<byte>>)
    requires AllPackets(ps) && ps != []
    ensures |Flatten(ps)| > 0
  {
  }

  lemma {:induction false} FramesReceived(m: Machine, mem: Memory, entry: word, xs: seq<Section>, done: seq<byte>, ps: seq<seq<byte>>)
    requires AllFit(xs) && |xs| < WORDS - 1 && AllPackets(ps) && ps != []
    requires done + Flatten(ps) == Serialise(entry, xs)
    requires Idle(m) && Absorb(Start(mem), done) == Some(m.payload)
    ensures var r := Run(m, Frames(ps));
            r.result == Started(entry) && r.payload.mem == LoadAll(mem, xs) && r.sent == m.sent + Replies(ps)
    decreases |ps|
  {
    hide Run, Absorb, Serialise, LoadAll, PacketWith, Proper, CrcWord, Replies;
    var p, whole := ps[0], Serialise(entry, xs);
    RepliesFirst(ps);
    var done1 := done + p;
    AbsorbAppend(Start(mem), done, p);
    if |ps| == 1 {
      assert Flatten(ps) == p + Flatten([]) == p;
      assert Frames(ps) == PacketWith(CrcWord(p), p) + [] == PacketWith(CrcWord(p), p);
      ProgramAbsorbed(mem, entry, xs);
      PacketJudged(m, CrcWord(p), p);
      assert ps[1..] == [];
    } else {
      FlattenNonEmpty(ps[1..]);
      assert done1 + Flatten(ps[1..]) == whole;
      assert whole[..|done1|] == done1;
      ProgramPrefix(mem, entry, xs, |done1|);
      PacketJudged(m, CrcWord(p), p);
      var m1 := Run(m, PacketWith(CrcWord(p), p));
      FramesReceived(m1, mem, entry, xs, done1, ps[1..]);
      RunAppend(m, PacketWith(CrcWord(p), p), Frames(ps[1..]));
      assert m.sent + [CrcWord(p) % 0x100] + Replies(ps[1..]) == m.sent + ([CrcWord(p) % 0x100] + Replies(ps[1..]));
    }
  }

  /** However the host cuts a program into CRC-correct packets, `download` returns its entry
      point and main memory is the old one overlaid with the sections in order. */
  lemma DownloadLoadsProgram(mem: Memory, entry: word, xs: seq<Section>, ps: seq<seq<byte>>)
    requires AllFit(xs) && |xs| < WORDS - 1 && AllPackets(ps) && Flatten(ps) == Serialise(entry, xs)
    ensures var r := Run(Boot(mem), Frames(ps));
            r.result == Started(entry) && r.payload.mem == LoadAll(mem, xs) && r.sent == Replies(ps)
  {
    hide Run, Absorb, Serialise, LoadAll, Replies;
    SerialiseNonEmpty(entry, xs);
    AbsorbNone(Start(mem));
    assert [] + Flatten(ps) == Flatten(ps);
    FramesReceived(Boot(mem), mem, entry, xs, [], ps);
  }

  lemma SerialiseNonEmpty(entry: word, xs: seq<Section>)
    requires AllFit(xs) && |xs| < WORDS
    ensures |Serialise(entry, xs)| >= 8
  {
  }

  /** The packet split is unobservable. */
  lemma SplitIsUnobservable(mem: Memory, entry: word, xs: seq<Section>, ps: seq<seq<byte>>, qs: seq<seq<byte>>)
    requires AllFit(xs) && |xs| < WORDS - 1
    requires AllPackets(ps) && Flatten(ps) == Serialise(entry, xs)
    requires AllPackets(qs) && Flatten(qs) == Serialise(entry, xs)
    ensures var r, t := Run(Boot(mem), Frames(ps)), Run(Boot(mem), Frames(qs));
            r.result == t.result && r.payload.mem == t.payload.mem
  {
    hide Run, Serialise, LoadAll;
    DownloadLoadsProgram(mem, entry, xs, ps);
    DownloadLoadsProgram(mem, entry, xs, qs);
  }

  // ------------------------------------------------- arbitrary byte streams

  /** Between packets the loop also skips zero bytes. */
  datatype Item = Gap | Good(p: seq<byte>)

  predicate AllItems(items: seq<Item>) {
    forall i :: 0 <= i < |items| ==> items[i].Good? ==> 1 <= |items[i].p| <= 255
  }

  function Wire(items: seq<Item>): (r: seq<byte>)
    requires AllItems(items)
    decreases |items|
  {
    if items == [] then []
    else
      var n := |items| - 1;
      Wire(items[..n]) + match items[n] case Gap => [0] case Good(p) => PacketWith(CrcWord(p), p)
  }

  function Payloads(items: seq<Item>): (r: seq<byte>)
    decreases |items|
  {
    if items == [] then []
    else
      var n := |items| - 1;
      Payloads(items[..n]) + match items[n] case Gap => [] case Good(p) => p
  }

  /** The loop is inside a packet whose bytes so far are `tail`. */
  predicate Partial(m: Machine, tail: seq<byte>, r: Machine) {
    && Idle(m) && r == Run(m, tail) && r.result == Reading
    && if tail == [] then r == m
       else
         && 0 < tail[0] == r.packetSize && r.packetBytes == |tail| - 1 < tail[0] as int + 4
         && Absorb(m.payload, if |tail| <= 5 then [] else tail[5..]) == Some(r.payload)
  }

  lemma GapSkipped(m: Machine)
    requires Idle(m)
    ensures Idle(Run(m, [0])) && Run(m, [0]).payload == m.payload
  {
    hide Run;
    RunOne(m, 0);
  }

  lemma PartialOpens(m: Machine, b: byte)
    requires Idle(m) && b > 0
    ensures Partial(m, [b], Run(m, [b]))
  {
    hide Run;
    RunOne(m, b);
    AbsorbEmpty(m.payload);
  }

  lemma AbsorbEmpty(s: Payload)
    requires Proper(s)
    ensures Absorb(s, []) == Some(s)
  {
  }

  /** Inside a packet the loop neither returns nor accepts anything. */
  lemma PartialGrows(m: Machine, tail: seq<byte>, r: Machine, b: byte)
    requires Partial(m, tail, r) && tail != [] && |tail| < tail[0] as int + 4
    ensures var r1 := Run(m, tail + [b]); r1.result == Stuck || Partial(m, tail + [b], r1)
  {
    hide Run, Absorb, PayloadByte, Proper, ByteStep;
    RunLast(m, tail, b);
    if |tail| >= 5 {
      var d := if |tail| <= 5 then [] else tail[5..];
      AbsorbLast(m.payload, d, b);
      assert (tail + [b])[5..] == d + [b];
    }
  }

  lemma PartialPayload(m: Machine, tail: seq<byte>, r: Machine, b: byte)
    requires Partial(m, tail, r) && tail != [] && |tail| == tail[0] as int + 4
    requires Run(m, tail + [b]).result != Stuck
    ensures Absorb(m.payload, (tail + [b])[5..]).Some?
  {
    hide Run, Absorb, PayloadByte, Proper, ByteStep;
    RunLast(m, tail, b);
    var d := if |tail| <= 5 then [] else tail[5..];
    AbsorbLast(m.payload, d, b);
    assert (tail + [b])[5..] == d + [b];
  }

  /** The last byte of a packet: it is accepted only if it carries its own CRC. */
  lemma PartialCloses(m: Machine, tail: seq<byte>, r: Machine, b: byte)
    requires Partial(m, tail, r) && tail != [] && |tail| == tail[0] as int + 4
    ensures var q := tail + [b]; var r1 := Run(m, q); var p := q[5..];
            r1.result in {Stuck, BadPacket}
            || (&& 1 <= |p| <= 255 && q == PacketWith(CrcWord(p), p) && Absorb(m.payload, p) == Some(r1.payload)
                && (Idle(r1) || (r1.result == Started(r1.payload.entry) && r1.payload.count == r1.payload.number)))
  {
    hide Run, Absorb, Leading, BigEndian, CrcWord, Proper;
    var q := tail + [b];
    if Run(m, q).result != Stuck {
      PartialPayload(m, tail, r, b);
      var p, c := q[5..], q[1..5];
      var w := Leading(c, 4);
      BigEndianOfLeading(c);
      assert q == [q[0]] + c + p;
      PacketJudged(m, w, p);
    }
  }

  lemma BigEndianOfLeading(c: seq<byte>)
    requires |c| == 4
    ensures BigEndian(Leading(c, 4)) == c
  {
    var c0, c1, c2, c3 := c[0] as int, c[1] as int, c[2] as int, c[3] as int;
    var q := c0 * 0x100 + c1;
    var p := q * 0x100 + c2;
    assert Leading(c, 4) == p * 0x100 + c3;
    OneByteOff(c0, c1);
    OneByteOff(q, c2);
    OneByteOff(p, c3);
    ByteByByte(p * 0x100 + c3);
  }

  /** The log explains the bytes read so far. */
  predicate Explained(mem: Memory, items: seq<Item>, tail: seq<byte>, bs: seq<byte>) {
    && AllItems(items) && bs == Wire(items) + tail
    && Absorb(Start(mem), Payloads(items)) == Some(Run(Boot(mem), Wire(items)).payload)
    && Partial(Run(Boot(mem), Wire(items)), tail, Run(Boot(mem), bs))
  }

  lemma WireOne(items: seq<Item>, x: Item)
    requires AllItems(items + [x]) && (x.Good? ==> 1 <= |x.p| <= 255)
    ensures AllItems(items)
    ensures Wire(items + [x]) == Wire(items) + match x case Gap => [0] case Good(p) => PacketWith(CrcWord(p), p)
    ensures Payloads(items + [x]) == Payloads(items) + match x case Gap => [] case Good(p) => p
  {
    hide PacketWith, CrcWord;
    var all := items + [x];
    assert all[..|all| - 1] == items && all[|all| - 1] == x;
    forall i | 0 <= i < |items| && items[i].Good? ensures 1 <= |items[i].p| <= 255 { assert all[i] == items[i]; }
  }

  lemma LogGap(mem: Memory, items: seq<Item>, bs: seq<byte>)
    requires Explained(mem, items, [], bs)
    ensures Explained(mem, items + [Gap], [], bs + [0])
  {
    hide Run, Absorb, Boot, Start, Wire, Payloads;
    WireOne(items, Gap);
    assert bs == Wire(items);
    RunAppend(Boot(mem), bs, [0]);
    GapSkipped(Run(Boot(mem), bs));
    assert bs + [0] == Wire(items + [Gap]);
    assert Payloads(items + [Gap]) == Payloads(items);
    RunNone(Run(Boot(mem), bs + [0]));
  }

  lemma LogGood(mem: Memory, items: seq<Item>, p: seq<byte>)
    requires 1 <= |p| <= 255 && AllItems(items)
    requires var m := Run(Boot(mem), Wire(items)); Idle(m) && Absorb(Start(mem), Payloads(items)) == Some(m.payload)
    requires var m := Run(Boot(mem), Wire(items)); var r := Run(m, PacketWith(CrcWord(p), p));
             Absorb(m.payload, p) == Some(r.payload)
    ensures AllItems(items + [Good(p)])
    ensures Run(Boot(mem), Wire(items + [Good(p)])) == Run(Run(Boot(mem), Wire(items)), PacketWith(CrcWord(p), p))
    ensures Absorb(Start(mem), Payloads(items + [Good(p)])) == Some(Run(Boot(mem), Wire(items + [Good(p)])).payload)
  {
    hide Run, Absorb, Boot, Start, Wire, Payloads, PacketWith, CrcWord, Proper;
    WireOne(items, Good(p));
    RunAppend(Boot(mem), Wire(items), PacketWith(CrcWord(p), p));
    AbsorbAppend(Start(mem), Payloads(items), p);
  }

  /** Everything `download` can have seen when it is still reading or returns the entry point:
      CRC-correct packets, skipped zero bytes and, while reading, the packet in progress. */
  lemma {:induction false} StreamExplained(mem: Memory, bs: seq<byte>) returns (items: seq<Item>, tail: seq<byte>)
    ensures AllItems(items)
    ensures var r := Run(Boot(mem), bs); r.result == Reading ==> Explained(mem, items, tail, bs)
    ensures var r := Run(Boot(mem), bs); r.result.Started? ==> StartedAfter(mem, items, bs, r)
    decreases |bs|
  {
    hide Run, Absorb, Boot, Start, Wire, Payloads, Partial, PacketWith, CrcWord;
    if bs == [] {
      items, tail := [], [];
      StreamEmpty(mem);
    } else {
      var a, b := bs[..|bs| - 1], bs[|bs| - 1];
      assert bs == a + [b];
      items, tail := StreamExplained(mem, a);
      RunLast(Boot(mem), a, b);
      if Run(Boot(mem), a).result == Reading {
        items, tail := StreamGrows(mem, items, tail, a, b);
      } else {
        Frozen(Run(Boot(mem), a), b);
        PrefixStays(mem, items, a, b);
      }
    }
  }

  /** The entry point was returned right after the logged packets, all of them correct. */
  predicate StartedAfter(mem: Memory, items: seq<Item>, bs: seq<byte>, r: Machine) {
    && AllItems(items) && Wire(items) <= bs
    && Absorb(Start(mem), Payloads(items)) == Some(r.payload)
    && r.result == Started(r.payload.entry) && r.payload.count == r.payload.number
  }

  lemma PrefixStays(mem: Memory, items: seq<Item>, a: seq<byte>, b: byte)
    ensures forall r :: StartedAfter(mem, items, a, r) ==> StartedAfter(mem, items, a + [b], r)
  {
    hide Absorb, Wire, Payloads, Start;
  }

  lemma Frozen(m: Machine, b: byte)
    requires ProperMachine(m) && m.result != Reading
    ensures Receive(m, b) == m
  {
  }

  lemma StreamEmpty(mem: Memory)
    ensures Explained(mem, [], [], []) && Run(Boot(mem), []).result == Reading
  {
    hide Start;
    RunNone(Boot(mem));
    AbsorbEmpty(Start(mem));
  }

  lemma StreamGrows(mem: Memory, items: seq<Item>, tail: seq<byte>, a: seq<byte>, b: byte) returns (items1: seq<Item>, tail1: seq<byte>)
    requires Explained(mem, items, tail, a)
    ensures AllItems(items1)
    ensures var r := Run(Boot(mem), a + [b]); r.result == Reading ==> Explained(mem, items1, tail1, a + [b])
    ensures var r := Run(Boot(mem), a + [b]); r.result.Started? ==> StartedAfter(mem, items1, a + [b], r)
  {
    hide Run, Absorb, Boot, Start, Wire, Payloads, Idle;
    var m := Run(Boot(mem), Wire(items));
    assert a + [b] == Wire(items) + (tail + [b]);
    RunAppend(Boot(mem), Wire(items), tail + [b]);
    items1, tail1 := items, tail + [b];
    if tail == [] {
      if b == 0 {
        items1, tail1 := items + [Gap], [];
        LogGap(mem, items, a);
      } else {
        PartialOpens(m, b);
        assert [] + [b] == [b];
      }
    } else if |tail| < tail[0] as int + 4 {
      PartialGrows(m, tail, Run(Boot(mem), a), b);
    } else {
      items1, tail1 := StreamCloses(mem, items, tail, a, b);
    }
  }

  lemma StreamCloses(mem: Memory, items: seq<Item>, tail: seq<byte>, a: seq<byte>, b: byte) returns (items1: seq<Item>, tail1: seq<byte>)
    requires Explained(mem, items, tail, a) && tail != [] && |tail| == tail[0] as int + 4
    ensures AllItems(items1)
    ensures var r := Run(Boot(mem), a + [b]); r.result == Reading ==> Explained(mem, items1, tail1, a + [b])
    ensures var r := Run(Boot(mem), a + [b]); r.result.Started? ==> StartedAfter(mem, items1, a + [b], r)
  {
    hide Run, Absorb, Boot, Start, Wire, Payloads, PacketWith, CrcWord, Proper;
    var m := Run(Boot(mem), Wire(items));
    var q := tail + [b];
    assert a + [b] == Wire(items) + q;
    RunAppend(Boot(mem), Wire(items), q);
    PartialCloses(m, tail, Run(Boot(mem), a), b);
    items1, tail1 := items, [];
    var r := Run(m, q);
    if r.result == Reading || r.result.Started? {
      var p := q[5..];
      LogGood(mem, items, p);
      items1 := items + [Good(p)];
      WireOne(items, Good(p));
      assert a + [b] == Wire(items1) + [];
      RunNone(r);
    }
  }

  /** Every return of the entry point happens only after all packets so far matched, and
      what was started is what exactly those packets carried. */
  lemma StartedOnlyAfterGoodPackets(mem: Memory, bs: seq<byte>) returns (items: seq<Item>)
    requires Run(Boot(mem), bs).result.Started?
    ensures StartedAfter(mem, items, bs, Run(Boot(mem), bs))
  {
    hide Run, Explained, StartedAfter, Boot;
    var tail;
    items, tail := StreamExplained(mem, bs);
  }
}
