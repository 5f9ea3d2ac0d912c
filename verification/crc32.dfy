/** The bitwise CRC-32 of c/bootloader/download.c and the frame check sequence of
    IEEE 802.3 clause 3.2.9 that it computes: the complemented remainder, modulo G(x),
    of the message with its first 32 bits complemented and multiplied by x^32.

    A 32-bit register is written as its bits, least significant first, which is both the
    order the wire uses and, read as a polynomial, from the x^31 term down. */
module Crc32 {
  import opened Bytes

  type Reg = s: seq<bool> | |s| == 32 witness Repeat(false, 32)

  function Repeat(b: bool, n: nat): (r: seq<bool>)
    ensures |r| == n && forall i :: 0 <= i < n ==> r[i] == b
  {
    seq(n, _ => b)
  }

  function Xor(xs: seq<bool>, ys: seq<bool>): (r: seq<bool>)
    requires |xs| == |ys|
    ensures |r| == |xs| && forall i :: 0 <= i < |xs| ==> r[i] == (xs[i] != ys[i])
  {
    seq(|xs|, i requires 0 <= i < |xs| => xs[i] != ys[i])
  }

  // -------------------------------------------------------------- the code's form

  const POLY: Reg := LowBits(0xEDB8_8320, 32)
  const ONES: Reg := LowBits(0xFFFF_FFFF, 32)

  function ShiftRight(c: Reg): Reg {
    c[1..] + [false]
  }

  function BitStep(c: Reg): Reg {
    if c[0] then Xor(ShiftRight(c), POLY) else ShiftRight(c)
  }

  function BitSteps(c: Reg, n: nat): Reg
    decreases n
  {
    if n == 0 then c else BitSteps(BitStep(c), n - 1)
  }

  function Widen(bits: seq<bool>): Reg
    requires |bits| <= 32
  {
    bits + Repeat(false, 32 - |bits|)
  }

  function ByteStep(c: Reg, b: byte): Reg {
    BitSteps(Xor(c, Widen(LowBits(b, 8))), 8)
  }

  /** The register after the bytes of `p`. */
  function Register(c: Reg, p: seq<byte>): Reg
    decreases |p|
  {
    if p == [] then c else Register(ByteStep(c, p[0]), p[1..])
  }

  function Crc(p: seq<byte>): Reg {
    Xor(Register(ONES, p), ONES)
  }

  lemma {:induction false} OneMoreBitStep(c: Reg, n: nat)
    ensures BitSteps(c, n + 1) == BitStep(BitSteps(c, n))
    decreases n
  {
    hide BitStep;
    if n > 0 { OneMoreBitStep(BitStep(c), n - 1); }
  }

  /** The inner loop over one data byte. */
  method UpdateCrc(crc: Reg, data: byte) returns (r: Reg)
    ensures r == ByteStep(crc, data)
  {
    r := Xor(crc, Widen(LowBits(data, 8)));
    for i := 0 to 8
      invariant r == BitSteps(Xor(crc, Widen(LowBits(data, 8))), i)
    {
      OneMoreBitStep(Xor(crc, Widen(LowBits(data, 8))), i);
      if r[0] {
        r := Xor(ShiftRight(r), POLY);
      } else {
        r := ShiftRight(r);
      }
    }
  }

  lemma {:induction false} RegisterAppend(c: Reg, p: seq<byte>, q: seq<byte>)
    ensures Register(c, p + q) == Register(Register(c, p), q)
    decreases |p|
  {
    hide ByteStep;
    if p == [] {
      assert p + q == q;
    } else {
      RegisterAppend(ByteStep(c, p[0]), p[1..], q);
      assert (p + q)[1..] == p[1..] + q;
    }
  }

  // --------------------------------------------------- one message bit at a time

  function MessageBits(p: seq<byte>): (r: seq<bool>)
    ensures |r| == 8 * |p|
    decreases |p|
  {
    if p == [] then [] else LowBits(p[0], 8) + MessageBits(p[1..])
  }

  /** Bytes go out in order, each from its lowest bit up. */
  lemma {:induction false} MessageBitIs(p: seq<byte>, i: nat, k: nat)
    requires i < |p| && k < 8
    ensures MessageBits(p)[8 * i + k] <==> p[i] / Pow2(k) % 2 == 1
    decreases i
  {
    hide LowBits, Pow2;
    if i == 0 {
      LowBitAt(p[0], 8, k);
    } else {
      MessageBitIs(p[1..], i - 1, k);
    }
  }

  function FeedBit(c: Reg, b: bool): Reg {
    BitStep(c[0 := c[0] != b])
  }

  function Feed(c: Reg, bits: seq<bool>): Reg
    decreases |bits|
  {
    if bits == [] then c else Feed(FeedBit(c, bits[0]), bits[1..])
  }

  lemma {:induction false} FeedAppend(c: Reg, xs: seq<bool>, ys: seq<bool>)
    ensures Feed(c, xs + ys) == Feed(Feed(c, xs), ys)
    decreases |xs|
  {
    hide FeedBit;
    if xs == [] {
      assert xs + ys == ys;
    } else {
      FeedAppend(FeedBit(c, xs[0]), xs[1..], ys);
      assert (xs + ys)[1..] == xs[1..] + ys;
    }
  }

  lemma BitStepOfXor(c: Reg, bits: seq<bool>)
    requires 0 < |bits| <= 32
    ensures BitStep(Xor(c, Widen(bits))) == Xor(FeedBit(c, bits[0]), Widen(bits[1..]))
  {
    var l, r := BitStep(Xor(c, Widen(bits))), Xor(FeedBit(c, bits[0]), Widen(bits[1..]));
    forall i | 0 <= i < 32 ensures l[i] == r[i] {
      assert i < 31 ==> Widen(bits)[i + 1] == Widen(bits[1..])[i];
    }
  }

  /** Up to 32 message bits may be added to the register at once. */
  lemma {:induction false} FeedIsXorThenShift(c: Reg, bits: seq<bool>)
    requires |bits| <= 32
    ensures Feed(c, bits) == BitSteps(Xor(c, Widen(bits)), |bits|)
    decreases |bits|
  {
    hide BitStep, FeedBit;
    if bits == [] {
      assert Xor(c, Widen(bits)) == c;
    } else {
      BitStepOfXor(c, bits);
      FeedIsXorThenShift(FeedBit(c, bits[0]), bits[1..]);
    }
  }

  lemma {:induction false} RegisterFeedsBits(c: Reg, p: seq<byte>)
    ensures Register(c, p) == Feed(c, MessageBits(p))
    decreases |p|
  {
    hide LowBits, Feed, BitSteps;
    if p == [] {
      FeedNone(c);
    } else {
      FeedIsXorThenShift(c, LowBits(p[0], 8));
      RegisterFeedsBits(ByteStep(c, p[0]), p[1..]);
      FeedAppend(c, LowBits(p[0], 8), MessageBits(p[1..]));
    }
  }

  lemma FeedNone(c: Reg)
    ensures Feed(c, []) == c
  {
  }

  // ------------------------------------------------------------ burst detection

  lemma PolyBytes()
    ensures POLY == LowBits(0x20, 8) + LowBits(0x83, 8) + LowBits(0xB8, 8) + LowBits(0xED, 8)
  {
    hide LowBits;
    assert Pow2(8) == 256;
    LowBitsSplit(0xEDB8_8320, 8, 24, 0xED_B883);
    LowBitsSplit(0xED_B883, 8, 16, 0xEDB8);
    LowBitsSplit(0xEDB8, 8, 8, 0xED);
    LowByte(0xEDB8_8320);
    LowByte(0xED_B883);
    LowByte(0xEDB8);
  }

  lemma LowByte(v: nat)
    ensures LowBits(v, 8) == LowBits(v % 256, 8)
  {
    LowBitsMod(v, v / 256, v % 256, 8);
  }

  lemma {:induction false} LowBitsMod(v: nat, q: nat, r: nat, n: nat)
    requires v == q * Pow2(n) + r
    ensures LowBits(v, n) == LowBits(r, n)
    decreases n
  {
    if n > 0 {
      assert q * Pow2(n) == 2 * (q * Pow2(n - 1));
      LowBitsMod(v / 2, q, r / 2, n - 1);
    }
  }

  lemma PolyEndsInOne()
    ensures POLY[31]
  {
    hide LowBits;
    PolyBytes();
    TopByte();
  }

  lemma TopByte()
    ensures LowBits(0xED, 8)[7]
  {
  }

  lemma BitStepInjective(a: Reg, b: Reg)
    requires BitStep(a) == BitStep(b)
    ensures a == b
  {
    hide LowBits;
    PolyEndsInOne();
    assert BitStep(a)[31] == a[0] && BitStep(b)[31] == b[0];
    forall i | 0 <= i < 32 ensures a[i] == b[i] {
      if i > 0 { assert BitStep(a)[i - 1] == BitStep(b)[i - 1]; }
    }
  }

  lemma {:induction false} BitStepsInjective(a: Reg, b: Reg, n: nat)
    requires BitSteps(a, n) == BitSteps(b, n)
    ensures a == b
    decreases n
  {
    hide BitStep;
    if n > 0 {
      BitStepsInjective(BitStep(a), BitStep(b), n - 1);
      BitStepInjective(a, b);
    }
  }

  lemma {:induction false} FeedInjective(a: Reg, b: Reg, bits: seq<bool>)
    requires Feed(a, bits) == Feed(b, bits)
    ensures a == b
    decreases |bits|
  {
    hide BitStep;
    if bits != [] {
      FeedInjective(FeedBit(a, bits[0]), FeedBit(b, bits[0]), bits[1..]);
      BitStepInjective(a[0 := a[0] != bits[0]], b[0 := b[0] != bits[0]]);
      forall i | 0 <= i < 32 ensures a[i] == b[i] {
        assert a[0 := a[0] != bits[0]][i] == b[0 := b[0] != bits[0]][i];
      }
    }
  }

  /** From the same register, two different strings of at most 32 bits never meet. */
  lemma ShortStringsDiffer(c: Reg, xs: seq<bool>, ys: seq<bool>)
    requires |xs| == |ys| <= 32 && Feed(c, xs) == Feed(c, ys)
    ensures xs == ys
  {
    hide Feed, BitSteps;
    FeedIsXorThenShift(c, xs);
    FeedIsXorThenShift(c, ys);
    BitStepsInjective(Xor(c, Widen(xs)), Xor(c, Widen(ys)), |xs|);
    forall i | 0 <= i < |xs| ensures xs[i] == ys[i] {
      assert Xor(c, Widen(xs))[i] == Xor(c, Widen(ys))[i];
      assert Widen(xs)[i] == xs[i] && Widen(ys)[i] == ys[i];
    }
  }

  /** Every burst of at most 32 wire bits changes the CRC. */
  lemma BurstDetected(p: seq<byte>, q: seq<byte>, a: seq<bool>, x: seq<bool>, y: seq<bool>, z: seq<bool>)
    requires MessageBits(p) == a + x + z && MessageBits(q) == a + y + z
    requires |x| == |y| <= 32 && x != y
    ensures Crc(p) != Crc(q)
  {
    hide Feed, Register, MessageBits;
    RegisterFeedsBits(ONES, p);
    RegisterFeedsBits(ONES, q);
    var c := Feed(ONES, a);
    FeedAppend(ONES, a + x, z);
    FeedAppend(ONES, a, x);
    FeedAppend(ONES, a + y, z);
    FeedAppend(ONES, a, y);
    if Crc(p) == Crc(q) {
      XorCancels(Register(ONES, p), Register(ONES, q), ONES);
      FeedInjective(Feed(c, x), Feed(c, y), z);
      ShortStringsDiffer(c, x, y);
    }
  }

  lemma XorCancels(a: Reg, b: Reg, c: Reg)
    requires Xor(a, c) == Xor(b, c)
    ensures a == b
  {
    forall i | 0 <= i < 32 ensures a[i] == b[i] {
      assert Xor(a, c)[i] == Xor(b, c)[i];
    }
  }

  lemma {:induction false} MessageBitsAppend(p: seq<byte>, q: seq<byte>)
    ensures MessageBits(p + q) == MessageBits(p) + MessageBits(q)
    decreases |p|
  {
    hide LowBits;
    if p == [] {
      assert p + q == q;
    } else {
      MessageBitsAppend(p[1..], q);
      assert (p + q)[1..] == p[1..] + q;
    }
  }

  lemma {:induction false} MessageBitsInjective(p: seq<byte>, q: seq<byte>)
    requires |p| == |q| && MessageBits(p) == MessageBits(q)
    ensures p == q
    decreases |p|
  {
    hide LowBits;
    if p != [] {
      assert LowBits(p[0], 8) == MessageBits(p)[..8] == MessageBits(q)[..8] == LowBits(q[0], 8);
      assert MessageBits(p[1..]) == MessageBits(p)[8..] == MessageBits(q)[8..] == MessageBits(q[1..]);
      ByteOfBits(p[0]);
      ByteOfBits(q[0]);
      MessageBitsInjective(p[1..], q[1..]);
    }
  }

  lemma ByteOfBits(b: byte)
    ensures BitsValue(LowBits(b, 8)) == b
  {
    assert Pow2(8) == 256;
    BitsValueInvertsLowBits(b, 8);
  }

  /** Equal-length payloads that differ only inside four consecutive bytes never
      share a CRC. */
  lemma FourByteErrorDetected(a: seq<byte>, x: seq<byte>, y: seq<byte>, z: seq<byte>)
    requires |x| == |y| <= 4 && x != y
    ensures Crc(a + x + z) != Crc(a + y + z)
  {
    hide Crc, MessageBits;
    MessageBitsAppend(a + x, z);
    MessageBitsAppend(a, x);
    MessageBitsAppend(a + y, z);
    MessageBitsAppend(a, y);
    if MessageBits(x) == MessageBits(y) { MessageBitsInjective(x, y); }
    BurstDetected(a + x + z, a + y + z, MessageBits(a), MessageBits(x), MessageBits(y), MessageBits(z));
  }

  // ------------------------------------------------- the polynomial remainder

  /** G(x) = x^32 + x^26 + x^23 + x^22 + x^16 + x^12 + x^11 + x^10 + x^8 + x^7 + x^5
      + x^4 + x^2 + x + 1, without the x^32 term. */
  function Generator(): Reg {
    seq(32, k => 31 - k in {26, 23, 22, 16, 12, 11, 10, 8, 7, 5, 4, 2, 1, 0})
  }

  /** r * x + b modulo G. */
  function HornerStep(r: Reg, b: bool): Reg {
    if r[0] then Xor(r[1..] + [b], Generator()) else r[1..] + [b]
  }

  /** Remainder modulo G of the polynomial r * x^n + bits, by Horner's rule. */
  function Remainder(r: Reg, bits: seq<bool>): Reg
    decreases |bits|
  {
    if bits == [] then r else Remainder(HornerStep(r, bits[0]), bits[1..])
  }

  /** The 802.3 definition on a bit string M: complement the first 32 bits of M(x) * x^32,
      divide by G(x), complement the remainder. */
  function FrameCheck(bits: seq<bool>): Reg {
    var augmented := bits + Repeat(false, 32);
    var mask := Repeat(true, 32) + Repeat(false, |bits|);
    Xor(Remainder(Repeat(false, 32), Xor(augmented, mask)), Repeat(true, 32))
  }

  lemma Nibbles(v: byte)
    ensures LowBits(v, 8) == Nibble(v % 16) + Nibble(v / 16)
  {
    assert LowBits(v, 8) == LowBits(v, 4) + LowBits(v / 16, 4) by {
      assert Pow2(4) == 16;
      LowBitsSplit(v, 4, 4, v / 16);
    }
    assert LowBits(v, 4) == LowBits(v % 16, 4) by {
      assert Pow2(4) == 16;
      LowBitsMod(v, v / 16, v % 16, 4);
    }
    NibbleBits(v % 16);
    NibbleBits(v / 16);
  }

  function Nibble(v: int): (r: seq<bool>) {
    [v % 2 == 1, v / 2 % 2 == 1, v / 4 % 2 == 1, v / 8 % 2 == 1]
  }

  lemma NibbleBits(v: nat)
    requires v < 16
    ensures LowBits(v, 4) == Nibble(v)
  {
    assert LowBits(v, 4) == [v % 2 == 1] + LowBits(v / 2, 3);
    assert LowBits(v / 2, 3) == [v / 2 % 2 == 1] + LowBits(v / 4, 2);
    assert LowBits(v / 4, 2) == [v / 4 % 2 == 1] + LowBits(v / 8, 1);
    assert LowBits(v / 8, 1) == [v / 8 % 2 == 1] + LowBits(v / 16, 0);
  }

  lemma PolyLowHalf()
    ensures LowBits(0x20, 8) == [false, false, false, false, false, true, false, false]
    ensures LowBits(0x83, 8) == [true, true, false, false, false, false, false, true]
  {
    hide LowBits;
    Nibbles(0x20);
    Nibbles(0x83);
  }

  lemma PolyHighHalf()
    ensures LowBits(0xB8, 8) == [false, false, false, true, true, true, false, true]
    ensures LowBits(0xED, 8) == [true, false, true, true, false, true, true, true]
  {
    hide LowBits;
    Nibbles(0xB8);
    Nibbles(0xED);
  }

  lemma GeneratorBytes()
    ensures Generator()[..8] == [false, false, false, false, false, true, false, false]
    ensures Generator()[8..16] == [true, true, false, false, false, false, false, true]
    ensures Generator()[16..24] == [false, false, false, true, true, true, false, true]
    ensures Generator()[24..] == [true, false, true, true, false, true, true, true]
  {
  }

  lemma GeneratorIsPoly()
    ensures Generator() == POLY
  {
    hide LowBits;
    PolyBytes();
    PolyLowHalf();
    PolyHighHalf();
    GeneratorBytes();
    var g := Generator();
    assert g == g[..8] + g[8..16] + g[16..24] + g[24..];
  }

  lemma HornerStepLinear(a: Reg, b: Reg, x: bool, y: bool)
    ensures HornerStep(Xor(a, b), x != y) == Xor(HornerStep(a, x), HornerStep(b, y))
  {
    hide Generator;
    var l, r := HornerStep(Xor(a, b), x != y), Xor(HornerStep(a, x), HornerStep(b, y));
    forall i | 0 <= i < 32 ensures l[i] == r[i] {
    }
  }

  lemma BitStepIsHorner(r: Reg)
    ensures BitStep(r) == HornerStep(r, false)
  {
    GeneratorIsPoly();
  }

  lemma XorTail(xs: seq<bool>, ys: seq<bool>)
    requires |xs| == |ys| > 0
    ensures Xor(xs, ys)[1..] == Xor(xs[1..], ys[1..])
  {
  }

  lemma {:induction false} RemainderLinear(a: Reg, b: Reg, xs: seq<bool>, ys: seq<bool>)
    requires |xs| == |ys|
    ensures Remainder(Xor(a, b), Xor(xs, ys)) == Xor(Remainder(a, xs), Remainder(b, ys))
    decreases |xs|
  {
    hide HornerStep;
    if xs != [] {
      HornerStepLinear(a, b, xs[0], ys[0]);
      XorTail(xs, ys);
      RemainderLinear(HornerStep(a, xs[0]), HornerStep(b, ys[0]), xs[1..], ys[1..]);
    }
  }

  lemma {:induction false} RemainderAppend(r: Reg, xs: seq<bool>, ys: seq<bool>)
    ensures Remainder(r, xs + ys) == Remainder(Remainder(r, xs), ys)
    decreases |xs|
  {
    hide HornerStep;
    if xs == [] {
      assert xs + ys == ys;
    } else {
      RemainderAppend(HornerStep(r, xs[0]), xs[1..], ys);
      assert (xs + ys)[1..] == xs[1..] + ys;
    }
  }

  lemma {:induction false} RemainderOfZeros(r: Reg, n: nat)
    ensures Remainder(r, Repeat(false, n)) == BitSteps(r, n)
    decreases n
  {
    hide HornerStep, BitStep;
    if n > 0 {
      assert Repeat(false, n)[1..] == Repeat(false, n - 1);
      BitStepIsHorner(r);
      RemainderOfZeros(BitStep(r), n - 1);
    }
  }

  /** A polynomial of degree below 32 is its own remainder. */
  lemma {:induction false} RemainderOfShort(t: seq<bool>, bits: seq<bool>)
    requires |t| + |bits| == 32
    ensures Remainder(Repeat(false, |bits|) + t, bits) == t + bits
    decreases |bits|
  {
    hide Generator;
    if bits == [] {
      assert Repeat(false, 0) + t == t + [];
    } else {
      assert HornerStep(Repeat(false, |bits|) + t, bits[0]) == Repeat(false, |bits| - 1) + (t + [bits[0]]);
      RemainderOfShort(t + [bits[0]], bits[1..]);
      assert t + [bits[0]] + bits[1..] == t + bits;
    }
  }

  function When(b: bool, r: Reg): Reg {
    if b then r else Repeat(false, 32)
  }

  function Unit(b: bool): Reg {
    Repeat(false, 31) + [b]
  }

  lemma FeedBitAsXor(r: Reg, b: bool)
    ensures FeedBit(r, b) == Xor(BitStep(r), When(b, POLY))
  {
    hide LowBits;
    var f, x := FeedBit(r, b), Xor(BitStep(r), When(b, POLY));
    forall i | 0 <= i < 32 ensures f[i] == x[i] {
    }
  }

  lemma HornerStepAsXor(r: Reg, b: bool)
    ensures HornerStep(r, b) == Xor(BitStep(r), Unit(b))
  {
    hide Generator, LowBits;
    GeneratorIsPoly();
    var f, x := HornerStep(r, b), Xor(BitStep(r), Unit(b));
    forall i | 0 <= i < 32 ensures f[i] == x[i] {
    }
  }

  lemma {:induction false} BitStepsLinear(a: Reg, b: Reg, n: nat)
    ensures BitSteps(Xor(a, b), n) == Xor(BitSteps(a, n), BitSteps(b, n))
    decreases n
  {
    hide HornerStep, BitStep;
    if n > 0 {
      HornerStepLinear(a, b, false, false);
      BitStepIsHorner(a);
      BitStepIsHorner(b);
      BitStepIsHorner(Xor(a, b));
      BitStepsLinear(BitStep(a), BitStep(b), n - 1);
    }
  }

  lemma {:induction false} BitStepsOfZero(n: nat)
    ensures BitSteps(Repeat(false, 32), n) == Repeat(false, 32)
    decreases n
  {
    hide LowBits;
    if n > 0 {
      assert BitStep(Repeat(false, 32)) == Repeat(false, 32);
      BitStepsOfZero(n - 1);
    }
  }

  /** x^k for k < 32 moves down the register; x^32 is G. */
  lemma {:induction false} PowersOfX(k: nat)
    requires k <= 31
    ensures BitSteps(Repeat(false, k) + [true] + Repeat(false, 31 - k), k + 1) == POLY
    decreases k
  {
    hide LowBits;
    var r := Repeat(false, k) + [true] + Repeat(false, 31 - k);
    if k == 0 {
      assert BitStep(r) == POLY;
      assert BitSteps(r, 1) == BitSteps(BitStep(r), 0) == POLY;
    } else {
      assert BitStep(r) == Repeat(false, k - 1) + [true] + Repeat(false, 31 - (k - 1));
      PowersOfX(k - 1);
    }
  }

  lemma ScaledUnit(b: bool)
    ensures BitSteps(Unit(b), 32) == When(b, POLY)
  {
    hide BitSteps;
    if b {
      PowersOfX(31);
      assert Unit(b) == Repeat(false, 31) + [true] + Repeat(false, 0);
    } else {
      BitStepsOfZero(32);
      assert Unit(b) == Repeat(false, 32);
    }
  }

  /** From x^32 * v, one register step on b reaches x^32 * (v*x + b). */
  lemma FeedBitIsScaled(v: Reg, b: bool)
    ensures FeedBit(BitSteps(v, 32), b) == BitSteps(HornerStep(v, b), 32)
  {
    hide BitSteps, BitStep, HornerStep, FeedBit, LowBits, Unit, When;
    FeedBitAsXor(BitSteps(v, 32), b);
    HornerStepAsXor(v, b);
    BitStepsLinear(BitStep(v), Unit(b), 32);
    OneMoreBitStep(v, 32);
    FrontBitStep(v, 32);
    ScaledUnit(b);
  }

  lemma FrontBitStep(c: Reg, n: nat)
    ensures BitSteps(c, n + 1) == BitSteps(BitStep(c), n)
  {
    hide BitStep;
  }

  lemma {:induction false} FeedIsScaled(v: Reg, bits: seq<bool>)
    ensures Feed(BitSteps(v, 32), bits) == BitSteps(Remainder(v, bits), 32)
    decreases |bits|
  {
    hide BitSteps, HornerStep, FeedBit;
    if bits != [] {
      FeedBitIsScaled(v, bits[0]);
      FeedIsScaled(HornerStep(v, bits[0]), bits[1..]);
    }
  }

  lemma {:induction false} FeedLinear(a: Reg, b: Reg, bits: seq<bool>)
    ensures Feed(Xor(a, b), bits) == Xor(Feed(a, bits), Feed(b, Repeat(false, |bits|)))
    decreases |bits|
  {
    hide FeedBit, BitStep;
    if bits != [] {
      var z := Repeat(false, |bits|);
      assert z[1..] == Repeat(false, |bits| - 1);
      FeedBitLinear(a, b, bits[0]);
      FeedLinear(FeedBit(a, bits[0]), FeedBit(b, false), bits[1..]);
    }
  }

  lemma FeedBitLinear(a: Reg, b: Reg, x: bool)
    ensures FeedBit(Xor(a, b), x) == Xor(FeedBit(a, x), FeedBit(b, false))
  {
    hide LowBits;
    var f, g := FeedBit(Xor(a, b), x), Xor(FeedBit(a, x), FeedBit(b, false));
    forall i | 0 <= i < 32 ensures f[i] == g[i] {
    }
  }

  lemma {:induction false} FeedOfZeros(r: Reg, n: nat)
    ensures Feed(r, Repeat(false, n)) == BitSteps(r, n)
    decreases n
  {
    hide BitStep;
    if n > 0 {
      assert Repeat(false, n)[1..] == Repeat(false, n - 1);
      assert r[0 := r[0]] == r;
      FeedOfZeros(BitStep(r), n - 1);
    }
  }

  lemma OnesAreOnes()
    ensures ONES == Repeat(true, 32)
  {
    hide LowBits;
    assert Pow2(8) == 256;
    LowBitsSplit(0xFFFF_FFFF, 8, 24, 0xFF_FFFF);
    LowBitsSplit(0xFF_FFFF, 8, 16, 0xFFFF);
    LowBitsSplit(0xFFFF, 8, 8, 0xFF);
    LowByte(0xFFFF_FFFF);
    LowByte(0xFF_FFFF);
    LowByte(0xFFFF);
    OnesByte();
  }

  lemma OnesByte()
    ensures LowBits(0xFF, 8) == Repeat(true, 8)
  {
    assert LowBits(0xFF, 8) == [true, true, true, true, true, true, true, true];
  }

  lemma FeedFromOnes(bits: seq<bool>)
    ensures Feed(ONES, bits) == Xor(Feed(Repeat(false, 32), bits), Feed(ONES, Repeat(false, |bits|)))
  {
    hide Feed, LowBits;
    FeedLinear(Repeat(false, 32), ONES, bits);
    assert Xor(Repeat(false, 32), ONES) == ONES;
  }

  /** Four bytes of ones cancel the preset register, so that only the final complement is left. */
  lemma FourBytesOfOnes()
    ensures Crc([0xFF, 0xFF, 0xFF, 0xFF]) == Repeat(true, 32) && Crc([]) == Repeat(false, 32)
  {
    hide LowBits, BitStep, Register, BitSteps, Feed, MessageBits;
    var p: seq<byte> := [0xFF, 0xFF, 0xFF, 0xFF];
    OnesAreOnes();
    RegisterNone();
    var bits := MessageBits(p);
    forall j | 0 <= j < 32 ensures bits[j] {
      OnesBit(j % 8);
      MessageBitIs(p, j / 8, j % 8);
    }
    assert bits == Repeat(true, 32);
    RegisterFeedsBits(ONES, p);
    FeedIsXorThenShift(ONES, bits);
    assert Xor(ONES, Widen(bits)) == Repeat(false, 32);
    BitStepsOfZero(32);
  }

  lemma RegisterNone()
    ensures Register(ONES, []) == ONES
  {
  }

  lemma OnesBit(k: nat)
    requires k < 8
    ensures 0xFF / Pow2(k) % 2 == 1
  {
    hide LowBits, Pow2;
    LowBitAt(0xFF, 8, k);
    OnesByte();
  }

  /** The code's CRC is the frame check sequence of IEEE 802.3 for every payload. */
  lemma CrcIsFrameCheck(p: seq<byte>)
    ensures Crc(p) == FrameCheck(MessageBits(p))
  {
    hide Feed, Register, MessageBits, LowBits, BitSteps, Remainder;
    var bits, zero := MessageBits(p), Repeat(false, 32);
    RegisterFeedsBits(ONES, p);
    FeedFromOnes(bits);
    // the message itself, from an empty register
    BitStepsOfZero(32);
    FeedIsScaled(zero, bits);
    RemainderOfZeros(Remainder(zero, bits), 32);
    RemainderAppend(zero, bits, zero);
    // the preset register
    OnesAreOnes();
    RemainderOfShort([], Repeat(true, 32));
    assert Repeat(false, 32) + [] == zero && [] + Repeat(true, 32) == Repeat(true, 32);
    FeedOfZeros(ONES, |bits|);
    RemainderOfZeros(ONES, |bits|);
    RemainderAppend(zero, Repeat(true, 32), Repeat(false, |bits|));
    // together
    assert Xor(zero, zero) == zero;
    RemainderLinear(zero, zero, bits + zero, Repeat(true, 32) + Repeat(false, |bits|));
  }
}
