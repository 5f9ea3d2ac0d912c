/** Octets as the devices deliver them, and the few facts about bit lists and
    powers of two that several modules share. */
module Bytes {
  import opened Splices

  type byte = x: int | 0 <= x < 0x100
  type word = x: int | 0 <= x < 0x1_0000_0000

  function Pow2(n: nat): (r: nat)
    ensures r >= 1
  {
    if n == 0 then 1 else 2 * Pow2(n - 1)
  }

  /** Byte i; what lies behind the end counts as zero. */
  function At(b: seq<byte>, i: nat): byte {
    if i < |b| then b[i] else 0
  }

  /** Weight of byte k of a big-endian word. */
  function Lane(k: nat): (r: nat)
    requires k < 4
    ensures r in {0x100_0000, 0x1_0000, 0x100, 1}
  {
    if k == 0 then 0x100_0000 else if k == 1 then 0x1_0000 else if k == 2 then 0x100 else 1
  }

  /** The big-endian word of four bytes. */
  function FromBytes(b0: byte, b1: byte, b2: byte, b3: byte): (w: word) {
    b0 as int * 0x100_0000 + b1 as int * 0x1_0000 + b2 as int * 0x100 + b3 as int
  }

  function BigEndian(v: word): (r: seq<byte>)
    ensures |r| == 4
  {
    [v / 0x100_0000, v / 0x1_0000 % 0x100, v / 0x100 % 0x100, v % 0x100]
  }

  /** The number whose binary digits are `bits`, least significant first. */
  function BitsValue(bits: seq<bool>): (r: nat)
    ensures r < Pow2(|bits|)
  {
    if bits == [] then 0 else (if bits[0] then 1 else 0) + 2 * BitsValue(bits[1..])
  }

  /** The `n` low binary digits of `v`, least significant first. */
  function LowBits(v: nat, n: nat): (bits: seq<bool>)
    ensures |bits| == n
  {
    if n == 0 then [] else [v % 2 == 1] + LowBits(v / 2, n - 1)
  }

  lemma {:induction false} LowBitsInvertsBitsValue(bits: seq<bool>, n: nat)
    requires |bits| <= n
    ensures |LowBits(BitsValue(bits), n)| == n
    ensures LowBits(BitsValue(bits), n)[..|bits|] == bits
  {
    if bits != [] {
      LowBitsInvertsBitsValue(bits[1..], n - 1);
      assert BitsValue(bits) / 2 == BitsValue(bits[1..]);
      assert LowBits(BitsValue(bits), n)[..|bits|]
          == [bits[0]] + LowBits(BitsValue(bits[1..]), n - 1)[..|bits| - 1];
    }
  }

  lemma {:induction false} BitsValueInvertsLowBits(v: nat, n: nat)
    requires v < Pow2(n)
    ensures BitsValue(LowBits(v, n)) == v
  {
    if n > 0 {
      BitsValueInvertsLowBits(v / 2, n - 1);
      assert LowBits(v, n)[1..] == LowBits(v / 2, n - 1);
    }
  }

  lemma LowBitsFirst(v: nat, n: nat)
    ensures LowBits(v, 0) == [] && LowBits(v, n + 1) == [v % 2 == 1] + LowBits(v / 2, n)
  {
  }

  lemma Pow2Twice(n: nat)
    ensures Pow2(0) == 1 && Pow2(n + 1) == 2 * Pow2(n)
  {
  }

  lemma {:induction false} LowBitsSplit(v: nat, m: nat, n: nat, q: nat)
    requires q == v / Pow2(m)
    ensures LowBits(v, m + n) == LowBits(v, m) + LowBits(q, n)
    decreases m
  {
    hide LowBits, Pow2;
    if m == 0 {
      LowBitsFirst(v, n);
      Pow2Twice(0);
      assert [] + LowBits(v, n) == LowBits(v, n);
    } else {
      HalveThenDivide(v, Pow2(m - 1));
      Pow2Twice(m - 1);
      LowBitsSplit(v / 2, m - 1, n, q);
      LowBitsFirst(v, m - 1);
      LowBitsFirst(v, m - 1 + n);
      var first, low, high := [v % 2 == 1], LowBits(v / 2, m - 1), LowBits(q, n);
      assert first + (low + high) == (first + low) + high;
    }
  }

  lemma {:induction false} LowBitAt(v: nat, n: nat, k: nat)
    requires k < n
    ensures LowBits(v, n)[k] <==> v / Pow2(k) % 2 == 1
    decreases n
  {
    if k > 0 {
      LowBitAt(v / 2, n - 1, k - 1);
      HalveThenDivide(v, Pow2(k - 1));
    }
  }

  lemma BitsValueAt(bits: seq<bool>, k: nat)
    requires k < |bits|
    ensures BitsValue(bits) / Pow2(k) % 2 == 1 <==> bits[k]
  {
    hide LowBits, BitsValue, Pow2;
    LowBitsInvertsBitsValue(bits, |bits|);
    LowBitAt(BitsValue(bits), |bits|, k);
    assert LowBits(BitsValue(bits), |bits|)[..|bits|] == LowBits(BitsValue(bits), |bits|);
  }

  lemma HalveThenDivide(v: nat, p: nat)
    requires p >= 1
    ensures v / 2 / p == v / (2 * p)
  {
    var q := v / (2 * p);
    var r := v % (2 * p);
    assert v == q * (2 * p) + r;
    assert v / 2 == q * p + r / 2;
    assert r / 2 < p;
    DivideSum(q, p, r / 2);
  }

  lemma DivideSum(q: nat, p: nat, r: nat)
    requires r < p
    ensures (q * p + r) / p == q
  {
    SameRemainder(p, (q * p + r) / p, (q * p + r) % p, q, r);
  }

  lemma OneByteOff(q: nat, r: nat)
    requires r < 0x100
    ensures (q * 0x100 + r) / 0x100 == q && (q * 0x100 + r) % 0x100 == r
  {
  }

  lemma ByteByByte(v: nat)
    ensures v / 0x100 / 0x100 == v / 0x1_0000 && v / 0x1_0000 / 0x100 == v / 0x100_0000
  {
  }

  lemma FourDigits(v: nat, a: nat, b: nat, c: nat)
    requires a == v / 0x100 && b == a / 0x100 && c == b / 0x100 && c < 0x100
    ensures v == c % 0x100 * 0x100_0000 + b % 0x100 * 0x1_0000 + a % 0x100 * 0x100 + v % 0x100
  {
  }
}
