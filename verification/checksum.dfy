/** The Internet checksum (section 1 of RFC 1071) as c/ethlib computes it: a 32-bit sum of
    big-endian 16-bit words, folded three times, complemented. */
module Checksum {
  import opened Bytes

  const ALL := 0xFFFF

  /** Sum of the n 16-bit words from byte a on. */
  function Sum16(b: seq<byte>, a: nat, n: nat): (r: nat)
    ensures r <= n * 0xFFFF
  {
    if n == 0 then 0 else Sum16(b, a, n - 1) + WordAt(b, a + 2 * (n - 1))
  }

  function WordAt(b: seq<byte>, i: nat): (r: nat)
    ensures r <= 0xFFFF
  {
    At(b, i) * 0x100 + At(b, i + 1)
  }

  /** One conditional carry fold. */
  function Fold(c: nat): (r: nat) {
    if c >= 0x1_0000 then c % 0x1_0000 + c / 0x1_0000 else c
  }

  function Fold3(c: nat): (r: nat) {
    Fold(Fold(Fold(c)))
  }

  lemma FoldKeepsResidue(c: nat)
    requires c < 0x1_0000_0000
    ensures Fold(c) % ALL == c % ALL && (Fold(c) == 0 <==> c == 0)
    ensures Fold(c) <= c && Fold(c) < 0x2_0000 && (c < 0x1_FFFF ==> Fold(c) <= ALL)
  {
    if c >= 0x1_0000 {
      var q, r := c / 0x1_0000, c % 0x1_0000;
      assert c == q * ALL + (q + r);
      ResidueShift(q, q + r);
    }
  }

  lemma ResidueShift(q: nat, r: nat)
    ensures (q * ALL + r) % ALL == r % ALL
  {
    var d := r / ALL;
    assert q * ALL + r == (q + d) * ALL + r % ALL;
  }

  /** Three folds always suffice for a 32-bit sum, and give its residue with end-around carry:
      0 only for 0. */
  lemma ThreeFoldsSuffice(c: nat)
    requires c < 0x1_0000_0000
    ensures Fold3(c) <= ALL && Fold3(c) % ALL == c % ALL && (Fold3(c) == 0 <==> c == 0)
  {
    hide Fold;
    FoldKeepsResidue(c);
    FoldKeepsResidue(Fold(c));
    FoldKeepsResidue(Fold(Fold(c)));
    FirstFoldBound(c);
  }

  lemma FirstFoldBound(c: nat)
    requires c < 0x1_0000_0000
    ensures Fold(c) < 0x1_FFFF
  {
  }

  /** The words of a packet with a correct checksum add up to all ones. */
  predicate SumsToOnes(c: nat) {
    Fold3(c) == ALL
  }

  lemma OnesIffMultiple(c: nat)
    requires c < 0x1_0000_0000
    ensures SumsToOnes(c) <==> c > 0 && c % ALL == 0
  {
    hide Fold3;
    ThreeFoldsSuffice(c);
  }

  /** What goes into the checksum field, given the sum of everything else. */
  function Complement(c: nat): (r: int)
  {
    ALL - Fold3(c)
  }

  /** Filling in the complement makes the packet correct. */
  lemma ComplementCompletes(c: nat)
    requires c < 0xFFFF_0000
    ensures 0 <= Complement(c) <= ALL && SumsToOnes(c + Complement(c))
  {
    hide Fold3;
    ThreeFoldsSuffice(c);
    var f := Fold3(c);
    OnesIffMultiple(c + (ALL - f));
    ResidueCancels(c, f);
  }

  lemma ResidueCancels(c: nat, f: nat)
    requires f <= ALL && f % ALL == c % ALL
    ensures (c + (ALL - f)) % ALL == 0
  {
    var d, e := c / ALL, f / ALL;
    assert c - f == (d - e) * ALL;
    assert c + (ALL - f) == (d - e + 1) * ALL;
  }

  /** Two sums fold to the same value exactly when they agree modulo 65535 and are both zero or
      both not. */
  lemma SameFold(c: nat, d: nat)
    requires c < 0x1_0000_0000 && d < 0x1_0000_0000
    ensures Fold3(c) == Fold3(d) <==> c % ALL == d % ALL && (c == 0 <==> d == 0)
  {
    hide Fold3;
    ThreeFoldsSuffice(c);
    ThreeFoldsSuffice(d);
  }

  // --------------------------------------------------------- sums over packets

  lemma {:induction false} SumCong(b: seq<byte>, d: seq<byte>, a: nat, n: nat)
    requires forall i: nat :: a <= i < a + 2 * n ==> At(b, i) == At(d, i)
    ensures Sum16(b, a, n) == Sum16(d, a, n)
    decreases n
  {
    if n > 0 {
      SumCong(b, d, a, n - 1);
      assert At(b, a + 2 * (n - 1)) == At(d, a + 2 * (n - 1));
      assert At(b, a + 2 * (n - 1) + 1) == At(d, a + 2 * (n - 1) + 1);
    }
  }

  lemma {:induction false} SumSplit(b: seq<byte>, a: nat, m: nat, n: nat)
    ensures Sum16(b, a, m + n) == Sum16(b, a, m) + Sum16(b, a + 2 * m, n)
    decreases n
  {
    if n > 0 { SumSplit(b, a, m, n - 1); }
  }

  /** The sum with word k taken out. */
  lemma SumWithout(b: seq<byte>, a: nat, n: nat, k: nat)
    requires k < n
    ensures Sum16(b, a, n) == Sum16(b, a, k) + WordAt(b, a + 2 * k) + Sum16(b, a + 2 * (k + 1), n - k - 1)
  {
    hide WordAt;
    SumSplit(b, a, k, n - k);
    SumSplit(b, a + 2 * k, 1, n - k - 1);
    assert a + 2 * k + 2 * 1 == a + 2 * (k + 1);
    SumOfOne(b, a + 2 * k);
  }

  lemma SumOfOne(b: seq<byte>, a: nat)
    ensures Sum16(b, a, 1) == WordAt(b, a)
  {
    assert Sum16(b, a, 0) == 0;
  }

  /** Replacing one aligned word changes the sum by the difference. */
  lemma SumReplace(b: seq<byte>, d: seq<byte>, a: nat, n: nat, k: nat)
    requires k < n
    requires forall i: nat :: a <= i < a + 2 * n && i != a + 2 * k && i != a + 2 * k + 1 ==> At(b, i) == At(d, i)
    ensures Sum16(d, a, n) == Sum16(b, a, n) - WordAt(b, a + 2 * k) + WordAt(d, a + 2 * k)
  {
    hide WordAt;
    SumWithout(b, a, n, k);
    SumWithout(d, a, n, k);
    SumCong(b, d, a, k);
    SumCong(b, d, a + 2 * (k + 1), n - k - 1);
  }
}
