/** Part of a buffer overwritten, and the few facts about quotients that block-wise loops need. */
module Splices {
  function Splice<T>(b: seq<T>, a: nat, t: seq<T>): (r: seq<T>)
    requires a + |t| <= |b|
    ensures |r| == |b|
  {
    b[..a] + t + b[a + |t|..]
  }

  lemma SpliceNext<T>(b: seq<T>, a: nat, t: seq<T>, u: seq<T>)
    requires a + |t| + |u| <= |b|
    ensures Splice(Splice(b, a, t), a + |t|, u) == Splice(b, a, t + u)
  {
    var l, r := Splice(Splice(b, a, t), a + |t|, u), Splice(b, a, t + u);
    forall k | 0 <= k < |b| ensures l[k] == r[k] {
    }
  }

  lemma SpliceOne<T>(b: seq<T>, a: nat, t: seq<T>, x: T)
    requires a + |t| < |b|
    ensures Splice(b, a, t)[a + |t| := x] == Splice(b, a, t + [x])
  {
  }

  lemma SpliceNone<T>(b: seq<T>, a: nat)
    requires a <= |b|
    ensures Splice(b, a, []) == b
  {
  }

  lemma SpliceWhole<T>(b: seq<T>, t: seq<T>)
    requires |t| == |b|
    ensures Splice(b, 0, t) == t
  {
  }

  lemma SpliceAtFront<T>(b: seq<T>, t: seq<T>)
    requires |t| <= |b|
    ensures Splice(b, 0, t)[..|t|] == t && Splice(b, 0, t)[|t|..] == b[|t|..]
  {
  }

  // ------------------------------------------------------------------------ quotients

  lemma Scale(q: int, q': int, m: nat)
    requires q < q'
    ensures q' * m >= q * m + m
  {
    var d := q' - q - 1;
    assert q' * m == q * m + m + d * m;
    assert d * m >= 0;
  }

  lemma SameRemainder(m: nat, q: int, r: nat, q': int, r': nat)
    requires q * m + r == q' * m + r' && r < m && r' < m
    ensures q == q' && r == r'
  {
    if q < q' {
      Scale(q, q', m);
    } else if q' < q {
      Scale(q', q, m);
    }
  }

  lemma Remainder(a: nat, n: nat)
    requires n > 0 && a < 2 * n
    ensures a % n == if a < n then a else a - n
  {
    if a < n {
      SameRemainder(n, a / n, a % n, 0, a);
    } else {
      SameRemainder(n, a / n, a % n, 1, a - n);
    }
  }

  lemma OneLess(a: nat, n: nat)
    requires n > 0 && a >= n
    ensures a % n == (a - n) % n
  {
    var b := a - n;
    assert a == (b / n + 1) * n + b % n;
    SameRemainder(n, a / n, a % n, b / n + 1, b % n);
  }

  lemma ExactQuotient(a: nat, b: nat)
    requires a > 0 && b > 0
    ensures a % b == 0 ==> a == a / b * b && a / b > 0
    ensures a < b ==> a % b != 0
  {
    assert a == a / b * b + a % b;
    if a < b {
      SameRemainder(b, a / b, a % b, 0, a);
    }
    if a / b == 0 {
      assert a / b * b == 0;
    }
  }

  lemma Within(i: nat, n: nat, m: nat)
    requires i < n
    ensures (i + 1) * m == i * m + m <= n * m
  {
    Scale(i, n, m);
  }
}
