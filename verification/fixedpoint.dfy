/** c/cmp/mandelbrot_par.c: the escape-time iteration in 16.16 fixed point. The method works
    on 32-bit integers; the orbit it follows is defined on unbounded ones. */
module FixedPoint {
  newtype int32 = x: int | -0x8000_0000 <= x < 0x8000_0000
  newtype int64 = x: int | -0x8000_0000_0000_0000 <= x < 0x8000_0000_0000_0000

  const FRAC_ONE := 0x1_0000
  const MAX_SQUARE := 16 * FRAC_ONE

  /** Points the iteration is proved for: |c| <= 4.0 in each coordinate. */
  const LIMIT := 4 * FRAC_ONE

  /** Coordinates the iteration can reach while it goes on. */
  const REACH := MAX_SQUARE + LIMIT + 4

  /** Exact product of two fractions, rounded down. */
  function Product(x: int, y: int): int {
    x * y / FRAC_ONE
  }

  function Orbit(cx: int, cy: int, n: nat): (p: (int, int)) {
    if n == 0 then (0, 0)
    else
      var (x, y) := Orbit(cx, cy, n - 1);
      (Product(x, x) - Product(y, y) + cx, 2 * Product(x, y) + cy)
  }

  function Square(p: (int, int)): int {
    Product(p.0, p.0) + Product(p.1, p.1)
  }

  predicate Escaped(cx: int, cy: int, n: nat) {
    Square(Orbit(cx, cy, n)) > MAX_SQUARE
  }

  /** The orbit stays inside for its first n points. */
  predicate InsideFor(cx: int, cy: int, n: nat) {
    forall k: nat :: k < n ==> !Escaped(cx, cy, k)
  }

  predicate OnGrid(c: int) {
    -LIMIT <= c <= LIMIT
  }

  predicate Near(p: (int, int)) {
    -REACH <= p.0 <= REACH && -REACH <= p.1 <= REACH
  }

  lemma ProductOfSelf(x: int)
    ensures Product(x, x) >= 0 && Product(x, x) * FRAC_ONE <= x * x < (Product(x, x) + 1) * FRAC_ONE
  {
  }

  lemma ProductBounds(x: int, y: int, b: int)
    requires -b <= x <= b && -b <= y <= b
    ensures -(b * b) <= x * y <= b * b
  {
    if 0 <= x && 0 <= y { MulMono(x, b, y, b); }
    else if x < 0 && y < 0 { MulMono(-x, b, -y, b); assert x * y == (-x) * (-y); }
    else if x < 0 && 0 <= y { MulMono(-x, b, y, b); assert (-x) * y == -(x * y); }
    else { MulMono(x, b, -y, b); assert x * (-y) == -(x * y); }
  }

  lemma MulMono(a: nat, b: nat, c: nat, d: nat)
    requires a <= b && c <= d
    ensures 0 <= a * c <= b * d
  {
    assert a * c <= b * c <= b * d;
  }

  /** Two products of reachable coordinates still fit 32 bits when added. */
  lemma ProductFits(x: int, y: int)
    requires -REACH <= x <= REACH && -REACH <= y <= REACH
    ensures -0x1000_0000 <= Product(x, y) <= 0x1000_0000
    ensures -0x4000_0000_0000_0000 <= x * y <= 0x4000_0000_0000_0000
  {
    ProductBounds(x, y, REACH);
    assert REACH * REACH <= 0x1000_0000 * FRAC_ONE;
  }

  lemma MixedProduct(x: int, y: int)
    ensures -(x * x + y * y) <= 2 * (x * y) <= x * x + y * y
  {
    SquareIsPositive(x + y);
    SquareIsPositive(x - y);
    assert (x + y) * (x + y) == x * x + 2 * (x * y) + y * y;
    assert (x - y) * (x - y) == x * x - 2 * (x * y) + y * y;
  }

  lemma SquareIsPositive(v: int)
    ensures v * v >= 0
  {
  }

  /** The escape test keeps the next point within reach. */
  lemma NextIsNear(cx: int, cy: int, x: int, y: int)
    requires OnGrid(cx) && OnGrid(cy) && Square((x, y)) <= MAX_SQUARE
    ensures Near((Product(x, x) - Product(y, y) + cx, 2 * Product(x, y) + cy))
  {
    ProductOfSelf(x);
    ProductOfSelf(y);
    MixedProduct(x, y);
    HalfProduct(x, y, x * x + y * y);
  }

  lemma HalfProduct(x: int, y: int, s: int)
    requires -s <= 2 * (x * y) <= s < (MAX_SQUARE + 2) * FRAC_ONE
    ensures -MAX_SQUARE - 4 <= 2 * Product(x, y) <= MAX_SQUARE + 4
  {
    var p := x * y;
    assert -(MAX_SQUARE + 2) * FRAC_ONE < 2 * p < (MAX_SQUARE + 2) * FRAC_ONE;
  }

  /** Conversion of a wider integer to int: its low 32 bits, as a signed number. */
  function Narrow(v: int): (r: int32)
    ensures r as int == v <==> -0x8000_0000 <= v < 0x8000_0000
    ensures (r as int - v) % 0x1_0000_0000 == 0
  {
    ((v + 0x8000_0000) % 0x1_0000_0000 - 0x8000_0000) as int32
  }

  /** `(long long)x * y >> FRAC_BITS`, converted to int: the 64-bit product never overflows, and the result is the
      exact floored product wherever that fits 32 bits, as it does in reach of the iteration. */
  method FracMul(x: int32, y: int32) returns (r: int32)
    ensures r == Narrow(Product(x as int, y as int))
    ensures Near((x as int, y as int)) ==> r as int == Product(x as int, y as int)
  {
    hide Product, Near;
    WideFits(x as int, y as int);
    var wide: int64 := x as int64 * y as int64;
    r := Narrow(wide as int / FRAC_ONE);
    NearFits(x as int, y as int);
  }

  lemma WideFits(x: int, y: int)
    requires -0x8000_0000 <= x <= 0x8000_0000 && -0x8000_0000 <= y <= 0x8000_0000
    ensures -0x4000_0000_0000_0000 <= x * y <= 0x4000_0000_0000_0000
    ensures Product(x, y) == x * y / FRAC_ONE
  {
    ProductBounds(x, y, 0x8000_0000);
  }

  lemma NearFits(x: int, y: int)
    ensures Near((x, y)) ==> -0x8000_0000 <= Product(x, y) < 0x8000_0000
  {
    if Near((x, y)) { ProductFits(x, y); }
  }

  /** do_iter: no 32-bit operation overflows, and the result is the escape time of the exact
      orbit, or the limit if it does not escape before. */
  method DoIter(cx: int32, cy: int32, maxIter: int32) returns (iter: int32)
    requires OnGrid(cx as int) && OnGrid(cy as int) && maxIter >= 0
    ensures 0 <= iter <= maxIter && InsideFor(cx as int, cy as int, iter as int)
    ensures iter < maxIter ==> Escaped(cx as int, cy as int, iter as int)
  {
    hide Square, Product, Near;
    ghost var (a, b) := (cx as int, cy as int);
    OrbitStarts(a, b);
    var square: int32 := 0;
    iter := 0;
    var x: int32, y: int32 := 0, 0;
    while square as int <= MAX_SQUARE && iter < maxIter
      invariant 0 <= iter <= maxIter
      invariant (x as int, y as int) == Orbit(a, b, iter as int) && Near((x as int, y as int))
      invariant square as int == Square((x as int, y as int))
      invariant InsideFor(a, b, iter as int)
      decreases maxIter - iter
    {
      x, y := Advance(cx, cy, x, y);
      iter := iter + 1;
      square := SumOfSquares(x, y);
    }
  }

  lemma OrbitStarts(cx: int, cy: int)
    ensures Orbit(cx, cy, 0) == (0, 0) && Near((0, 0)) && Square((0, 0)) == 0
  {
  }

  method SumOfSquares(x: int32, y: int32) returns (r: int32)
    requires Near((x as int, y as int))
    ensures r as int == Square((x as int, y as int))
  {
    ProductFits(x as int, x as int);
    ProductFits(y as int, y as int);
    var xx := FracMul(x, x);
    var yy := FracMul(y, y);
    r := xx + yy;
  }

  method Advance(cx: int32, cy: int32, x: int32, y: int32) returns (xt: int32, yt: int32)
    requires OnGrid(cx as int) && OnGrid(cy as int) && Near((x as int, y as int))
    requires Square((x as int, y as int)) <= MAX_SQUARE
    ensures Near((xt as int, yt as int))
    ensures xt as int == Product(x as int, x as int) - Product(y as int, y as int) + cx as int
    ensures yt as int == 2 * Product(x as int, y as int) + cy as int
  {
    var xx := FracMul(x, x);
    var yy := FracMul(y, y);
    var xy := FracMul(x, y);
    ProductFits(x as int, x as int);
    ProductFits(y as int, y as int);
    ProductFits(x as int, y as int);
    xt := xx - yy + cx;
    yt := 2 * xy + cy;
    NextIsNear(cx as int, cy as int, x as int, y as int);
  }

  /** First point from n on that has escaped, or the limit. */
  function EscapeTime(cx: int, cy: int, n: nat, limit: nat): (r: nat)
    decreases limit - n
  {
    if n >= limit || Escaped(cx, cy, n) then n else EscapeTime(cx, cy, n + 1, limit)
  }

  /** What DoIter promises determines its result. */
  lemma {:induction false} EscapeTimeIsUnique(cx: int, cy: int, n: nat, r: nat, limit: nat)
    requires n <= r <= limit && InsideFor(cx, cy, r) && (r < limit ==> Escaped(cx, cy, r))
    ensures EscapeTime(cx, cy, n, limit) == r
    decreases limit - n
  {
    hide Escaped;
    if n < r { EscapeTimeIsUnique(cx, cy, n + 1, r, limit); }
  }

  // --------------------------------------------------------- the orbit as complex numbers

  /** A point (x, y) stands for the complex number z = (x + iy) / 65536. The next one is z * z + c, each part rounded:
      by less than one unit in the real part and less than two in the imaginary part. */
  lemma OrbitSquaresAndAdds(cx: int, cy: int, n: nat)
    ensures Orbit(cx, cy, 0) == (0, 0)
    ensures var (x, y) := Orbit(cx, cy, n); var (u, v) := Orbit(cx, cy, n + 1);
            && -65536 < 65536 * u - (x * x - y * y + 65536 * cx) < 65536
            && -2 * 65536 < 65536 * v - (2 * (x * y) + 65536 * cy) <= 0
  {
    var (x, y) := Orbit(cx, cy, n);
    Floored(x * x);
    Floored(y * y);
    Floored(x * y);
  }

  lemma Floored(v: int)
    ensures 65536 * (v / FRAC_ONE) <= v < 65536 * (v / FRAC_ONE) + 65536
  {
  }

  /** An escaped point is more than 4.0 away from zero, and every point clearly further away has escaped. */
  lemma EscapedIsFar(cx: int, cy: int, n: nat)
    ensures var (x, y) := Orbit(cx, cy, n);
            && (Escaped(cx, cy, n) ==> x * x + y * y > 16 * 65536 * 65536)
            && (x * x + y * y >= 16 * 65536 * 65536 + 3 * 65536 ==> Escaped(cx, cy, n))
  {
    hide Orbit;
    var (x, y) := Orbit(cx, cy, n);
    Floored(x * x);
    Floored(y * y);
  }

  /** The origin never escapes; 2 + 2i is followed by 2 + 10i, which has. */
  lemma KnownTimes()
    ensures EscapeTime(0, 0, 0, 64) == 64 && EscapeTime(131072, 131072, 0, 64) == 2
  {
    hide Product;
    forall k: nat | k < 64 ensures !Escaped(0, 0, k) {
      OriginStays(k);
    }
    EscapeTimeIsUnique(0, 0, 0, 64, 64);
    TwoPlusTwo();
    EscapeTimeIsUnique(131072, 131072, 0, 2, 64);
  }

  lemma {:induction false} OriginStays(k: nat)
    ensures Orbit(0, 0, k) == (0, 0) && !Escaped(0, 0, k)
  {
    if k > 0 { OriginStays(k - 1); }
  }

  lemma TwoPlusTwo()
    ensures InsideFor(131072, 131072, 2) && Escaped(131072, 131072, 2)
  {
    var c := 131072;
    assert Orbit(c, c, 0) == (0, 0);
    assert Orbit(c, c, 1) == (c, c);
    assert Orbit(c, c, 2) == (c, 5 * c);
  }
}
