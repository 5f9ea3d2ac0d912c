/** What the effects of c/libaudio compute, as equations in the numbers themselves: gains are fractions of 32768, and
    every output is the clamped sum of products up to one unit lost in rounding. */
module AudioReference {
  import opened AudioEffects

  /** Within the range that saturation leaves: 15 bits, or 16 with a shift of one. */
  function Clamp(x: int, limit: int): int {
    if x >= limit then limit - 1 else if x < -limit then -limit else x
  }

  /** y is sum / unit, rounded down, at most one unit lower or higher, clamped. */
  predicate Near(y: int, sum: int, unit: int, limit: int)
    requires unit > 0
  {
    var q := sum / unit;
    y == Clamp(q - 1, limit) || y == Clamp(q, limit) || y == Clamp(q + 1, limit)
  }

  lemma TermIs(g: short, v: short)
    ensures g as int * v as int - 3 <= 4 * Term(g, v) <= g as int * v as int
  {
  }

  lemma SaturatedScales(a: int)
    ensures Saturated(a) / 0x2000 == Clamp(a / 0x2000, 0x4000)
    ensures Saturated(a) / 0x1000 == Clamp(a / 0x1000, 0x8000)
  {
  }

  lemma NearQuotient(a: int, s: int, unit: int, limit: int)
    requires (unit == 0x8000 || unit == 0x4000) && s - 9 <= 4 * a <= s + 9
    ensures Near(Clamp(a / (unit / 4), limit), s, unit, limit)
  {
    if unit == 0x8000 { Quotient15(a, s); } else { Quotient14(a, s); }
  }

  lemma Quotient15(a: int, s: int)
    requires s - 9 <= 4 * a <= s + 9
    ensures s / 0x8000 - 1 <= a / 0x2000 <= s / 0x8000 + 1
  {
  }

  lemma Quotient14(a: int, s: int)
    requires s - 9 <= 4 * a <= s + 9
    ensures s / 0x4000 - 1 <= a / 0x1000 <= s / 0x4000 + 1
  {
  }

  lemma AttenuatedNear(a: int, s: int)
    requires s - 9 <= 4 * a <= s + 9
    ensures Near(Attenuated(a), s, 0x8000, 0x4000)
  {
    hide Near, Clamp, Saturated;
    SaturatedScales(a);
    NearQuotient(a, s, 0x8000, 0x4000);
  }

  // -------------------------------------------------------------------- comb filters

  function Product(g: short, v: short): int {
    g as int * v as int
  }

  lemma Mix2Is(g: seq<short>, u: Frame, v: Frame)
    requires |g| == 2
    ensures Near(Mix2(g, u, v).left, Product(g[0], u.left) + Product(g[1], v.left), 0x8000, 0x4000)
    ensures Near(Mix2(g, u, v).right, Product(g[0], u.right) + Product(g[1], v.right), 0x8000, 0x4000)
  {
    hide Near, Attenuated, Term;
    TermIs(g[0], u.left);
    TermIs(g[1], v.left);
    TermIs(g[0], u.right);
    TermIs(g[1], v.right);
    AttenuatedNear(Term(g[0], u.left) + Term(g[1], v.left), Product(g[0], u.left) + Product(g[1], v.left));
    AttenuatedNear(Term(g[0], u.right) + Term(g[1], v.right), Product(g[0], u.right) + Product(g[1], v.right));
  }

  lemma Mix3Is(g: seq<short>, u: Frame, v: Frame, w: Frame)
    requires |g| == 3
    ensures Near(Mix3(g, u, v, w).left, Product(g[0], u.left) + Product(g[1], v.left) + Product(g[2], w.left), 0x8000, 0x4000)
    ensures Near(Mix3(g, u, v, w).right, Product(g[0], u.right) + Product(g[1], v.right) + Product(g[2], w.right), 0x8000, 0x4000)
  {
    hide Near, Attenuated, Term;
    ThreeTerms(g, u.left, v.left, w.left);
    ThreeTerms(g, u.right, v.right, w.right);
    AttenuatedNear(Term(g[0], u.left) + Term(g[1], v.left) + Term(g[2], w.left),
                   Product(g[0], u.left) + Product(g[1], v.left) + Product(g[2], w.left));
    AttenuatedNear(Term(g[0], u.right) + Term(g[1], v.right) + Term(g[2], w.right),
                   Product(g[0], u.right) + Product(g[1], v.right) + Product(g[2], w.right));
  }

  lemma ThreeTerms(g: seq<short>, a: short, b: short, c: short)
    requires |g| == 3
    ensures var s := Product(g[0], a) + Product(g[1], b) + Product(g[2], c);
            s - 9 <= 4 * (Term(g[0], a) + Term(g[1], b) + Term(g[2], c)) <= s
  {
    hide Term;
    TermIs(g[0], a);
    TermIs(g[1], b);
    TermIs(g[2], c);
  }

  /** A sample of the past; before the start there is silence. */
  function Past(f: seq<Frame>, n: nat, d: nat, left: bool): int
    requires n < |f|
  {
    if d > n then 0 else if left then f[n - d].left else f[n - d].right
  }

  /** The delay: y[n] is direct * x[n] + feedback * y[n - (L - 1)], in both channels. */
  method DelayLine(length: nat, feedback: short, direct: short, xs: seq<Frame>) returns (ys: seq<Frame>)
    requires length >= 2
    ensures |ys| == |xs|
    ensures forall n: nat, left: bool :: n < |xs| ==>
              Near(Past(ys, n, 0, left), feedback * Past(ys, n, length - 1, left) + direct * Past(xs, n, 0, left), 0x8000, 0x4000)
  {
    hide Near, Mix2;
    ys := RunDelay(length, feedback, direct, xs);
    forall n: nat, left: bool | n < |xs|
      ensures Near(Past(ys, n, 0, left), feedback * Past(ys, n, length - 1, left) + direct * Past(xs, n, 0, left), 0x8000, 0x4000)
    {
      Mix2Is([feedback, direct], Tap(ys, n, length - 1), xs[n]);
      if left {
        assert Product(feedback, Tap(ys, n, length - 1).left) == feedback * Past(ys, n, length - 1, left);
      } else {
        assert Product(feedback, Tap(ys, n, length - 1).right) == feedback * Past(ys, n, length - 1, left);
      }
    }
  }

  /** The chorus: y[n] is g0 * x[n - d1] + g1 * x[n - d2] + g2 * x[n], the delays taken in turn from two tables. */
  method ChorusLine(length: nat, g: seq<short>, m1: seq<nat>, m2: seq<nat>, xs: seq<Frame>) returns (ys: seq<Frame>)
    requires length >= 1 && |g| == 3 && |m1| > 0 && |m2| > 0 && WithinRing(m1, length) && WithinRing(m2, length)
    ensures |ys| == |xs|
    ensures forall n: nat, left: bool :: n < |xs| ==>
              Near(Past(ys, n, 0, left),
                   g[0] * Past(xs, n, m1[n % |m1|], left) + g[1] * Past(xs, n, m2[n % |m2|], left) + g[2] * Past(xs, n, 0, left),
                   0x8000, 0x4000)
  {
    hide Near, Mix3, WithinRing;
    ys := RunChorus(length, g, m1, m2, xs);
    forall n: nat, left: bool | n < |xs|
      ensures Near(Past(ys, n, 0, left),
                   g[0] * Past(xs, n, m1[n % |m1|], left) + g[1] * Past(xs, n, m2[n % |m2|], left) + g[2] * Past(xs, n, 0, left),
                   0x8000, 0x4000)
    {
      var u, v := Tap(xs, n, m1[n % |m1|]), Tap(xs, n, m2[n % |m2|]);
      Mix3Is(g, u, v, xs[n]);
      if left {
        assert u.left == Past(xs, n, m1[n % |m1|], left) && v.left == Past(xs, n, m2[n % |m2|], left);
      } else {
        assert u.right == Past(xs, n, m1[n % |m1|], left) && v.right == Past(xs, n, m2[n % |m2|], left);
      }
    }
  }

  // ------------------------------------------------------------------------- filter

  function Sample(f: Frame, left: bool): int {
    if left then f.left else f.right
  }

  /** The section's difference equation, all six coefficients. */
  function Equation(f: Section, xs: seq<Frame>, ys: seq<Frame>, left: bool): int
    requires Proper(f) && |xs| == |ys| + 1 && |ys| >= 3
  {
    var n := |ys|;
    f.B[2] * Sample(xs[n], left) + f.B[1] * Sample(xs[n - 1], left) + f.B[0] * Sample(xs[n - 2], left)
    - f.A[1] * Sample(ys[n - 1], left) - f.A[0] * Sample(ys[n - 2], left) - f.A[2] * Sample(ys[n - 3], left)
  }

  lemma WeighIs(f: Section, xs: seq<Frame>, ys: seq<Frame>, left: bool)
    requires Proper(f) && |xs| == |ys| + 1 && |ys| >= 3
    ensures Equation(f, xs, ys, left) - 9 <= 4 * Weigh(f, xs, ys, left) <= Equation(f, xs, ys, left) + 9
  {
    hide Term;
    var n := |ys|;
    TermIs(f.B[2], Side(xs[n], left));
    TermIs(f.B[1], Side(xs[n - 1], left));
    TermIs(f.B[0], Side(xs[n - 2], left));
    TermIs(f.A[1], Side(ys[n - 1], left));
    TermIs(f.A[0], Side(ys[n - 2], left));
    TermIs(f.A[2], Side(ys[n - 3], left));
  }

  /** With a shift of zero or one the section's output is its equation over 32768, or over 16384. */
  lemma OutputIs(f: Section, xs: seq<Frame>, ys: seq<Frame>, left: bool)
    requires Proper(f) && |xs| == |ys| + 1 && |ys| >= 3 && f.shiftLeft <= 1
    ensures if f.shiftLeft == 0 then Near(Sample(Output(f, xs, ys), left), Equation(f, xs, ys, left), 0x8000, 0x4000)
            else Near(Sample(Output(f, xs, ys), left), Equation(f, xs, ys, left), 0x4000, 0x8000)
  {
    hide Near, Clamp, Saturated, Weigh, Wrap16, Equation;
    var a := Weigh(f, xs, ys, left);
    WeighIs(f, xs, ys, left);
    SaturatedScales(a);
    SmallShiftFits(a, f.shiftLeft);
    PowersHere();
    NearQuotient(a, Equation(f, xs, ys, left), 0x8000, 0x4000);
    NearQuotient(a, Equation(f, xs, ys, left), 0x4000, 0x8000);
  }

  /** An all-pass section that leaves a tone as it is takes it out of the band-pass and leaves it in the band-reject
      output; one that turns it over does the opposite. The two outputs add up to the input, up to rounding. */
  lemma BlendSeparates(x: short, y: short)
    ensures Blended(BandPass, x, x) == 0 && Blended(BandReject, x, x) == x
    ensures Blended(BandPass, x, -(x as int)) == x && Blended(BandReject, x, -(x as int)) == 0
    ensures x as int - 1 <= Blended(BandPass, x, y) + Blended(BandReject, x, y) <= x
    ensures Blended(LowPass, x, y) == Blended(HighPass, x, y) == y
  {
  }
}
