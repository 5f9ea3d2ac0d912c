/**
 * The ring-buffer effects of libaudio: comb filters, delay, chorus and the second-order IIR filter.
 * A frame holds one 16-bit sample per channel; accumulators are 32-bit words.
 */
module AudioEffects {
  import opened Bytes
  import opened Splices

  type short = x: int | -0x8000 <= x < 0x8000

  datatype Frame = Frame(left: short, right: short)

  const SILENCE := Frame(0, 0)

  // ---------------------------------------------------------------- machine words

  function Wrap32(x: int): (r: int)
    ensures -0x8000_0000 <= r < 0x8000_0000
    ensures -0x8000_0000 <= x < 0x8000_0000 ==> r == x
  {
    (x + 0x8000_0000) % 0x1_0000_0000 - 0x8000_0000
  }

  function Wrap16(x: int): (r: short)
    ensures -0x8000 <= x < 0x8000 ==> r == x
  {
    (x + 0x8000) % 0x1_0000 - 0x8000
  }

  lemma MagnitudeBound(a: nat, b: nat)
    requires a <= 0x8000 && b <= 0x8000
    ensures 0 <= a * b <= 0x4000_0000
  {
    assert a * b <= 0x8000 * b;
  }

  lemma ProductBound(g: int, v: int)
    requires -0x8000 <= g <= 0x8000 && -0x8000 <= v <= 0x8000
    ensures -0x4000_0000 <= g * v <= 0x4000_0000
  {
    var a := if g < 0 then -g else g;
    var b := if v < 0 then -v else v;
    MagnitudeBound(a, b);
    assert g * v == a * b || g * v == -(a * b);
  }

  /** A gain times a sample, two bits given up to leave room for six such terms in 32 bits. */
  function Term(g: short, v: short): (r: int)
    ensures -0x1000_0000 <= r <= 0x1000_0000
  {
    ProductBound(g, v);
    g as int * v as int / 4
  }

  /** The product as the machine computes it: it never wraps. */
  method Weighted(g: short, v: short) returns (r: int)
    ensures r == Term(g, v)
  {
    ProductBound(g, v);
    r := Wrap32(g as int * v as int) / 4;
  }

  /** Digital saturation to 28 bits. */
  function Saturated(a: int): (r: int)
    ensures -0x800_0000 <= r <= 0x7FF_FFFF
    ensures -0x800_0000 <= a <= 0x7FF_FFFF ==> r == a
  {
    if a > 0x7FF_FFFF then 0x7FF_FFFF else if a < -0x800_0000 then -0x800_0000 else a
  }

  /** The final right shift by 13 - shiftLeft. */
  function Scaled(a: int, shiftLeft: nat): int
    requires shiftLeft <= 13
  {
    a / Pow2(13 - shiftLeft)
  }

  predicate FitsShort(x: int) {
    -0x8000 <= x < 0x8000
  }

  lemma PowersHere()
    ensures Pow2(13) == 0x2000 && Pow2(12) == 0x1000 && Pow2(11) == 0x800
  {
    assert Pow2(3) == 8;
    assert Pow2(7) == 0x80;
    assert Pow2(11) == 0x800;
  }

  lemma Pow2Grows(m: nat, n: nat)
    requires m <= n
    ensures Pow2(m) <= Pow2(n)
  {
  }

  lemma SmallShiftFits(a: int, shiftLeft: nat)
    requires shiftLeft <= 1
    ensures FitsShort(Scaled(Saturated(a), shiftLeft))
  {
    PowersHere();
    if shiftLeft == 0 {
      assert Scaled(Saturated(a), 0) == Saturated(a) / 0x2000;
    } else {
      assert Scaled(Saturated(a), 1) == Saturated(a) / 0x1000;
    }
  }

  lemma LargeShiftOverflows(p: int)
    requires 1 <= p <= 0x800
    ensures 0x7FF_FFFF / p >= 0x8000
  {
  }

  // ------------------------------------------------------------------ comb filters

  function Attenuated(a: int): (r: short) {
    Saturated(a) / 0x2000
  }

  function Mix2(g: seq<short>, u: Frame, v: Frame): Frame
    requires |g| == 2
  {
    Frame(Attenuated(Term(g[0], u.left) + Term(g[1], v.left)),
          Attenuated(Term(g[0], u.right) + Term(g[1], v.right)))
  }

  function Mix3(g: seq<short>, u: Frame, v: Frame, w: Frame): Frame
    requires |g| == 3
  {
    Frame(Attenuated(Term(g[0], u.left) + Term(g[1], v.left) + Term(g[2], w.left)),
          Attenuated(Term(g[0], u.right) + Term(g[1], v.right) + Term(g[2], w.right)))
  }

  /** The cell d places above p in a ring of n cells. */
  function Above(p: nat, d: nat, n: nat): (r: nat)
    requires p < n && d < n
    ensures r < n
  {
    if p + d < n then p + d else p + d - n
  }

  lemma AboveIsModulo(p: nat, d: nat, n: nat)
    requires p < n && d < n
    ensures (p + d) % n == Above(p, d, n)
  {
    Remainder(p + d, n);
  }

  /** combFilter_1st: no intermediate value wraps, and the output needs no truncation. */
  method CombFilter1(buf: array<Frame>, pnt: nat, g: seq<short>, del: seq<nat>) returns (y: Frame)
    requires |g| == 2 && |del| == 2 && pnt < buf.Length && del[0] < buf.Length && del[1] < buf.Length
    ensures y == Mix2(g, buf[Above(pnt, del[0], buf.Length)], buf[Above(pnt, del[1], buf.Length)])
  {
    AboveIsModulo(pnt, del[0], buf.Length);
    AboveIsModulo(pnt, del[1], buf.Length);
    var u := buf[(pnt + del[0]) % buf.Length];
    var v := buf[(pnt + del[1]) % buf.Length];
    var left := Accumulate(0, g[0], u.left);
    var right := Accumulate(0, g[0], u.right);
    left := Accumulate(left, g[1], v.left);
    right := Accumulate(right, g[1], v.right);
    y := Frame(Wrap16(Saturated(left) / 0x2000), Wrap16(Saturated(right) / 0x2000));
  }

  /** combFilter_2nd. */
  method CombFilter2(buf: array<Frame>, pnt: nat, g: seq<short>, del: seq<nat>) returns (y: Frame)
    requires |g| == 3 && |del| == 3 && pnt < buf.Length
    requires del[0] < buf.Length && del[1] < buf.Length && del[2] < buf.Length
    ensures y == Mix3(g, buf[Above(pnt, del[0], buf.Length)], buf[Above(pnt, del[1], buf.Length)],
                      buf[Above(pnt, del[2], buf.Length)])
  {
    AboveIsModulo(pnt, del[0], buf.Length);
    AboveIsModulo(pnt, del[1], buf.Length);
    AboveIsModulo(pnt, del[2], buf.Length);
    var u := buf[(pnt + del[0]) % buf.Length];
    var v := buf[(pnt + del[1]) % buf.Length];
    var w := buf[(pnt + del[2]) % buf.Length];
    var left := Accumulate(0, g[0], u.left);
    var right := Accumulate(0, g[0], u.right);
    left := Accumulate(left, g[1], v.left);
    right := Accumulate(right, g[1], v.right);
    left := Accumulate(left, g[2], w.left);
    right := Accumulate(right, g[2], w.right);
    y := Frame(Wrap16(Saturated(left) / 0x2000), Wrap16(Saturated(right) / 0x2000));
  }

  /** One accumulation in 32 bits: exact while the accumulator is at most five terms large. */
  method Accumulate(accum: int, g: short, v: short) returns (r: int)
    requires -5 * 0x1000_0000 <= accum <= 5 * 0x1000_0000
    ensures r == accum + Term(g, v)
  {
    var t := Weighted(g, v);
    r := Wrap32(accum + t);
  }

  // ------------------------------------------------------- descending-pointer rings

  /** The sample d steps before the next one; a line starts out silent. */
  function Lag(past: seq<Frame>, d: nat): Frame
    requires d >= 1
  {
    if d <= |past| then past[|past| - d] else SILENCE
  }

  /** The cells above the pointer hold the past in order; the cell under it is about to be reused. */
  ghost predicate Holds(ring: seq<Frame>, p: nat, past: seq<Frame>)
    requires p < |ring|
  {
    forall d: nat :: 1 <= d < |ring| ==> ring[Above(p, d, |ring|)] == Lag(past, d)
  }

  function Below(p: nat, n: nat): (r: nat)
    requires p < n
    ensures r < n
  {
    if p == 0 then n - 1 else p - 1
  }

  lemma SilentHolds(ring: seq<Frame>, p: nat)
    requires p < |ring| && forall i :: 0 <= i < |ring| ==> ring[i] == SILENCE
    ensures Holds(ring, p, [])
  {
  }

  /** Writing under the pointer and moving down keeps the order. */
  lemma PushHolds(ring: seq<Frame>, p: nat, past: seq<Frame>, x: Frame)
    requires p < |ring| && Holds(ring, p, past)
    ensures Holds(ring[p := x], Below(p, |ring|), past + [x])
  {
    var n := |ring|;
    forall d: nat | 1 <= d < n
      ensures ring[p := x][Above(Below(p, n), d, n)] == Lag(past + [x], d)
    {
      assert Above(Below(p, n), d, n) == Above(p, d - 1, n);
      if d > 1 {
        assert ring[Above(p, d - 1, n)] == Lag(past, d - 1);
      }
    }
  }

  /** What the comb filters see after the newest sample has been written under the pointer. */
  lemma SeenAt(ring: seq<Frame>, p: nat, past: seq<Frame>, x: Frame, d: nat)
    requires p < |ring| && Holds(ring, p, past) && d < |ring|
    ensures ring[p := x][Above(p, d, |ring|)] == Lag(past + [x], d + 1)
  {
  }

  /** struct IIRdelay: the ring stores the outputs, fed back after length - 1 samples. */
  class Delay {
    const g: seq<short>
    const buf: array<Frame>
    var pnt: nat
    ghost var outputs: seq<Frame>

    ghost predicate Valid()
      reads this, buf
    {
      |g| == 2 && buf.Length >= 2 && pnt < buf.Length && Holds(buf[..], pnt, outputs)
    }

    constructor (length: nat, feedback: short, direct: short)
      requires length >= 2
      ensures Valid() && fresh(buf) && outputs == [] && buf.Length == length && g == [feedback, direct]
    {
      g := [feedback, direct];
      pnt := length - 1;
      outputs := [];
      var b := new Frame[length](_ => SILENCE);
      buf := b;
      new;
      SilentHolds(buf[..], pnt);
    }

    /** audio_delay. */
    method Process(x: Frame) returns (y: Frame)
      requires Valid()
      modifies this`pnt, this`outputs, buf
      ensures Valid() && outputs == old(outputs) + [y]
      ensures y == Mix2(g, Lag(old(outputs), buf.Length - 1), x)
    {
      hide Holds, Mix2;
      ghost var ring := buf[..];
      buf[pnt] := x;
      assert buf[..] == ring[pnt := x];
      y := CombFilter1(buf, pnt, g, [buf.Length - 1, 0]);
      SeenAt(ring, pnt, outputs, x, buf.Length - 1);
      SeenAt(ring, pnt, outputs, x, 0);
      buf[pnt] := y;
      assert buf[..] == ring[pnt := y];
      PushHolds(ring, pnt, outputs, y);
      outputs := outputs + [y];
      if pnt == 0 {
        pnt := buf.Length - 1;
      } else {
        pnt := pnt - 1;
      }
    }
  }

  /** x[n - d], silence before the start. */
  function Tap(xs: seq<Frame>, n: nat, d: nat): Frame
    requires n < |xs|
  {
    if d <= n then xs[n - d] else SILENCE
  }

  /** The delay over a whole stream: y[n] from x[n] and y[n - (L - 1)], silence before the start. */
  method RunDelay(length: nat, feedback: short, direct: short, xs: seq<Frame>) returns (ys: seq<Frame>)
    requires length >= 2
    ensures |ys| == |xs|
    ensures forall n :: 0 <= n < |xs| ==> ys[n] == Mix2([feedback, direct], Tap(ys, n, length - 1), xs[n])
  {
    hide Mix2, Holds;
    var line := new Delay(length, feedback, direct);
    ys := [];
    for i := 0 to |xs|
      invariant line.Valid() && line.outputs == ys && |ys| == i && fresh(line) && fresh(line.buf)
      invariant line.buf.Length == length && line.g == [feedback, direct]
      invariant forall n :: 0 <= n < i ==> ys[n] == Mix2([feedback, direct], Tap(ys, n, length - 1), xs[n])
    {
      ghost var before := ys;
      var y := line.Process(xs[i]);
      ys := ys + [y];
      assert Lag(before, length - 1) == Tap(ys, i, length - 1);
      forall n: nat | n < i ensures ys[n] == Mix2([feedback, direct], Tap(ys, n, length - 1), xs[n]) {
        assert Tap(ys, n, length - 1) == Tap(before, n, length - 1);
      }
    }
  }

  /** struct Chorus: two modulated taps and the direct sample. */
  class Chorus {
    const g: seq<short>
    const buf: array<Frame>
    const mod1: seq<nat>
    const mod2: seq<nat>
    var pnt: nat
    var c1: nat
    var c2: nat
    ghost var inputs: seq<Frame>

    ghost predicate Valid()
      reads this, buf
    {
      && |g| == 3 && buf.Length >= 1 && pnt < buf.Length && Holds(buf[..], pnt, inputs)
      && |mod1| > 0 && |mod2| > 0 && WithinRing(mod1, buf.Length) && WithinRing(mod2, buf.Length)
      && c1 == |inputs| % |mod1| && c2 == |inputs| % |mod2|
    }

    constructor (length: nat, gains: seq<short>, m1: seq<nat>, m2: seq<nat>)
      requires length >= 1 && |gains| == 3 && |m1| > 0 && |m2| > 0
      requires WithinRing(m1, length) && WithinRing(m2, length)
      ensures Valid() && fresh(buf) && inputs == [] && buf.Length == length
      ensures g == gains && mod1 == m1 && mod2 == m2
    {
      g := gains;
      mod1 := m1;
      mod2 := m2;
      pnt := length - 1;
      c1 := 0;
      c2 := 0;
      inputs := [];
      var b := new Frame[length](_ => SILENCE);
      buf := b;
      new;
      SilentHolds(buf[..], pnt);
    }

    /** audio_chorus. */
    method Process(x: Frame) returns (y: Frame)
      requires Valid()
      modifies this`pnt, this`c1, this`c2, this`inputs, buf
      ensures Valid() && inputs == old(inputs) + [x]
      ensures y == ChorusOutput(g, mod1, mod2, inputs, |old(inputs)|)
    {
      hide Holds, Mix3;
      ghost var n := |inputs|;
      var d1 := mod1[c1];
      var d2 := mod2[c2];
      NextRemainder(n, |mod1|);
      NextRemainder(n, |mod2|);
      c1 := (c1 + 1) % |mod1|;
      c2 := (c2 + 1) % |mod2|;
      ghost var ring := buf[..];
      buf[pnt] := x;
      assert buf[..] == ring[pnt := x];
      y := CombFilter2(buf, pnt, g, [d1, d2, 0]);
      SeenAt(ring, pnt, inputs, x, d1);
      SeenAt(ring, pnt, inputs, x, d2);
      SeenAt(ring, pnt, inputs, x, 0);
      PushHolds(ring, pnt, inputs, x);
      inputs := inputs + [x];
      if pnt == 0 {
        pnt := buf.Length - 1;
      } else {
        pnt := pnt - 1;
      }
    }
  }

  predicate WithinRing(m: seq<nat>, length: nat) {
    forall i :: 0 <= i < |m| ==> m[i] < length
  }

  /** The chorus equation: the delays at time n come from the two periodic modulation tables. */
  function ChorusOutput(g: seq<short>, m1: seq<nat>, m2: seq<nat>, xs: seq<Frame>, n: nat): Frame
    requires |g| == 3 && |m1| > 0 && |m2| > 0 && n < |xs|
  {
    Mix3(g, Tap(xs, n, m1[n % |m1|]), Tap(xs, n, m2[n % |m2|]), xs[n])
  }

  lemma NextRemainder(n: nat, m: nat)
    requires m > 0
    ensures (n % m + 1) % m == (n + 1) % m
  {
    var q := n / m;
    Remainder(n % m + 1, m);
    assert n + 1 == q * m + (n % m + 1);
    if n % m + 1 < m {
      SameRemainder(m, (n + 1) / m, (n + 1) % m, q, n % m + 1);
    } else {
      SameRemainder(m, (n + 1) / m, (n + 1) % m, q + 1, 0);
    }
  }

  method RunChorus(length: nat, gains: seq<short>, m1: seq<nat>, m2: seq<nat>, xs: seq<Frame>) returns (ys: seq<Frame>)
    requires length >= 1 && |gains| == 3 && |m1| > 0 && |m2| > 0
    requires WithinRing(m1, length) && WithinRing(m2, length)
    ensures |ys| == |xs|
    ensures forall n :: 0 <= n < |xs| ==> ys[n] == ChorusOutput(gains, m1, m2, xs, n)
  {
    hide Mix3, Holds, WithinRing;
    var line := new Chorus(length, gains, m1, m2);
    ys := [];
    for i := 0 to |xs|
      invariant line.Valid() && line.inputs == xs[..i] && |ys| == i && fresh(line) && fresh(line.buf)
      invariant line.g == gains && line.mod1 == m1 && line.mod2 == m2
      invariant forall n :: 0 <= n < i ==> ys[n] == ChorusOutput(gains, m1, m2, xs, n)
    {
      var y := line.Process(xs[i]);
      assert line.inputs == xs[..i + 1];
      ys := ys + [y];
    }
  }

  // -------------------------------------------------------- second-order IIR filter

  function Side(f: Frame, left: bool): short {
    if left then f.left else f.right
  }

  /** The accumulator after i turns of the loop over the three-cell rings. */
  function Partial(B: seq<short>, A: seq<short>, x: seq<Frame>, y: seq<Frame>, p: nat, i: nat, left: bool): (r: int)
    requires |B| == |A| == |x| == |y| == 3 && p < 3 && i <= 3
    ensures -0x2000_0000 * i <= r <= 0x2000_0000 * i
  {
    if i == 0 then 0
    else Partial(B, A, x, y, p, i - 1, left) + Term(B[i - 1], Side(x[(p + i) % 3], left))
         - Term(A[i - 1], Side(y[(p + i) % 3], left))
  }

  method Deduct(accum: int, g: short, v: short) returns (r: int)
    requires -5 * 0x1000_0000 <= accum <= 5 * 0x1000_0000
    ensures r == accum - Term(g, v)
  {
    var t := Weighted(g, v);
    r := Wrap32(accum - t);
  }

  /** filterIIR_2nd: the loop never wraps, whatever the coefficients. */
  method FilterIIR2(p: nat, x: array<Frame>, y: array<Frame>, B: seq<short>, A: seq<short>, shiftLeft: nat)
    requires |B| == |A| == x.Length == y.Length == 3 && p < 3 && shiftLeft <= 13
    modifies y
    ensures y[..] == old(y[..])[p := Frame(
                Wrap16(Scaled(Saturated(Partial(B, A, old(x[..]), old(y[..]), p, 3, true)), shiftLeft)),
                Wrap16(Scaled(Saturated(Partial(B, A, old(x[..]), old(y[..]), p, 3, false)), shiftLeft)))]
  {
    hide Term, Scaled, Saturated, Wrap16;
    ghost var was := y[..];
    var left, right := 0, 0;
    for i := 0 to 3
      invariant y[..] == was
      invariant left == Partial(B, A, x[..], y[..], p, i, true)
      invariant right == Partial(B, A, x[..], y[..], p, i, false)
    {
      var cell := (p + i + 1) % 3;
      left := Accumulate(left, B[i], x[cell].left);
      left := Deduct(left, A[i], y[cell].left);
      right := Accumulate(right, B[i], x[cell].right);
      right := Deduct(right, A[i], y[cell].right);
    }
    y[p] := Frame(Wrap16(Scaled(Saturated(left), shiftLeft)), Wrap16(Scaled(Saturated(right), shiftLeft)));
    assert y[..] == was[p := y[p]];
  }

  datatype Section = Section(B: seq<short>, A: seq<short>, shiftLeft: nat)

  predicate Proper(f: Section) {
    |f.B| == 3 && |f.A| == 3 && f.shiftLeft <= 13
  }

  /** b0 x[n] + b1 x[n-1] + b2 x[n-2] - a1 y[n-1] - a2 y[n-2], and the term of A[2], which meets y[n-3]. */
  function Weigh(f: Section, xs: seq<Frame>, ys: seq<Frame>, left: bool): int
    requires Proper(f) && |xs| == |ys| + 1 && |ys| >= 3
  {
    var n := |ys|;
    Term(f.B[2], Side(xs[n], left)) + Term(f.B[1], Side(xs[n - 1], left)) + Term(f.B[0], Side(xs[n - 2], left))
    - Term(f.A[1], Side(ys[n - 1], left)) - Term(f.A[0], Side(ys[n - 2], left)) - Term(f.A[2], Side(ys[n - 3], left))
  }

  function Output(f: Section, xs: seq<Frame>, ys: seq<Frame>): Frame
    requires Proper(f) && |xs| == |ys| + 1 && |ys| >= 3
  {
    Frame(Wrap16(Scaled(Saturated(Weigh(f, xs, ys, true)), f.shiftLeft)),
          Wrap16(Scaled(Saturated(Weigh(f, xs, ys, false)), f.shiftLeft)))
  }

  /** The sample stored is the scaled accumulator itself, no bit of it cut off. */
  predicate Uncut(f: Section, xs: seq<Frame>, ys: seq<Frame>)
    requires Proper(f) && |xs| == |ys| + 1 && |ys| >= 3
  {
    && Output(f, xs, ys).left == Scaled(Saturated(Weigh(f, xs, ys, true)), f.shiftLeft)
    && Output(f, xs, ys).right == Scaled(Saturated(Weigh(f, xs, ys, false)), f.shiftLeft)
  }

  /** Whatever coefficients and samples, the output fits 16 bits: exactly for the shifts 0 and 1. */
  lemma OutputFitsIff(shiftLeft: nat)
    requires shiftLeft <= 13
    ensures shiftLeft <= 1 <==>
            forall f, xs, ys ::
              Proper(f) && f.shiftLeft == shiftLeft && |xs| == |ys| + 1 && |ys| >= 3 ==> Uncut(f, xs, ys)
  {
    hide Saturated, Scaled, Weigh, Wrap16;
    if shiftLeft <= 1 {
      forall f, xs, ys | Proper(f) && f.shiftLeft == shiftLeft && |xs| == |ys| + 1 && |ys| >= 3 ensures Uncut(f, xs, ys) {
        SmallShiftFits(Weigh(f, xs, ys, true), shiftLeft);
        SmallShiftFits(Weigh(f, xs, ys, false), shiftLeft);
      }
    } else {
      var f, xs, ys := LargeShiftCuts(shiftLeft);
    }
  }

  /** A direct path at nearly full gain and a sample at full scale do it for every larger shift. */
  lemma LargeShiftCuts(shiftLeft: nat) returns (f: Section, xs: seq<Frame>, ys: seq<Frame>)
    requires 2 <= shiftLeft <= 13
    ensures Proper(f) && f.shiftLeft == shiftLeft && |xs| == |ys| + 1 && |ys| >= 3 && !Uncut(f, xs, ys)
  {
    hide Wrap16, Scaled;
    f := Section([0, 0, 0x7FFF], [0, 0, 0], shiftLeft);
    ys := [SILENCE, SILENCE, SILENCE];
    xs := ys + [Frame(0x7FFF, 0x7FFF)];
    assert Weigh(f, xs, ys, true) == Term(0x7FFF, 0x7FFF) by {
      ZeroTerm(0);
    }
    assert Saturated(Weigh(f, xs, ys, true)) == 0x7FF_FFFF;
    FullScaleOverflows(shiftLeft);
  }

  lemma FullScaleOverflows(shiftLeft: nat)
    requires 2 <= shiftLeft <= 13
    ensures Scaled(0x7FF_FFFF, shiftLeft) >= 0x8000
  {
    PowersHere();
    Pow2Grows(13 - shiftLeft, 11);
    LargeShiftOverflows(Pow2(13 - shiftLeft));
  }

  /** The three cells, the pointer on the newest. */
  predicate Remembers(ring: seq<Frame>, p: nat, past: seq<Frame>) {
    |ring| == 3 && p < 3 && |past| >= 3 && ring[p] == past[|past| - 1]
    && ring[(p + 2) % 3] == past[|past| - 2] && ring[(p + 1) % 3] == past[|past| - 3]
  }

  lemma PartialIsWeigh(f: Section, x: seq<Frame>, y: seq<Frame>, p: nat, xs: seq<Frame>, ys: seq<Frame>, left: bool)
    requires Proper(f) && |xs| == |ys| + 1 && Remembers(x, (p + 1) % 3, xs) && p < 3 && Remembers(y, p, ys)
    ensures Partial(f.B, f.A, x, y, (p + 1) % 3, 3, left) == Weigh(f, xs, ys, left)
  {
    hide Term, Side;
    var q := (p + 1) % 3;
    assert (q + 1) % 3 == (p + 2) % 3 && (q + 2) % 3 == p && (q + 3) % 3 == q;
    assert Partial(f.B, f.A, x, y, q, 1, left) == Term(f.B[0], Side(x[(q + 1) % 3], left)) - Term(f.A[0], Side(y[(q + 1) % 3], left));
  }

  /** With A[2] = 0 and a shift of at most one the sample is the plain equation, nothing cut off. */
  lemma OutputIsExact(f: Section, xs: seq<Frame>, ys: seq<Frame>, left: bool)
    requires Proper(f) && |xs| == |ys| + 1 && |ys| >= 3 && f.A[2] == 0 && f.shiftLeft <= 1
    ensures var n := |ys|;
            var sum := Term(f.B[2], Side(xs[n], left)) + Term(f.B[1], Side(xs[n - 1], left))
                       + Term(f.B[0], Side(xs[n - 2], left))
                       - Term(f.A[1], Side(ys[n - 1], left)) - Term(f.A[0], Side(ys[n - 2], left));
            Side(Output(f, xs, ys), left) == Saturated(sum) / (if f.shiftLeft == 0 then 0x2000 else 0x1000)
  {
    hide Saturated, Wrap16;
    ZeroTerm(Side(ys[|ys| - 3], left));
    SmallShiftFits(Weigh(f, xs, ys, left), f.shiftLeft);
    PowersHere();
  }

  lemma ZeroTerm(v: short)
    ensures Term(0, v) == 0
  {
  }

  datatype Kind = LowPass | HighPass | BandPass | BandReject

  /** The filter's output from its input and the section's output. */
  function Blended(kind: Kind, x: int, y: int): int {
    match kind
    case BandPass => (x - y) / 2
    case BandReject => (x + y) / 2
    case LowPass => y
    case HighPass => y
  }

  /** struct Filter; the rings start with whatever the scratchpad held. */
  class Filter {
    const section: Section
    const kind: Kind
    const x: array<Frame>
    const y: array<Frame>
    var pnt: nat
    ghost var xs: seq<Frame>
    ghost var ys: seq<Frame>

    ghost predicate Valid()
      reads this, x, y
    {
      Proper(section) && x != y && |xs| == |ys| && Remembers(x[..], pnt, xs) && Remembers(y[..], pnt, ys)
    }

    constructor (f: Section, k: Kind, x0: array<Frame>, y0: array<Frame>)
      requires Proper(f) && x0 != y0 && x0.Length == 3 && y0.Length == 3
      ensures Valid() && section == f && kind == k && x == x0 && y == y0 && xs == x0[..] && ys == y0[..]
    {
      section := f;
      kind := k;
      x := x0;
      y := y0;
      pnt := 2;
      xs := x0[..];
      ys := y0[..];
    }

    /** audio_filter. */
    method Process(v: Frame) returns (out: Frame)
      requires Valid()
      modifies this`pnt, this`xs, this`ys, x, y
      ensures Valid() && xs == old(xs) + [v] && ys == old(ys) + [Output(section, xs, old(ys))]
      ensures out.left == Blended(kind, v.left, ys[|ys| - 1].left)
      ensures out.right == Blended(kind, v.right, ys[|ys| - 1].right)
    {
      hide Partial, Weigh;
      ghost var p := pnt;
      pnt := (pnt + 1) % 3;
      x[pnt] := v;
      xs := xs + [v];
      assert Remembers(x[..], pnt, xs);
      PartialIsWeigh(section, x[..], y[..], p, xs, ys, true);
      PartialIsWeigh(section, x[..], y[..], p, xs, ys, false);
      FilterIIR2(pnt, x, y, section.B, section.A, section.shiftLeft);
      ys := ys + [y[pnt]];
      var s := y[pnt];
      var left, right;
      match kind {
        case BandPass => left, right := (v.left as int - s.left as int) / 2, (v.right as int - s.right as int) / 2;
        case BandReject => left, right := (v.left as int + s.left as int) / 2, (v.right as int + s.right as int) / 2;
        case LowPass => left, right := s.left as int, s.right as int;
        case HighPass => left, right := s.left as int, s.right as int;
      }
      out := Frame(Wrap16(left), Wrap16(right));
    }
  }

  /** The filter over a whole stream, from any initial ring contents; ys is the section's own output. */
  method RunFilter(f: Section, k: Kind, x0: array<Frame>, y0: array<Frame>, vs: seq<Frame>)
    returns (outs: seq<Frame>, ghost ys: seq<Frame>)
    requires Proper(f) && x0 != y0 && x0.Length == 3 && y0.Length == 3
    modifies x0, y0
    ensures |outs| == |vs| && |ys| == |vs| + 3 && ys[..3] == old(y0[..])
    ensures forall n: nat :: n < |vs| ==> Obeys(f, k, old(x0[..]) + vs, ys, outs, n)
  {
    hide Output, Blended, Remembers;
    var node := new Filter(f, k, x0, y0);
    ghost var px, py := x0[..], y0[..];
    outs := [];
    for i := 0 to |vs|
      invariant node.Valid() && fresh(node) && node.x == x0 && node.y == y0 && node.section == f && node.kind == k
      invariant |outs| == i && node.xs == px + vs[..i] && |node.ys| == i + 3 && node.ys[..3] == py
      invariant forall n: nat :: n < i ==> Obeys(f, k, px + vs, node.ys, outs, n)
    {
      ghost var before, ys0 := outs, node.ys;
      var out := node.Process(vs[i]);
      outs := outs + [out];
      assert (px + vs)[..i + 4] == px + vs[..i + 1] == node.xs;
      assert node.ys[..i + 3] == ys0;
      forall n: nat | n < i ensures Obeys(f, k, px + vs, node.ys, outs, n) {
        assert Obeys(f, k, px + vs, ys0, before, n);
        assert node.ys[..n + 3] == ys0[..n + 3];
      }
    }
    ys := node.ys;
  }

  /** Step n of a run; both histories carry the three initial cells in front. */
  predicate Obeys(f: Section, k: Kind, xs: seq<Frame>, ys: seq<Frame>, outs: seq<Frame>, n: nat)
    requires Proper(f)
  {
    && n < |outs| && n + 3 < |xs| && n + 3 < |ys|
    && ys[n + 3] == Output(f, xs[..n + 4], ys[..n + 3])
    && outs[n].left == Blended(k, xs[n + 3].left, ys[n + 3].left)
    && outs[n].right == Blended(k, xs[n + 3].right, ys[n + 3].right)
  }
}
