/** c/ethlib/tte.c: following the master clock with integration frames (the permanence function
    of SAE AS6802). */
module TteClock {
  import opened Bytes

  const W := 0x1_0000_0000_0000_0000  // values of an unsigned long long

  // ---------------------------------------------------------- transparent clock

  /** `((t*10)>>16)*536871>>26` in 64-bit arithmetic. */
  function TransClkToClk(t: nat): (r: nat) {
    t * 10 % W / 0x1_0000 * 536871 % W / 0x400_0000
  }

  /** Multiplying by 536871 and shifting by 26 divides by 125 exactly when the error of the
      multiplier, 11 per 125, has not yet reached the gap above the remainder. */
  lemma MagicDivision(y: nat)
    ensures y * 536871 / 0x400_0000 == y / 125 <==> 11 * (y / 125) + 536871 * (y % 125) < 0x400_0000
  {
    var q, r := y / 125, y % 125;
    assert y * 536871 == q * 0x400_0000 + (11 * q + 536871 * r);
    FloorPlus(q, 11 * q + 536871 * r);
  }

  lemma FloorPlus(q: nat, rest: nat)
    ensures (q * 0x400_0000 + rest) / 0x400_0000 == q <==> rest < 0x400_0000
  {
  }

  /** Good for every value up to the first one that fails. */
  lemma MagicDivisionRange(y: nat)
    requires y < 6100874
    ensures y * 536871 / 0x400_0000 == y / 125
  {
    MagicDivision(y);
  }

  lemma MagicDivisionFails()
    ensures 6100874 * 536871 / 0x400_0000 != 6100874 / 125
  {
    MagicDivision(6100874);
  }

  /** The error of the multiplier for y is below the gap. */
  predicate MagicFits(y: nat) {
    11 * (y / 125) + 536871 * (y % 125) < 0x400_0000
  }

  /** The transparent clock, in units of 2^-16 ns, becomes whole cycles of 12.5 ns if and only if the first product
      does not wrap and the multiplier's error is below the gap. */
  lemma TransClkIsExactIff(t: nat)
    ensures TransClkToClk(t) == t * 10 / 8192000 <==> t * 10 < W && MagicFits(t * 10 / 0x1_0000)
  {
    hide MagicFits;
    DivideTwice(t * 10);
    var y := t * 10 % W / 0x1_0000;
    ProductWraps(y * 536871);
    if t * 10 < W {
      SmallModulus(t * 10, W);
      QuotientIsRightIff(y);
    } else {
      assert t * 10 / 8192000 >= W / 8192000;
    }
  }

  /** Wrapping before the shift wraps the quotient. */
  lemma ProductWraps(x: nat)
    ensures x % W / 0x400_0000 == x / 0x400_0000 % 0x40_0000_0000
  {
    var q, r := x / W, x % W;
    var d, m := r / 0x400_0000, r % 0x400_0000;
    assert x == (q * 0x40_0000_0000 + d) * 0x400_0000 + m;
    FloorPlus(q * 0x40_0000_0000 + d, m);
    assert 0 <= d < 0x40_0000_0000;
    AddMultiple(q, d);
  }

  lemma AddMultiple(q: nat, d: nat)
    requires d < 0x40_0000_0000
    ensures (q * 0x40_0000_0000 + d) % 0x40_0000_0000 == d
  {
  }

  lemma SmallModulus(x: nat, m: nat)
    requires x < m
    ensures x % m == x
  {
  }

  lemma QuotientIsRightIff(y: nat)
    requires y < 0x1_0000_0000_0000
    ensures y * 536871 / 0x400_0000 % 0x40_0000_0000 == y / 125 <==> MagicFits(y)
  {
    var q, r := y / 125, y % 125;
    var rest := 11 * q + 536871 * r;
    assert y * 536871 == q * 0x400_0000 + rest;
    var e := rest / 0x400_0000;
    QuotientPlus(q, rest);
    assert y * 536871 / 0x400_0000 == q + e;
    if q < 0x40_0000_0000 {
      WrappedSame(q, e);
    }
  }

  lemma QuotientPlus(q: nat, rest: nat)
    ensures (q * 0x400_0000 + rest) / 0x400_0000 == q + rest / 0x400_0000
    ensures rest / 0x400_0000 == 0 <==> rest < 0x400_0000
  {
  }

  lemma WrappedSame(q: nat, e: nat)
    requires q < 0x40_0000_0000 && e < 0x40_0000_0000
    ensures (q + e) % 0x40_0000_0000 == q <==> e == 0
  {
  }

  /** So every t below 39982687847 is converted exactly, and that one is not. */
  lemma FirstWrongClock(t: nat)
    ensures t < 39982687847 ==> TransClkToClk(t) == t * 10 / 8192000
    ensures TransClkToClk(39982687847) != 39982687847 * 10 / 8192000
  {
    hide TransClkToClk;
    TransClkIsExactIff(t);
    TransClkIsExactIff(39982687847);
    if t < 39982687847 {
      assert t * 10 / 0x1_0000 < 6100874;
    }
  }

  lemma DivideTwice(x: nat)
    ensures x / 0x1_0000 / 125 == x / 8192000
  {
  }

  // ------------------------------------------------------------------- the clock

  /** Delays and periods fixed by tte_initialize, in clock cycles. */
  datatype Config = Config(maxTransDelay: word, compDelay: word, precision: word, integrationPeriod: word, startTick: word)

  /** tte_current_time, integration_cycle, schedplace and timer_time. */
  datatype Clock = Clock(time: nat, cycle: nat, schedPlace: nat, timer: nat)

  /** Unsigned 64-bit arithmetic. */
  function Wrap(x: int): (r: nat)
    ensures r < W
  {
    x % W
  }

  /** The unsigned int products and sums of the code do not wrap. */
  predicate Sane(c: Config) {
    2 * c.maxTransDelay + c.compDelay < 0x1_0000_0000 && 0 < c.precision
  }

  function Delay(c: Config): nat {
    2 * c.maxTransDelay + c.compDelay
  }

  /** CYCLES_PER_UNIT*startTick, an unsigned int product. */
  function StartOffset(c: Config): nat {
    8000 * c.startTick % 0x1_0000_0000
  }

  function Permanence(c: Config, receive: nat, transClock: nat): nat {
    Wrap(receive + c.maxTransDelay - TransClkToClk(transClock))
  }

  /** Where the frame was expected: a clock of 0 expects it right now. */
  function Expected(c: Config, time: nat, permanence: nat): nat {
    Wrap((if time == 0 then Wrap(permanence - Delay(c)) else time) + Delay(c))
  }

  predicate InWindow(c: Config, expected: nat, permanence: nat) {
    permanence > Wrap(expected - c.precision) && permanence < Wrap(expected + c.precision)
  }

  /** One integration frame: true if it was accepted. */
  function Handle(c: Config, s: Clock, permanence: nat, cycle: nat): (r: (Clock, bool)) {
    var time := if s.time == 0 then Wrap(permanence - Delay(c)) else s.time;
    var expected := Expected(c, s.time, permanence);
    if InWindow(c, expected, permanence) then
      var adjusted := Wrap(time + (permanence - expected));
      var t := s.(time := Wrap(adjusted + c.integrationPeriod), cycle := cycle);
      (if cycle == 0 then t.(schedPlace := 0, timer := Wrap(adjusted + StartOffset(c))) else t, true)
    else (s.(time := 0, cycle := cycle), false)
  }

  /** Far enough from both ends of the 64-bit range. */
  predicate InRange(c: Config, p: nat) {
    Delay(c) + c.precision <= p && p + c.integrationPeriod + c.precision < W
  }

  /** The clock that follows permanence point p. */
  function Synced(c: Config, p: nat): nat
    requires InRange(c, p)
  {
    p - Delay(c) + c.integrationPeriod
  }

  lemma WrapFree(x: int)
    requires 0 <= x < W
    ensures Wrap(x) == x
  {
  }

  /** A clock that has lost its frames accepts the next one, whenever it comes. */
  lemma ResyncAccepts(c: Config, s: Clock, p: nat, cycle: nat)
    requires Sane(c) && InRange(c, p) && s.time == 0
    ensures var (t, ok) := Handle(c, s, p, cycle); ok && t.time == Synced(c, p)
  {
    WrapFree(p - Delay(c));
    WrapFree(p);
    WrapFree(p - c.precision);
    WrapFree(p + c.precision);
    WrapFree(p - Delay(c) + c.integrationPeriod);
  }

  /** Consecutive permanence points differ from the period by less than the precision. */
  predicate Steady(c: Config, p: nat, q: nat) {
    p + c.integrationPeriod < q + c.precision && q < p + c.integrationPeriod + c.precision
  }

  /** A synchronised clock accepts the next frame if and only if it is steady; it is then as if
      it had been set by that frame alone, so the error does not accumulate. A new cluster
      period restarts the dispatch table at the frame's own time. */
  lemma SteadyAccepts(c: Config, s: Clock, p: nat, q: nat, cycle: nat)
    requires Sane(c) && InRange(c, p) && InRange(c, q) && s.time == Synced(c, p)
    ensures var (t, ok) := Handle(c, s, q, cycle);
            && ok == Steady(c, p, q)
            && t.time == (if ok then Synced(c, q) else 0)
            && (ok && cycle == 0 ==> t.schedPlace == 0 && t.timer == Wrap(q - Delay(c) + StartOffset(c)))
    ensures Expected(c, s.time, q) == p + c.integrationPeriod
  {
    hide StartOffset;
    WrapFree(p + c.integrationPeriod);
    WrapFree(p + c.integrationPeriod - c.precision);
    WrapFree(p + c.integrationPeriod + c.precision);
    WrapFree(q - Delay(c));
    WrapFree(q - Delay(c) + c.integrationPeriod);
  }

  datatype Point = Point(permanence: nat, cycle: nat)

  /** The clock after a sequence of integration frames, and whether all were accepted. */
  function Follow(c: Config, s: Clock, ps: seq<Point>): (r: (Clock, bool))
    decreases |ps|
  {
    if ps == [] then (s, true)
    else
      var (t, all) := Follow(c, s, ps[..|ps| - 1]);
      var last := ps[|ps| - 1];
      var (u, ok) := Handle(c, t, last.permanence, last.cycle);
      (u, all && ok)
  }

  /** Frame k is accepted after those before it. */
  predicate Accepts(c: Config, s: Clock, ps: seq<Point>, k: nat)
    requires k < |ps|
  {
    Handle(c, Follow(c, s, ps[..k]).0, ps[k].permanence, ps[k].cycle).1
  }

  predicate SteadyRun(c: Config, ps: seq<Point>) {
    && (forall k :: 0 <= k < |ps| ==> InRange(c, ps[k].permanence))
    && (forall k :: 0 <= k < |ps| - 1 ==> Steady(c, ps[k].permanence, ps[k + 1].permanence))
  }

  /** From power-up every frame of an arbitrarily long steady run is accepted, and the clock only
      depends on the last one. */
  lemma {:induction false} SteadyRunAccepted(c: Config, s: Clock, ps: seq<Point>)
    requires Sane(c) && s.time == 0 && SteadyRun(c, ps) && ps != []
    ensures var (t, all) := Follow(c, s, ps); all && t.time == Synced(c, ps[|ps| - 1].permanence)
    ensures forall k :: 0 <= k < |ps| ==> Accepts(c, s, ps, k)
    decreases |ps|
  {
    hide Handle, InRange, Synced, Steady;
    var before, last := ps[..|ps| - 1], ps[|ps| - 1];
    if before == [] {
      ResyncAccepts(c, s, last.permanence, last.cycle);
      assert ps[..0] == [];
      assert Follow(c, s, []).0 == s;
    } else {
      SteadyRunAccepted(c, s, before);
      var (t, all) := Follow(c, s, before);
      assert Steady(c, ps[|ps| - 2].permanence, ps[|ps| - 2 + 1].permanence);
      SteadyAccepts(c, t, before[|before| - 1].permanence, last.permanence, last.cycle);
      forall k | 0 <= k < |ps| ensures Accepts(c, s, ps, k) {
        if k < |before| {
          assert Accepts(c, s, before, k);
          assert ps[..k] == before[..k];
        }
      }
    }
  }

  /** Whatever the clock and the frame, after a rejected frame the next one is accepted. */
  lemma RejectedThenAccepted(c: Config, s: Clock, p: nat, cycle: nat, q: nat, cycle': nat)
    requires Sane(c) && InRange(c, q) && !Handle(c, s, p, cycle).1
    ensures Handle(c, Handle(c, s, p, cycle).0, q, cycle').1
  {
    var t := Handle(c, s, p, cycle).0;
    assert t.time == 0;
    ResyncAccepts(c, t, q, cycle');
  }

  // ------------------------------------------------------------ following the master

  /** What the permanence function is for: a frame sent at d and held up for the cycles its transparent clock records
      has the permanence point of one that was not held up, if and only if that clock is converted exactly. A receive
      point too close to zero wraps in 64 bits. */
  lemma PermanenceCancelsDelay(c: Config, d: nat, t: nat)
    requires t < 0x1_0000_0000_0000_0000 && d + c.maxTransDelay < 0x1_0000_0000_0000_0000
    ensures Permanence(c, d + t * 10 / 8192000, t) == d + c.maxTransDelay <==> TransClkToClk(t) == t * 10 / 8192000
    ensures d + c.maxTransDelay < TransClkToClk(t) ==>
              Permanence(c, d, t) == 0x1_0000_0000_0000_0000 + d + c.maxTransDelay - TransClkToClk(t)
  {
    hide TransClkToClk;
    var x := d + c.maxTransDelay;
    var e: int := t * 10 / 8192000 - TransClkToClk(t);
    SmallCycles(t);
    WrapsOnce(x, e);
    if x < TransClkToClk(t) { WrapsOnce(x, 0 - TransClkToClk(t)); }
  }

  lemma SmallCycles(t: nat)
    requires t < 0x1_0000_0000_0000_0000
    ensures 0 <= TransClkToClk(t) < 0x1_0000_0000_0000_0000 && 0 <= t * 10 / 8192000 < 0x1_0000_0000_0000_0000
  {
  }

  lemma WrapsOnce(x: int, e: int)
    requires 0 <= x < W && -W < e < W
    ensures Wrap(x + e) == (if x + e < 0 then x + e + W else if x + e < W then x + e else x + e - W)
    ensures Wrap(x + e) == x <==> e == 0
  {
  }

  /** When the frame of a master that sent at time m is received: it is permanent at the compression master after the
      greatest transmission delay, leaves there after the compression delay, and spends t, in transparent clock units,
      on its way to this node. */
  function Received(c: Config, m: nat, t: nat): nat {
    m + c.maxTransDelay + c.compDelay + t * 10 / 8192000
  }

  /** Sent at m, the frame is permanent here at m plus both transmission delays and the compression delay. */
  lemma PermanentAt(c: Config, m: nat, t: nat)
    requires t < 39982687847 && m + 2 * c.maxTransDelay + c.compDelay < 0x1_0000_0000_0000_0000
    ensures Permanence(c, Received(c, m, t), t) == m + 2 * c.maxTransDelay + c.compDelay
  {
    hide TransClkToClk;
    FirstWrongClock(t);
    PermanenceCancelsDelay(c, m + c.maxTransDelay + c.compDelay, t);
  }

  predicate MasterInRange(c: Config, m: nat) {
    c.precision <= m && m + 2 * c.maxTransDelay + c.compDelay + c.integrationPeriod + c.precision < 0x1_0000_0000_0000_0000
  }

  /** The clock of a node that follows a master which sent at m: it shows when the master sends next. */
  function Following(c: Config, s: Clock, m: nat, cycle: nat): Clock {
    if cycle == 0 then Clock(m + c.integrationPeriod, 0, 0, (m + 8000 * c.startTick % 0x1_0000_0000) % 0x1_0000_0000_0000_0000)
    else Clock(m + c.integrationPeriod, cycle, s.schedPlace, s.timer)
  }

  /** Whatever its frames' delays, a node without synchronisation takes over the master's time, and a synchronised one
      follows it if and only if the master's own sending times are less than the precision off the period. */
  lemma NodeFollowsMaster(c: Config, s: Clock, l: nat, m: nat, t: nat, cycle: nat)
    requires Sane(c) && MasterInRange(c, l) && MasterInRange(c, m) && t < 39982687847
    requires s.time == 0 || s.time == l + c.integrationPeriod
    ensures Handle(c, s, Permanence(c, Received(c, m, t), t), cycle)
         == if s.time == 0 || (l + c.integrationPeriod < m + c.precision && m < l + c.integrationPeriod + c.precision)
            then (Following(c, s, m, cycle), true) else (s.(time := 0, cycle := cycle), false)
  {
    hide Permanence, TransClkToClk, Received, Wrap, Handle;
    PermanentAt(c, m, t);
    if s.time == 0 { FirstFrame(c, s, m, cycle); } else { NextFrame(c, s, l, m, cycle); }
  }

  lemma FirstFrame(c: Config, s: Clock, m: nat, cycle: nat)
    requires Sane(c) && MasterInRange(c, m) && s.time == 0
    ensures Handle(c, s, m + 2 * c.maxTransDelay + c.compDelay, cycle) == (Following(c, s, m, cycle), true)
  {
    var p := m + 2 * c.maxTransDelay + c.compDelay;
    WrapFree(m);
    WrapFree(p);
    WrapFree(p - c.precision);
    WrapFree(p + c.precision);
    WrapFree(m + c.integrationPeriod);
  }

  lemma NextFrame(c: Config, s: Clock, l: nat, m: nat, cycle: nat)
    requires Sane(c) && MasterInRange(c, l) && MasterInRange(c, m) && s.time == l + c.integrationPeriod
    ensures Handle(c, s, m + 2 * c.maxTransDelay + c.compDelay, cycle)
         == if l + c.integrationPeriod < m + c.precision && m < l + c.integrationPeriod + c.precision
            then (Following(c, s, m, cycle), true) else (s.(time := 0, cycle := cycle), false)
  {
    var d := 2 * c.maxTransDelay + c.compDelay;
    var e := l + c.integrationPeriod + d;
    WrapFree(e);
    WrapFree(e - c.precision);
    WrapFree(e + c.precision);
    WrapFree(m);
    WrapFree(m + c.integrationPeriod);
  }

  // -------------------------------------------------------------------- the node

  /** Bytes of a frame, most significant first, as one number. */
  function Number(bytes: seq<byte>): (r: nat)
    decreases |bytes|
  {
    if bytes == [] then 0 else Number(bytes[..|bytes| - 1]) * 0x100 + bytes[|bytes| - 1]
  }

  /** Byte k from the end has weight 256^k. */
  lemma {:induction false} NumberDigit(bytes: seq<byte>, k: nat)
    requires k < |bytes|
    ensures Number(bytes) / Pow2(8 * k) % 0x100 == bytes[|bytes| - 1 - k] && Number(bytes) < Pow2(8 * |bytes|)
    decreases k
  {
    NumberBound(bytes);
    var front, last := bytes[..|bytes| - 1], bytes[|bytes| - 1];
    if k == 0 {
      assert Pow2(0) == 1;
    } else {
      NumberDigit(front, k - 1);
      EightMore(8 * (k - 1));
      DropLastByte(Number(front), last, Pow2(8 * (k - 1)));
    }
  }

  lemma {:induction false} NumberBound(bytes: seq<byte>)
    ensures Number(bytes) < Pow2(8 * |bytes|)
    decreases |bytes|
  {
    if bytes != [] {
      NumberBound(bytes[..|bytes| - 1]);
      EightMore(8 * (|bytes| - 1));
    }
  }

  lemma EightMore(n: nat)
    ensures Pow2(n + 8) == 0x100 * Pow2(n)
  {
    FourMore(n);
    FourMore(n + 4);
  }

  lemma FourMore(n: nat)
    ensures Pow2(n + 4) == 0x10 * Pow2(n)
  {
    Pow2Twice(n);
    Pow2Twice(n + 1);
    Pow2Twice(n + 2);
    Pow2Twice(n + 3);
  }

  lemma DropLastByte(v: nat, last: byte, p: nat)
    requires p > 0
    ensures (v * 0x100 + last) / (0x100 * p) == v / p
  {
    var q, r := v / p, v % p;
    assert v == q * p + r;
    assert v * 0x100 + last == q * (0x100 * p) + (r * 0x100 + last);
    DivideSum(q, 0x100 * p, r * 0x100 + last);
  }

  class Node {
    const config: Config
    var currentTime: nat
    var integrationCycle: nat
    var schedPlace: nat
    var timerTime: nat

    ghost function Abs(): Clock
      reads this
    {
      Clock(currentTime, integrationCycle, schedPlace, timerTime)
    }

    constructor (config: Config)
      ensures this.config == config && Abs() == Clock(0, 0, 0, 0)
    {
      this.config := config;
      currentTime, integrationCycle, schedPlace, timerTime := 0, 0, 0, 0;
    }

    /** handle_integration_frame: the transparent clock is in bytes 34 to 41, the cycle in 14 to 17. */
    method HandleIntegrationFrame(frame: seq<byte>, receivePit: nat) returns (ok: bool)
      requires |frame| >= 42 && Sane(config)
      modifies this
      ensures (Abs(), ok) == Handle(config, old(Abs()), Permanence(config, receivePit, Number(frame[34..42])), Number(frame[14..18]))
    {
      hide Number, TransClkToClk, Wrap;
      var transClock := TransClkToClk(Number(frame[34..42]));
      integrationCycle := Number(frame[14..18]);
      var permanencePit := Wrap(receivePit + config.maxTransDelay - transClock);
      if currentTime == 0 {
        currentTime := Wrap(permanencePit - (2 * config.maxTransDelay + config.compDelay));
      }
      var schedRecPit := Wrap(currentTime + 2 * config.maxTransDelay + config.compDelay);
      var err := permanencePit - schedRecPit;
      if permanencePit > Wrap(schedRecPit - config.precision) && permanencePit < Wrap(schedRecPit + config.precision) {
        currentTime := Wrap(currentTime + err);
        if integrationCycle == 0 {
          schedPlace := 0;
          timerTime := Wrap(currentTime + 8000 * config.startTick % 0x1_0000_0000);
        }
        currentTime := Wrap(currentTime + config.integrationPeriod);
        ok := true;
      } else {
        currentTime := 0;
        ok := false;
      }
    }
  }
}
