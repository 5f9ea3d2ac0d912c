/** c/ethlib/tte.c: the zero-marked ring in which frames wait for their slot. */
module TteQueue {
  datatype Frame = Frame(addr: nat, size: nat)

  // ------------------------------------------------------- the bounded queue

  datatype Op = Offer(f: Frame) | ClockTick

  /** Frames accepted, frames sent, frames still waiting. */
  datatype History = History(accepted: seq<Frame>, sent: seq<Frame>, waiting: seq<Frame>)

  function One(capacity: nat, h: History, op: Op): (r: History) {
    match op
    case Offer(f) => if |h.waiting| < capacity then History(h.accepted + [f], h.sent, h.waiting + [f]) else h
    case ClockTick => if h.waiting == [] then h else History(h.accepted, h.sent + [h.waiting[0]], h.waiting[1..])
  }

  function Play(capacity: nat, h: History, ops: seq<Op>): (r: History)
    decreases |ops|
  {
    if ops == [] then h else One(capacity, Play(capacity, h, ops[..|ops| - 1]), ops[|ops| - 1])
  }

  /** Every accepted frame is sent once, in order, or still waits; the bound holds. */
  lemma {:induction false} NothingLostOrReordered(capacity: nat, h: History, ops: seq<Op>)
    requires h.accepted == h.sent + h.waiting && |h.waiting| <= capacity
    ensures var r := Play(capacity, h, ops); r.accepted == r.sent + r.waiting && |r.waiting| <= capacity
    decreases |ops|
  {
    if ops != [] {
      NothingLostOrReordered(capacity, h, ops[..|ops| - 1]);
      var g := Play(capacity, h, ops[..|ops| - 1]);
      if ops[|ops| - 1].ClockTick? && g.waiting != [] {
        assert g.waiting == [g.waiting[0]] + g.waiting[1..];
      }
    }
  }

  /** Enough ticks send everything that was accepted. */
  lemma {:induction false} TicksDrain(capacity: nat, h: History, n: nat)
    requires n >= |h.waiting|
    ensures var r := Play(capacity, h, seq(n, _ => ClockTick)); r.waiting == [] && r.sent == h.sent + h.waiting
    decreases |h.waiting|, n
  {
    TicksSend(capacity, h, n);
  }

  lemma {:induction false} TicksSend(capacity: nat, h: History, n: nat)
    ensures var r := Play(capacity, h, seq(n, _ => ClockTick)); var k := if n < |h.waiting| then n else |h.waiting|;
            r.waiting == h.waiting[k..] && r.sent == h.sent + h.waiting[..k] && r.accepted == h.accepted
    decreases n
  {
    var ops := seq(n, _ => ClockTick);
    if n > 0 {
      assert ops[..n - 1] == seq(n - 1, _ => ClockTick);
      TicksSend(capacity, h, n - 1);
      if n <= |h.waiting| { assert h.waiting[..n] == h.waiting[..n - 1] + [h.waiting[n - 1]]; }
    }
  }

  // ------------------------------------------------------------------------ the ring

  /** VLarray[i]: a cell of `queue` is free when it holds 0. */
  datatype Ring = Ring(queue: seq<nat>, sizes: seq<nat>, add: nat, rm: nat)

  predicate Shaped(r: Ring) {
    |r.queue| == |r.sizes| && r.add < |r.queue| && r.rm < |r.queue|
  }

  function Next(p: nat, n: nat): (r: nat)
    requires p < n
    ensures r < n
  {
    if p + 1 == n then 0 else p + 1
  }

  /** tte_schedule_send. */
  function Offered(r: Ring, f: Frame): (Ring, bool)
    requires Shaped(r)
  {
    if r.queue[r.add] != 0 then (r, false)
    else (Ring(r.queue[r.add := f.addr], r.sizes[r.add := f.size], Next(r.add, |r.queue|), r.rm), true)
  }

  /** What a clock tick does for this link: tte_send_data if the oldest cell is in use. */
  function Ticked(r: Ring): (Ring, seq<Frame>)
    requires Shaped(r)
  {
    if r.queue[r.rm] == 0 then (r, [])
    else (r.(queue := r.queue[r.rm := 0], rm := Next(r.rm, |r.queue|)), [Frame(r.queue[r.rm], r.sizes[r.rm])])
  }

  function CellAt(r: Ring, k: nat): Frame
    requires Shaped(r) && k <= |r.queue|
  {
    var p := Place(r.rm, k, |r.queue|);
    Frame(r.queue[p], r.sizes[p])
  }

  /** From the remove place on, the ring holds these frames and then free cells. */
  predicate Holds(r: Ring, waiting: seq<Frame>) {
    && Shaped(r) && |waiting| <= |r.queue| && r.add == Place(r.rm, |waiting|, |r.queue|)
    && (forall k :: 0 <= k < |waiting| ==> waiting[k].addr != 0 && CellAt(r, k) == waiting[k])
    && (forall k :: |waiting| <= k < |r.queue| ==> CellAt(r, k).addr == 0)
  }

  function Empty(n: nat): Ring {
    Ring(seq(n, _ => 0), seq(n, _ => 0), 0, 0)
  }

  lemma EmptyHolds(n: nat)
    requires n > 0
    ensures Holds(Empty(n), [])
  {
  }

  lemma OfferHolds(r: Ring, waiting: seq<Frame>, f: Frame)
    requires Holds(r, waiting)
    ensures Offered(r, f).1 == (|waiting| < |r.queue|)
    ensures !Offered(r, f).1 ==> Offered(r, f).0 == r
    ensures Offered(r, f).1 && f.addr != 0 ==> Holds(Offered(r, f).0, waiting + [f])
  {
    var n, m := |r.queue|, |waiting|;
    if m == n {
      assert CellAt(r, 0) == waiting[0];
    } else {
      assert CellAt(r, m).addr == 0;
      PlacesApart(r.rm, m, n);
      var t, w := Offered(r, f).0, waiting + [f];
      if f.addr != 0 {
        forall k | 0 <= k < m + 1 ensures CellAt(t, k) == w[k] {
          if k < m { assert CellAt(r, k) == waiting[k]; }
        }
        forall k | m + 1 <= k < n ensures CellAt(t, k).addr == 0 {
          assert CellAt(r, k).addr == 0;
        }
      }
    }
  }

  lemma TickHolds(r: Ring, waiting: seq<Frame>)
    requires Holds(r, waiting)
    ensures Holds(Ticked(r).0, if waiting == [] then [] else waiting[1..])
    ensures Ticked(r).1 == if waiting == [] then [] else [waiting[0]]
  {
    var n := |r.queue|;
    if waiting == [] {
      assert CellAt(r, 0).addr == 0;
    } else {
      assert CellAt(r, 0) == waiting[0];
      var t, w := Ticked(r).0, waiting[1..];
      PlacesShift(r.rm, n);
      PlacesApart(r.rm, 0, n);
      forall k | 0 <= k < |w| ensures CellAt(t, k) == w[k] {
        assert CellAt(r, k + 1) == waiting[k + 1];
      }
      forall k | |w| <= k < n ensures CellAt(t, k).addr == 0 {
        if k + 1 < n { assert CellAt(r, k + 1).addr == 0; }
      }
    }
  }

  /** What ticks alone would send: the frames from cell k behind the remove place up to the first free cell. */
  function PendingFrom(r: Ring, k: nat): seq<Frame>
    requires Shaped(r) && k <= |r.queue|
    decreases |r.queue| - k
  {
    if k == |r.queue| || CellAt(r, k).addr == 0 then [] else [CellAt(r, k)] + PendingFrom(r, k + 1)
  }

  lemma {:induction false} HoldsPending(r: Ring, waiting: seq<Frame>, k: nat)
    requires Holds(r, waiting) && k <= |waiting|
    ensures PendingFrom(r, k) == waiting[k..]
    decreases |waiting| - k
  {
    if k < |waiting| {
      assert CellAt(r, k) == waiting[k];
      HoldsPending(r, waiting, k + 1);
    } else if k < |r.queue| {
      assert CellAt(r, k).addr == 0;
    }
  }

  // ------------------------------------------------------------------------ all runs

  datatype Trace = Trace(ring: Ring, accepted: seq<Frame>, sent: seq<Frame>)

  /** The ring itself under any interleaving of calls that schedule frames and clock ticks. */
  function RingPlay(r: Ring, ops: seq<Op>): (t: Trace)
    requires Shaped(r)
    ensures Shaped(t.ring) && |t.ring.queue| == |r.queue|
    decreases |ops|
  {
    if ops == [] then Trace(r, [], [])
    else
      var t := RingPlay(r, ops[..|ops| - 1]);
      match ops[|ops| - 1]
      case Offer(f) =>
        var (ring, ok) := Offered(t.ring, f);
        Trace(ring, if ok then t.accepted + [f] else t.accepted, t.sent)
      case ClockTick =>
        var (ring, s) := Ticked(t.ring);
        Trace(ring, t.accepted, t.sent + s)
  }

  predicate NoneAtZero(fs: seq<Frame>) {
    forall i :: 0 <= i < |fs| ==> fs[i].addr != 0
  }

  /** As long as nothing at address 0 is accepted, the ring is the bounded queue. */
  lemma {:induction false} RingIsQueue(r: Ring, waiting: seq<Frame>, ops: seq<Op>)
    requires Holds(r, waiting) && NoneAtZero(RingPlay(r, ops).accepted)
    ensures var t, h := RingPlay(r, ops), Play(|r.queue|, History([], [], waiting), ops);
            Holds(t.ring, h.waiting) && h.accepted == t.accepted && h.sent == t.sent
    decreases |ops|
  {
    hide Holds, Offered, Ticked;
    HoldsShape(r, waiting);
    if ops != [] {
      var before, op := ops[..|ops| - 1], ops[|ops| - 1];
      var s, t := RingPlay(r, before), RingPlay(r, ops);
      assert s.accepted <= t.accepted;
      assert forall i :: 0 <= i < |s.accepted| ==> s.accepted[i] == t.accepted[i];
      RingIsQueue(r, waiting, before);
      var w := Play(|r.queue|, History([], [], waiting), before).waiting;
      if op.Offer? {
        OfferHolds(s.ring, w, op.f);
        if Offered(s.ring, op.f).1 { assert t.accepted[|s.accepted|] == op.f; }
      } else {
        TickHolds(s.ring, w);
      }
    }
  }

  /** Whatever is sent, or would be sent by ticks alone, has an address. */
  lemma {:induction false} SentHasAddress(r: Ring, ops: seq<Op>)
    requires Shaped(r)
    ensures NoneAtZero(RingPlay(r, ops).sent)
    decreases |ops|
  {
    if ops != [] { SentHasAddress(r, ops[..|ops| - 1]); }
  }

  lemma {:induction false} PendingHasAddress(r: Ring, k: nat)
    requires Shaped(r) && k <= |r.queue|
    ensures NoneAtZero(PendingFrom(r, k))
    decreases |r.queue| - k
  {
    if k < |r.queue| && CellAt(r, k).addr != 0 { PendingHasAddress(r, k + 1); }
  }

  /** Over every run from an empty ring: each accepted frame was sent, in order, or still waits behind those that
      were, if and only if no frame at address 0 was accepted. */
  lemma FifoIffNoneAtZero(n: nat, ops: seq<Op>)
    requires n > 0
    ensures Shaped(Empty(n))
    ensures var t := RingPlay(Empty(n), ops); t.accepted == t.sent + PendingFrom(t.ring, 0) <==> NoneAtZero(t.accepted)
  {
    hide RingPlay, Holds, PendingFrom;
    EmptyHolds(n);
    HoldsShape(Empty(n), []);
    var t := RingPlay(Empty(n), ops);
    if NoneAtZero(t.accepted) {
      RingIsQueue(Empty(n), [], ops);
      NothingLostOrReordered(n, History([], [], []), ops);
      HoldsPending(t.ring, Play(n, History([], [], []), ops).waiting, 0);
    } else {
      SentHasAddress(Empty(n), ops);
      PendingHasAddress(t.ring, 0);
    }
  }

  lemma HoldsShape(r: Ring, waiting: seq<Frame>)
    requires Holds(r, waiting)
    ensures Shaped(r)
  {
  }

  /** On a ring of two cells or more, a frame accepted behind one at address 0 is not sent by any number of ticks. */
  lemma {:induction false} StuckBehindZero(n: nat, size: nat, f: Frame, ticks: nat)
    requires n >= 2 && f.addr != 0
    ensures Shaped(Empty(n))
    ensures var t := RingPlay(Empty(n), [Offer(Frame(0, size)), Offer(f)] + seq(ticks, _ => ClockTick));
            && t.accepted == [Frame(0, size), f] && t.sent == []
            && t.ring.rm == 0 && t.ring.queue[0] == 0 && t.ring.queue[1] == f.addr
    decreases ticks
  {
    var offers := [Offer(Frame(0, size)), Offer(f)];
    var ops := offers + seq(ticks, _ => ClockTick);
    if ticks == 0 {
      assert ops == offers;
      assert ops[..1] == [Offer(Frame(0, size))];
      assert ops[..1][..0] == [];
      assert RingPlay(Empty(n), ops[..1][..0]) == Trace(Empty(n), [], []);
    } else {
      StuckBehindZero(n, size, f, ticks - 1);
      assert ops[..|ops| - 1] == offers + seq(ticks - 1, _ => ClockTick);
    }
  }

  // ------------------------------------------------------------------------ the code

  class Link {
    const queue: array<nat>
    const sizeQueue: array<nat>
    var addPlace: nat
    var rmPlace: nat

    ghost predicate Valid()
      reads this, queue, sizeQueue
    {
      queue != sizeQueue && Shaped(Abs())
    }

    ghost function Abs(): Ring
      reads this, queue, sizeQueue
    {
      Ring(queue[..], sizeQueue[..], addPlace, rmPlace)
    }

    /** tte_init_VL, for at least one slot per cluster period. */
    constructor (maxQueue: nat)
      requires maxQueue > 0
      ensures Valid() && fresh(queue) && fresh(sizeQueue) && Abs() == Empty(maxQueue)
    {
      queue := new nat[maxQueue](_ => 0);
      sizeQueue := new nat[maxQueue](_ => 0);
      addPlace, rmPlace := 0, 0;
    }

    /** tte_schedule_send, frames at address 0 included. */
    method ScheduleSend(addr: nat, size: nat) returns (ok: bool)
      requires Valid()
      modifies this, queue, sizeQueue
      ensures Valid() && (Abs(), ok) == Offered(old(Abs()), Frame(addr, size))
    {
      if queue[addPlace] == 0 {
        queue[addPlace] := addr;
        sizeQueue[addPlace] := size;
        addPlace := addPlace + 1;
        if addPlace == queue.Length { addPlace := 0; }
        return true;
      }
      return false;
    }

    /** tte_send_data. */
    method SendData() returns (sent: seq<Frame>)
      requires Valid() && queue[rmPlace] != 0
      modifies this, queue, sizeQueue
      ensures Valid() && (Abs(), sent) == Ticked(old(Abs()))
    {
      var addr := queue[rmPlace];
      queue[rmPlace] := 0;
      sent := [Frame(addr, sizeQueue[rmPlace])];
      rmPlace := rmPlace + 1;
      if rmPlace == queue.Length { rmPlace := 0; }
    }

    /** What a clock tick does for this link. */
    method Tick() returns (sent: seq<Frame>)
      requires Valid()
      modifies this, queue, sizeQueue
      ensures Valid() && (Abs(), sent) == Ticked(old(Abs()))
    {
      sent := [];
      if queue[rmPlace] > 0 {
        sent := SendData();
      }
    }

    /** Any interleaving of calls that schedule frames and clock ticks. */
    method Drive(ops: seq<Op>) returns (accepted: seq<Frame>, sent: seq<Frame>)
      requires Valid()
      modifies this, queue, sizeQueue
      ensures Valid() && Trace(Abs(), accepted, sent) == RingPlay(old(Abs()), ops)
    {
      hide Offered, Ticked, Shaped;
      accepted, sent := [], [];
      for n := 0 to |ops|
        invariant Valid() && Trace(Abs(), accepted, sent) == RingPlay(old(Abs()), ops[..n])
      {
        assert ops[..n + 1][..n] == ops[..n];
        match ops[n]
        case Offer(f) =>
          var ok := ScheduleSend(f.addr, f.size);
          if ok { accepted := accepted + [f]; }
        case ClockTick =>
          var s := Tick();
          sent := sent + s;
      }
      assert ops[..|ops|] == ops;
    }
  }

  /** Cell k places behind `rm` on a ring of n cells. */
  function Place(rm: nat, k: nat, n: nat): (p: nat)
    requires rm < n && k <= n
    ensures p < n
  {
    if rm + k < n then rm + k else rm + k - n
  }

  lemma PlacesApart(rm: nat, j: nat, n: nat)
    requires rm < n && j < n
    ensures forall k :: 0 <= k < n && k != j ==> Place(rm, k, n) != Place(rm, j, n)
  {
  }

  lemma PlacesShift(rm: nat, n: nat)
    requires rm < n
    ensures forall k :: 0 <= k < n ==> Place(Place(rm, 1, n), k, n) == Place(rm, k + 1, n)
  {
  }
}
