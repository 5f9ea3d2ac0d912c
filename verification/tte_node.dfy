/** c/ethlib/tte.c: clock ticks walk the dispatch table and serve the link it names. */
module TteNode {
  import opened TteSchedule
  import Q = TteQueue

  datatype Op = Offer(i: nat, f: Q.Frame) | ClockTick

  /** Frame f of link i sent by the tick of table entry m. */
  datatype Sent = Sent(m: nat, i: nat, f: Q.Frame)

  /** schedplace and the waiting frames of every link, with what has been sent. */
  datatype State = State(place: nat, waiting: seq<seq<Q.Frame>>, log: seq<Sent>)

  /** tte_clock_tick and tte_schedule_send on the queues; after the last entry nothing is armed. */
  function Step(links: seq<Link>, vl: seq<nat>, s: State, op: Op): (t: State)
    requires |s.waiting| == |links| && (forall m :: 0 <= m < |vl| ==> vl[m] < |links|)
    ensures |t.waiting| == |links|
  {
    match op
    case Offer(i, f) =>
      if i < |links| && |s.waiting[i]| < links[i].maxQueue then s.(waiting := s.waiting[i := s.waiting[i] + [f]]) else s
    case ClockTick =>
      if s.place >= |vl| then s
      else
        var i := vl[s.place];
        if s.waiting[i] == [] then s.(place := s.place + 1)
        else State(s.place + 1, s.waiting[i := s.waiting[i][1..]], s.log + [Sent(s.place, i, s.waiting[i][0])])
  }

  function Run(links: seq<Link>, vl: seq<nat>, s: State, ops: seq<Op>): (t: State)
    requires |s.waiting| == |links| && (forall m :: 0 <= m < |vl| ==> vl[m] < |links|)
    ensures |t.waiting| == |links|
    decreases |ops|
  {
    if ops == [] then s else Step(links, vl, Run(links, vl, s, ops[..|ops| - 1]), ops[|ops| - 1])
  }

  function Ticks(ops: seq<Op>): nat {
    if ops == [] then 0 else Ticks(ops[..|ops| - 1]) + if ops[|ops| - 1].ClockTick? then 1 else 0
  }

  /** Every tick moves on by one entry, up to the end of the table, whatever else happens. */
  lemma {:induction false} TicksMoveOn(links: seq<Link>, vl: seq<nat>, s: State, ops: seq<Op>)
    requires |s.waiting| == |links| && (forall m :: 0 <= m < |vl| ==> vl[m] < |links|) && s.place <= |vl|
    ensures Run(links, vl, s, ops).place == if s.place + Ticks(ops) < |vl| then s.place + Ticks(ops) else |vl|
    decreases |ops|
  {
    if ops != [] { TicksMoveOn(links, vl, s, ops[..|ops| - 1]); }
  }

  /** How often the table names link i from entry p up to entry q. */
  function Turns(vl: seq<nat>, i: nat, p: nat, q: nat): int {
    if p <= q <= |vl| then Count(vl[..q], i) - Count(vl[..p], i) else 0
  }

  lemma TurnsNext(vl: seq<nat>, i: nat, p: nat, q: nat)
    requires p <= q < |vl|
    ensures Turns(vl, i, p, q + 1) == Turns(vl, i, p, q) + if vl[q] == i then 1 else 0
  {
    assert vl[..q + 1][..q] == vl[..q];
  }

  /** Where frame f, with k others before it when the table was at p, has got to. */
  predicate Tracked(vl: seq<nat>, p: nat, i: nat, k: nat, f: Q.Frame, s: State)
    requires i < |s.waiting|
  {
    var c := Turns(vl, i, p, s.place);
    && p <= s.place && 0 <= c
    && if c <= k then k - c < |s.waiting[i]| && s.waiting[i][k - c] == f
       else exists m: nat :: p <= m < s.place && m < |vl| && vl[m] == i && Turns(vl, i, p, m) == k && Sent(m, i, f) in s.log
  }

  lemma {:induction false} TrackedHolds(links: seq<Link>, vl: seq<nat>, s: State, ops: seq<Op>, i: nat, k: nat)
    requires |s.waiting| == |links| && (forall m :: 0 <= m < |vl| ==> vl[m] < |links|)
    requires s.place <= |vl| && i < |links| && k < |s.waiting[i]|
    ensures var t := Run(links, vl, s, ops); t.place <= |vl| && Tracked(vl, s.place, i, k, s.waiting[i][k], t)
    decreases |ops|
  {
    hide Turns;
    if ops == [] {
      NoTurns(vl, i, s.place);
    } else {
      var before, op := ops[..|ops| - 1], ops[|ops| - 1];
      TrackedHolds(links, vl, s, before, i, k);
      TrackedStep(links, vl, s.place, i, k, s.waiting[i][k], Run(links, vl, s, before), op);
    }
  }

  lemma NoTurns(vl: seq<nat>, i: nat, p: nat)
    ensures Turns(vl, i, p, p) == 0
  {
  }

  lemma TrackedStep(links: seq<Link>, vl: seq<nat>, p: nat, i: nat, k: nat, f: Q.Frame, s: State, op: Op)
    requires |s.waiting| == |links| && (forall m :: 0 <= m < |vl| ==> vl[m] < |links|)
    requires s.place <= |vl| && i < |links| && Tracked(vl, p, i, k, f, s)
    ensures var t := Step(links, vl, s, op); t.place <= |vl| && Tracked(vl, p, i, k, f, t)
  {
    hide Turns;
    var t := Step(links, vl, s, op);
    if op.ClockTick? && s.place < |vl| {
      TurnsNext(vl, i, p, s.place);
      var c := Turns(vl, i, p, s.place);
      if c > k {
        var m: nat :| p <= m < s.place && m < |vl| && vl[m] == i && Turns(vl, i, p, m) == k && Sent(m, i, f) in s.log;
        assert Sent(m, i, f) in t.log;
      } else if c == k && vl[s.place] == i {
        assert t.log[|s.log|] == Sent(s.place, i, f);
      }
    }
  }

  /** A frame with k others waiting before it is sent at its link's (k+1)-th instant from now on: as soon as the
      table has come that far, whatever is offered meanwhile, and not before. */
  lemma SentAtItsInstant(links: seq<Link>, cluster: nat, start: nat, gaps: seq<nat>, vl: seq<nat>, s: State, ops: seq<Op>, i: nat, k: nat)
    requires IsSchedule(links, cluster, start, gaps, vl) && |s.waiting| == |links| && s.place <= |vl|
    requires i < |links| && k < |s.waiting[i]|
    ensures forall m :: 0 <= m < |vl| ==> vl[m] < |links|
    ensures var t := Run(links, vl, s, ops); var c := Turns(vl, i, s.place, t.place); var f := s.waiting[i][k];
            if c <= k then k - c < |t.waiting[i]| && t.waiting[i][k - c] == f
            else exists m: nat :: s.place <= m < t.place && m < |vl| && Sent(m, i, f) in t.log
                                  && Time(start, gaps, m) == Instant(links[i], Count(vl[..s.place], i) + k)
  {
    hide Instant, Count, Time;
    forall m | 0 <= m < |vl| ensures vl[m] < |links| {
      assert EntryRight(links, start, gaps, vl, m);
    }
    TrackedHolds(links, vl, s, ops, i, k);
    var t, f := Run(links, vl, s, ops), s.waiting[i][k];
    if Turns(vl, i, s.place, t.place) > k {
      var m: nat :| s.place <= m < t.place && m < |vl| && vl[m] == i && Turns(vl, i, s.place, m) == k && Sent(m, i, f) in t.log;
      assert EntryRight(links, start, gaps, vl, m);
    }
  }

  /** VLarray, VLsched and schedplace. */
  class Node {
    const links: seq<Link>
    const vlSched: seq<nat>
    const rings: seq<Q.Link>
    var schedPlace: nat

    constructor (ls: seq<Link>, table: seq<nat>, rs: seq<Q.Link>)
      ensures links == ls && vlSched == table && rings == rs && schedPlace == 0
    {
      links, vlSched, rings, schedPlace := ls, table, rs, 0;
    }

    /** The links share no memory. */
    ghost predicate Apart() {
      forall i, j :: 0 <= i < j < |rings| ==>
        rings[i] != rings[j] && {rings[i].queue, rings[i].sizeQueue} !! {rings[j].queue, rings[j].sizeQueue}
    }

    ghost predicate RingHolds(i: nat, waiting: seq<Q.Frame>)
      requires i < |rings|
      reads rings[i], rings[i].queue, rings[i].sizeQueue
    {
      rings[i].Valid() && Q.Holds(rings[i].Abs(), waiting)
    }

    /** tte_schedule_send for a link: a frame is taken exactly if a cell of its ring is free, and then waits behind the
        others. */
    method ScheduleSend(i: nat, f: Q.Frame, ghost s: State) returns (ok: bool)
      requires Apart() && i < |links| == |rings| == |s.waiting| && (forall m :: 0 <= m < |vlSched| ==> vlSched[m] < |links|)
      requires rings[i].queue.Length == links[i].maxQueue && f.addr != 0
      requires forall j :: 0 <= j < |rings| ==> RingHolds(j, s.waiting[j])
      modifies rings[i], rings[i].queue, rings[i].sizeQueue
      ensures ok <==> |s.waiting[i]| < rings[i].queue.Length
      ensures var t := Step(links, vlSched, s, Op.Offer(i, f));
              && t == s.(waiting := s.waiting[i := if ok then s.waiting[i] + [f] else s.waiting[i]])
              && forall j :: 0 <= j < |rings| ==> RingHolds(j, t.waiting[j])
    {
      hide Q.Holds, Q.Offered;
      assert RingHolds(i, s.waiting[i]);
      Q.OfferHolds(rings[i].Abs(), s.waiting[i], f);
      Q.HoldsShape(rings[i].Abs(), s.waiting[i]);
      ok := rings[i].ScheduleSend(f.addr, f.size);
      ghost var t := Step(links, vlSched, s, Op.Offer(i, f));
      assert t.waiting == s.waiting[i := if ok then s.waiting[i] + [f] else s.waiting[i]];
      forall j | 0 <= j < |rings| ensures RingHolds(j, t.waiting[j]) {
        assert old(RingHolds(j, s.waiting[j]));
      }
    }

    /** tte_clock_tick without the timer: the next link of the table sends its oldest frame if it has one, and the
        node's state moves on by one step. */
    method ClockTick(ghost s: State) returns (i: nat, sent: seq<Q.Frame>)
      requires Apart() && |links| == |rings| == |s.waiting| && (forall m :: 0 <= m < |vlSched| ==> vlSched[m] < |links|)
      requires s.place == schedPlace < |vlSched| && forall j :: 0 <= j < |rings| ==> RingHolds(j, s.waiting[j])
      modifies this, rings[vlSched[schedPlace]], rings[vlSched[schedPlace]].queue, rings[vlSched[schedPlace]].sizeQueue
      ensures var t := Step(links, vlSched, s, Op.ClockTick);
              && t.place == schedPlace && (forall j :: 0 <= j < |rings| ==> RingHolds(j, t.waiting[j]))
              && i == vlSched[s.place] && |sent| <= 1 && t.log == s.log + (if sent == [] then [] else [Sent(s.place, i, sent[0])])
    {
      hide Q.Holds, Q.Ticked;
      i := vlSched[schedPlace];
      assert RingHolds(i, s.waiting[i]);
      Q.TickHolds(rings[i].Abs(), s.waiting[i]);
      schedPlace := schedPlace + 1;
      sent := rings[i].Tick();
      ghost var t := Step(links, vlSched, s, Op.ClockTick);
      forall j | 0 <= j < |rings| ensures RingHolds(j, t.waiting[j]) {
        assert old(RingHolds(j, s.waiting[j]));
      }
    }
  }
}
