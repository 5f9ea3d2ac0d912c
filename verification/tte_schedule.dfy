/** c/ethlib/tte.c: the dispatch table as a merge of periodic links. */
module TteSchedule {
  /** A virtual link: first instant, period, and queue length. */
  datatype Link = Link(start: nat, period: nat, maxQueue: nat)

  /** tte_init_VL: the cast binds to the cluster period before the division. */
  function QueueLength(cluster: nat, period: nat): (r: nat)
    requires period > 0
  {
    cluster % 0x100 / period
  }

  /** k-th instant of a link. */
  function Instant(l: Link, k: nat): nat {
    l.start + k * l.period
  }

  /** How many instants of a link lie before the end of the cluster period. */
  function Before(links: seq<Link>, cluster: nat, i: nat): (r: int)
    requires i < |links| && links[i].period > 0
  {
    if i == |links| - 1 then cluster / links[i].period - 1 else cluster / links[i].period
  }

  /** What tte_initialize and tte_init_VL leave: every period divides the cluster period; real
      links start strictly inside their period; the last link is the dummy for protocol
      frames, whose instants are the multiples of its period. */
  predicate Configured(links: seq<Link>, cluster: nat) {
    && 0 < |links| && 0 < cluster < 0x100
    && (forall i :: 0 <= i < |links| ==>
          && links[i].period > 0 && cluster % links[i].period == 0
          && links[i].maxQueue == QueueLength(cluster, links[i].period))
    && (forall i :: 0 <= i < |links| - 1 ==> 0 < links[i].start < links[i].period)
    && links[|links| - 1].start == links[|links| - 1].period
    && exists i :: 0 <= i < |links| && links[i].start < cluster
  }

  function Slots(links: seq<Link>): (r: nat)
    decreases |links|
  {
    if links == [] then 0 else Slots(links[..|links| - 1]) + links[|links| - 1].maxQueue
  }

  function Sum(s: seq<nat>): (r: nat)
    decreases |s|
  {
    if s == [] then 0 else Sum(s[..|s| - 1]) + s[|s| - 1]
  }

  /** When the timer fires for entry m: the start tick plus the gaps before it. */
  function Time(start: nat, gaps: seq<nat>, m: nat): (r: nat)
    requires m <= |gaps|
  {
    start + Sum(gaps[..m])
  }

  function Count(vl: seq<nat>, i: nat): (r: nat)
    decreases |vl|
  {
    if vl == [] then 0 else Count(vl[..|vl| - 1], i) + if vl[|vl| - 1] == i then 1 else 0
  }

  /** Order of dispatch: by time, then by link number. */
  predicate Earlier(t: nat, i: nat, u: nat, j: nat) {
    t < u || (t == u && i < j)
  }

  /** Entry m is the next instant of its link. */
  predicate EntryRight(links: seq<Link>, start: nat, gaps: seq<nat>, vl: seq<nat>, m: nat)
    requires m < |vl| && m <= |gaps|
  {
    vl[m] < |links| && Time(start, gaps, m) == Instant(links[vl[m]], Count(vl[..m], vl[m]))
  }

  predicate EntriesRight(links: seq<Link>, start: nat, gaps: seq<nat>, vl: seq<nat>)
    requires |vl| <= |gaps| + 1
  {
    forall m :: 0 <= m < |vl| ==> EntryRight(links, start, gaps, vl, m)
  }

  predicate Ordered(start: nat, gaps: seq<nat>, vl: seq<nat>)
    requires |vl| <= |gaps| + 1
  {
    forall m :: 0 <= m < |vl| - 1 ==> Earlier(Time(start, gaps, m), vl[m], Time(start, gaps, m + 1), vl[m + 1])
  }

  /** The table: every entry is the next instant of its link, strictly in dispatch order; every
      instant before the end of the cluster period occurs, exactly once; the last entry, and
      only it, lies at the end, for the dummy link. */
  ghost predicate IsSchedule(links: seq<Link>, cluster: nat, start: nat, gaps: seq<nat>, vl: seq<nat>) {
    && 0 < |vl| == |gaps| + 1
    && EntriesRight(links, start, gaps, vl) && Ordered(start, gaps, vl)
    && vl[|vl| - 1] == |links| - 1 && Time(start, gaps, |gaps|) == cluster
    && AllBefore(start, gaps, |vl| - 1, cluster)
    && (forall i, k: nat :: 0 <= i < |links| ==>
          (Instant(links[i], k) < cluster <==> k < Count(vl[..|vl| - 1], i)))
  }

  /** The table read out: entries fire after the start tick, each its gap after the one before, at the next multiple of
      its link's period from the link's start; of two at the same tick the lower link goes first. */
  lemma ScheduleReads(links: seq<Link>, cluster: nat, start: nat, gaps: seq<nat>, vl: seq<nat>, m: nat)
    requires IsSchedule(links, cluster, start, gaps, vl) && m < |vl|
    ensures Time(start, gaps, 0) == start && (m < |gaps| ==> Time(start, gaps, m + 1) == Time(start, gaps, m) + gaps[m])
    ensures vl[m] < |links|
    ensures Time(start, gaps, m) == links[vl[m]].start + Count(vl[..m], vl[m]) * links[vl[m]].period
    ensures m < |gaps| ==> gaps[m] > 0 || vl[m] < vl[m + 1]
  {
    hide IsSchedule;
    EntryOf(links, cluster, start, gaps, vl, m);
    TimeStarts(start, gaps, m);
  }

  lemma EntryOf(links: seq<Link>, cluster: nat, start: nat, gaps: seq<nat>, vl: seq<nat>, m: nat)
    requires IsSchedule(links, cluster, start, gaps, vl) && m < |vl|
    ensures |vl| == |gaps| + 1 && EntryRight(links, start, gaps, vl, m)
    ensures m < |gaps| ==> Earlier(Time(start, gaps, m), vl[m], Time(start, gaps, m + 1), vl[m + 1])
  {
    hide Time, EntryRight;
  }

  lemma TimeStarts(start: nat, gaps: seq<nat>, m: nat)
    requires m <= |gaps|
    ensures Time(start, gaps, 0) == start && (m < |gaps| ==> Time(start, gaps, m + 1) == Time(start, gaps, m) + gaps[m])
  {
    if m < |gaps| { assert gaps[..m + 1][..m] == gaps[..m]; }
  }

  // --------------------------------------------------------------- counting

  lemma CountOne(vl: seq<nat>, v: nat, i: nat)
    ensures Count(vl + [v], i) == Count(vl, i) + if v == i then 1 else 0
  {
    assert (vl + [v])[..|vl + [v]| - 1] == vl;
  }

  lemma SumOne(s: seq<nat>, v: nat)
    ensures Sum(s + [v]) == Sum(s) + v
  {
    assert (s + [v])[..|s + [v]| - 1] == s;
  }

  /** Everything counted is counted for some link. */
  function TotalCount(vl: seq<nat>, n: nat): (r: nat)
    decreases n
  {
    if n == 0 then 0 else TotalCount(vl, n - 1) + Count(vl, n - 1)
  }

  lemma {:induction false} TotalCountOne(vl: seq<nat>, v: nat, n: nat)
    ensures TotalCount(vl + [v], n) == TotalCount(vl, n) + if v < n then 1 else 0
    decreases n
  {
    if n > 0 {
      TotalCountOne(vl, v, n - 1);
      CountOne(vl, v, n - 1);
    }
  }

  lemma {:induction false} TotalCountNone(n: nat)
    ensures TotalCount([], n) == 0
    decreases n
  {
    if n > 0 { TotalCountNone(n - 1); }
  }

  // ------------------------------------------------------- instants and slots

  lemma InstantBefore(links: seq<Link>, cluster: nat, i: nat, k: nat)
    requires Configured(links, cluster) && i < |links|
    ensures Instant(links[i], k) < cluster <==> k < Before(links, cluster, i)
    ensures Before(links, cluster, i) >= 0
  {
    if i == |links| - 1 {
      MultipleBefore(links[i].period, cluster, k);
    } else {
      OffsetBefore(links[i].start, links[i].period, cluster, k);
    }
  }

  lemma OffsetBefore(start: nat, period: nat, cluster: nat, k: nat)
    requires 0 < start < period && cluster % period == 0
    ensures start + k * period < cluster <==> k < cluster / period
  {
    var q := cluster / period;
    assert cluster == q * period;
    Multiples(k, q, period);
  }

  lemma MultipleBefore(period: nat, cluster: nat, k: nat)
    requires 0 < period && 0 < cluster && cluster % period == 0
    ensures period + k * period < cluster <==> k < cluster / period - 1
    ensures cluster / period >= 1
  {
    var q := cluster / period;
    assert cluster == q * period;
    Positive(q, period);
    Multiples(k + 1, q, period);
    Distribute(k, 1, period);
  }

  lemma Positive(q: nat, p: nat)
    requires q * p > 0
    ensures q > 0
  {
  }

  lemma Distribute(a: nat, b: nat, p: nat)
    ensures (a + b) * p == a * p + b * p
  {
  }

  lemma Multiples(a: nat, b: nat, p: nat)
    requires p > 0
    ensures a * p < b * p <==> a < b
    ensures a < b ==> a * p + p <= b * p
  {
    if a < b { assert (a + 1) * p <= b * p; }
    if b <= a { assert b * p <= a * p; }
  }

  function TotalBefore(links: seq<Link>, cluster: nat, n: nat): (r: int)
    requires n <= |links| && forall i :: 0 <= i < |links| ==> links[i].period > 0
    decreases n
  {
    if n == 0 then 0 else TotalBefore(links, cluster, n - 1) + Before(links, cluster, n - 1)
  }

  lemma {:induction false} SlotsPrefix(links: seq<Link>, cluster: nat, n: nat)
    requires Configured(links, cluster) && n <= |links|
    ensures Slots(links[..n]) == TotalBefore(links, cluster, n) + if n == |links| then 1 else 0
    decreases n
  {
    if n > 0 {
      SlotsPrefix(links, cluster, n - 1);
      assert links[..n][..n - 1] == links[..n - 1];
    }
  }

  /** The table has one slot per instant before the end, and one for the end. */
  lemma SlotsCounted(links: seq<Link>, cluster: nat)
    requires Configured(links, cluster)
    ensures Slots(links) == TotalBefore(links, cluster, |links|) + 1
  {
    SlotsPrefix(links, cluster, |links|);
    assert links[..|links|] == links;
  }

  lemma {:induction false} TotalsCompare(links: seq<Link>, cluster: nat, vl: seq<nat>, n: nat)
    requires n <= |links| && forall i :: 0 <= i < |links| ==> links[i].period > 0
    requires forall i :: 0 <= i < n ==> Count(vl, i) <= Before(links, cluster, i)
    ensures TotalCount(vl, n) <= TotalBefore(links, cluster, n)
    ensures (exists i :: 0 <= i < n && Count(vl, i) < Before(links, cluster, i)) ==> TotalCount(vl, n) < TotalBefore(links, cluster, n)
    ensures (forall i :: 0 <= i < n ==> Count(vl, i) == Before(links, cluster, i)) ==> TotalCount(vl, n) == TotalBefore(links, cluster, n)
    decreases n
  {
    hide Count, Before;
    if n > 0 { TotalsCompare(links, cluster, vl, n - 1); }
  }

  // ---------------------------------------------------------------- the merge

  /** The first n entries lie before the end of the cluster period. */
  predicate AllBefore(start: nat, gaps: seq<nat>, n: nat, cluster: nat)
    requires n <= |gaps| + 1
  {
    forall m :: 0 <= m < n ==> Time(start, gaps, m) < cluster
  }

  /** Where the merge stands after emitting `vl` with `gaps` between: `cur` holds every link's
      next instant, all of them later in dispatch order than the last entry. */
  predicate Merging(links: seq<Link>, cluster: nat, cur: seq<nat>, start: nat, gaps: seq<nat>, vl: seq<nat>, current: nat) {
    && |cur| == |links| && |vl| == |gaps| + 1
    && EntriesRight(links, start, gaps, vl) && Ordered(start, gaps, vl)
    && current == Time(start, gaps, |gaps|)
    && AllBefore(start, gaps, |vl|, cluster)
    && (forall i :: 0 <= i < |links| ==> cur[i] == Instant(links[i], Count(vl, i)))
    && (forall i :: 0 <= i < |links| ==> Earlier(current, vl[|gaps|], cur[i], i))
    && |vl| == TotalCount(vl, |links|)
    && (forall i :: 0 <= i < |links| ==> links[i].period > 0 && Count(vl, i) <= Before(links, cluster, i))
  }

  /** v is the first link with the earliest next instant. */
  predicate FirstMin(cur: seq<nat>, v: nat) {
    v < |cur| && forall i :: 0 <= i < |cur| && i != v ==> Earlier(cur[v], v, cur[i], i)
  }

  lemma TimePrefix(start: nat, gaps: seq<nat>, g: nat, m: nat)
    requires m <= |gaps|
    ensures Time(start, gaps + [g], m) == Time(start, gaps, m)
    ensures Time(start, gaps + [g], |gaps| + 1) == Time(start, gaps, |gaps|) + g
  {
    assert (gaps + [g])[..m] == gaps[..m];
    assert (gaps + [g])[..|gaps| + 1] == gaps + [g] && gaps[..|gaps|] == gaps;
    SumOne(gaps, g);
  }

  lemma EntriesGrow(links: seq<Link>, cluster: nat, cur: seq<nat>, start: nat, gaps: seq<nat>, vl: seq<nat>, current: nat, v: nat)
    requires Merging(links, cluster, cur, start, gaps, vl, current) && FirstMin(cur, v)
    ensures cur[v] >= current
    ensures EntriesRight(links, start, gaps + [cur[v] - current], vl + [v])
  {
    hide Count, Sum;
    assert Earlier(current, vl[|gaps|], cur[v], v);
    var g, w := gaps + [cur[v] - current], vl + [v];
    forall m | 0 <= m < |w| ensures EntryRight(links, start, g, w, m) {
      if m < |vl| {
        TimePrefix(start, gaps, cur[v] - current, m);
        assert w[..m] == vl[..m] && EntryRight(links, start, gaps, vl, m);
      } else {
        TimePrefix(start, gaps, cur[v] - current, 0);
        assert w[..m] == vl;
      }
    }
  }

  lemma OrderGrows(links: seq<Link>, cluster: nat, cur: seq<nat>, start: nat, gaps: seq<nat>, vl: seq<nat>, current: nat, v: nat)
    requires Merging(links, cluster, cur, start, gaps, vl, current) && FirstMin(cur, v)
    ensures cur[v] >= current
    ensures Ordered(start, gaps + [cur[v] - current], vl + [v])
    ensures AllBefore(start, gaps + [cur[v] - current], |vl|, cluster)
    ensures Time(start, gaps + [cur[v] - current], |gaps| + 1) == cur[v]
  {
    hide Count, Sum;
    assert Earlier(current, vl[|gaps|], cur[v], v);
    var g, w := gaps + [cur[v] - current], vl + [v];
    forall m | 0 <= m < |vl| ensures Time(start, g, m) < cluster {
      TimePrefix(start, gaps, cur[v] - current, m);
    }
    TimePrefix(start, gaps, cur[v] - current, 0);
    forall m | 0 <= m < |w| - 1 ensures Earlier(Time(start, g, m), w[m], Time(start, g, m + 1), w[m + 1]) {
      TimePrefix(start, gaps, cur[v] - current, m);
      if m < |vl| - 1 {
        TimePrefix(start, gaps, cur[v] - current, m + 1);
        assert Earlier(Time(start, gaps, m), vl[m], Time(start, gaps, m + 1), vl[m + 1]);
      }
    }
  }

  lemma CurrentGrows(links: seq<Link>, cluster: nat, cur: seq<nat>, start: nat, gaps: seq<nat>, vl: seq<nat>, current: nat, v: nat, i: nat)
    requires Merging(links, cluster, cur, start, gaps, vl, current) && FirstMin(cur, v) && i < |links|
    ensures var c := cur[v := cur[v] + links[v].period];
            c[i] == Instant(links[i], Count(vl + [v], i)) && Earlier(cur[v], v, c[i], i)
  {
    hide Count, Sum, EntriesRight, Ordered;
    CountOne(vl, v, i);
    Distribute(Count(vl, v), 1, links[v].period);
  }

  /** Emitting one more entry before the end keeps the merge going. */
  lemma MergeStep(links: seq<Link>, cluster: nat, cur: seq<nat>, start: nat, gaps: seq<nat>, vl: seq<nat>, current: nat, v: nat)
    requires Configured(links, cluster) && Merging(links, cluster, cur, start, gaps, vl, current)
    requires FirstMin(cur, v) && cur[v] < cluster
    ensures cur[v] >= current
    ensures Merging(links, cluster, cur[v := cur[v] + links[v].period], start, gaps + [cur[v] - current], vl + [v], cur[v])
  {
    hide Count, Sum, EntriesRight, Ordered, Configured, Time, Before, TotalCount;
    EntriesGrow(links, cluster, cur, start, gaps, vl, current, v);
    OrderGrows(links, cluster, cur, start, gaps, vl, current, v);
    forall i | 0 <= i < |links|
      ensures Count(vl + [v], i) <= Before(links, cluster, i)
    {
      CountOne(vl, v, i);
      InstantBefore(links, cluster, v, Count(vl, v));
    }
    forall i | 0 <= i < |links| ensures
      var c := cur[v := cur[v] + links[v].period];
      c[i] == Instant(links[i], Count(vl + [v], i)) && Earlier(cur[v], v, c[i], i)
    {
      CurrentGrows(links, cluster, cur, start, gaps, vl, current, v, i);
    }
    TotalCountOne(vl, v, |links|);
  }

  /** There is room for the next entry, and before the end for one more. */
  lemma MergeFits(links: seq<Link>, cluster: nat, cur: seq<nat>, start: nat, gaps: seq<nat>, vl: seq<nat>, current: nat, v: nat)
    requires Configured(links, cluster) && Merging(links, cluster, cur, start, gaps, vl, current) && FirstMin(cur, v)
    ensures |vl| < Slots(links)
    ensures cur[v] < cluster ==> |vl| + 1 < Slots(links)
  {
    hide Count, Sum, EntriesRight, Ordered, Time, Before, TotalCount;
    SlotsCounted(links, cluster);
    TotalsCompare(links, cluster, vl, |links|);
    if cur[v] < cluster {
      InstantBefore(links, cluster, v, Count(vl, v));
    }
  }

  lemma DummyReachesEnd(links: seq<Link>, cluster: nat, k: nat)
    requires Configured(links, cluster) && k <= Before(links, cluster, |links| - 1)
    ensures Instant(links[|links| - 1], k) <= cluster
    ensures k == Before(links, cluster, |links| - 1) ==> Instant(links[|links| - 1], k) == cluster
  {
    MultipleReaches(links[|links| - 1].period, cluster, k);
  }

  lemma MultipleReaches(p: nat, cluster: nat, k: nat)
    requires p > 0 && cluster % p == 0 && k <= cluster / p - 1
    ensures p + k * p <= cluster && (k == cluster / p - 1 ==> p + k * p == cluster)
  {
    var q := cluster / p;
    assert cluster == q * p;
    Distribute(k, 1, p);
    Multiples(k + 1, q, p);
    Multiples(q, k + 1, p);
  }

  lemma OthersMissEnd(links: seq<Link>, cluster: nat, i: nat)
    requires Configured(links, cluster) && i < |links| - 1
    ensures Before(links, cluster, i) >= 0 && Instant(links[i], Before(links, cluster, i)) > cluster
  {
    OffsetPasses(links[i].start, links[i].period, cluster);
  }

  lemma OffsetPasses(start: nat, p: nat, cluster: nat)
    requires 0 < start && p > 0 && cluster % p == 0
    ensures start + cluster / p * p > cluster
  {
    assert cluster == cluster / p * p;
  }

  /** When no instant before the end is left, the counts are complete. */
  lemma CountsComplete(links: seq<Link>, cluster: nat, cur: seq<nat>, start: nat, gaps: seq<nat>, vl: seq<nat>, current: nat, v: nat, i: nat)
    requires Configured(links, cluster) && Merging(links, cluster, cur, start, gaps, vl, current)
    requires FirstMin(cur, v) && cur[v] >= cluster && i < |links|
    ensures Count(vl, i) == Before(links, cluster, i)
  {
    hide Count, Sum, EntriesRight, Ordered, Time, Before, TotalCount, Configured;
    InstantBefore(links, cluster, i, Count(vl, i));
  }

  /** Then the next entry is the dummy link at the end, and the table is full. */
  lemma MergeEnds(links: seq<Link>, cluster: nat, cur: seq<nat>, start: nat, gaps: seq<nat>, vl: seq<nat>, current: nat, v: nat)
    requires Configured(links, cluster) && Merging(links, cluster, cur, start, gaps, vl, current)
    requires FirstMin(cur, v) && cur[v] >= cluster
    ensures v == |links| - 1 && cur[v] == cluster >= current && |vl| + 1 == Slots(links)
    ensures IsSchedule(links, cluster, start, gaps + [cur[v] - current], vl + [v])
  {
    hide Count, Sum, EntriesRight, Ordered, Time, Before, TotalCount, AllBefore;
    var n := |links|;
    forall i | 0 <= i < n ensures Count(vl, i) == Before(links, cluster, i) {
      CountsComplete(links, cluster, cur, start, gaps, vl, current, v, i);
    }
    DummyReachesEnd(links, cluster, Count(vl, n - 1));
    if v < n - 1 { OthersMissEnd(links, cluster, v); }
    SlotsCounted(links, cluster);
    TotalsCompare(links, cluster, vl, n);
    EntriesGrow(links, cluster, cur, start, gaps, vl, current, v);
    OrderGrows(links, cluster, cur, start, gaps, vl, current, v);
    var w := vl + [v];
    assert w[..|w| - 1] == vl;
    forall i, k: nat | 0 <= i < n ensures Instant(links[i], k) < cluster <==> k < Count(w[..|w| - 1], i) {
      InstantBefore(links, cluster, i, k);
    }
  }

  lemma FirstCounts(links: seq<Link>, cluster: nat, starts: seq<nat>, v: nat, i: nat)
    requires Configured(links, cluster) && |starts| == |links| && FirstMin(starts, v) && starts[v] < cluster
    requires forall i :: 0 <= i < |links| ==> starts[i] == links[i].start
    requires i < |links|
    ensures var cur := starts[v := starts[v] + links[v].period];
            && cur[i] == Instant(links[i], Count([v], i)) && Earlier(starts[v], v, cur[i], i)
            && links[i].period > 0 && Count([v], i) <= Before(links, cluster, i)
  {
    hide Count, Before;
    CountOne([], v, i);
    CountNone(i);
    assert [] + [v] == [v];
    InstantBefore(links, cluster, i, 0);
  }

  /** The first entry: the first link with the earliest start. */
  lemma MergeStarts(links: seq<Link>, cluster: nat, starts: seq<nat>, v: nat)
    requires Configured(links, cluster) && |starts| == |links| && FirstMin(starts, v) && starts[v] < cluster
    requires forall i :: 0 <= i < |links| ==> starts[i] == links[i].start
    ensures Merging(links, cluster, starts[v := starts[v] + links[v].period], starts[v], [], [v], starts[v])
  {
    hide Count, Sum, TotalCount, Before, Configured, Instant;
    CountNone(v);
    TotalCountNone(|links|);
    TotalCountOne([], v, |links|);
    assert [] + [v] == [v] && [v][..0] == [];
    FirstTime(links, starts[v], v);
    forall i | 0 <= i < |links| ensures
      var cur := starts[v := starts[v] + links[v].period];
      && cur[i] == Instant(links[i], Count([v], i)) && Earlier(starts[v], v, cur[i], i)
      && links[i].period > 0 && Count([v], i) <= Before(links, cluster, i)
    {
      FirstCounts(links, cluster, starts, v, i);
    }
  }

  lemma FirstTime(links: seq<Link>, start: nat, v: nat)
    requires v < |links| && start == links[v].start
    ensures EntriesRight(links, start, [], [v]) && Time(start, [], 0) == start && [v][..0] == []
  {
    assert [v][..0] == [];
  }

  lemma CountNone(i: nat)
    ensures Count([], i) == 0 && Sum([]) == 0
  {
  }

  // --------------------------------------------------------------- the method

  /** The scan for the next instant. */
  method FindNext(cur: array<nat>, bound: nat, old_: nat) returns (min: nat, v: nat)
    ensures (exists i :: 0 <= i < cur.Length && cur[i] < bound) ==> FirstMin(cur[..], v) && min == cur[v]
  {
    min, v := bound, old_;
    for i := 0 to cur.Length
      invariant min <= bound
      invariant min < bound ==> v < i && min == cur[v] && forall k :: 0 <= k < i && k != v ==> Earlier(cur[v], v, cur[k], k)
      invariant min == bound ==> forall k :: 0 <= k < i ==> cur[k] >= bound
    {
      if cur[i] < min {
        min := cur[i];
        v := i;
      }
    }
  }

  lemma StartsInside(links: seq<Link>, cluster: nat) returns (i: nat)
    requires Configured(links, cluster)
    ensures i < |links| && links[i].start < cluster
  {
    i :| 0 <= i < |links| && links[i].start < cluster;
  }

  /** The scan over the configured links: copies the starts, counts the slots and finds the
      first link to fire. */
  method ScanLinks(links: seq<Link>, cluster: nat, cur: array<nat>) returns (min: nat, v: nat, maxSched: nat)
    requires Configured(links, cluster) && cur.Length == |links| && Slots(links) < 0x100
    modifies cur
    ensures forall i :: 0 <= i < |links| ==> cur[i] == links[i].start
    ensures FirstMin(cur[..], v) && min == cur[v] < cluster && maxSched == Slots(links)
  {
    hide Configured;
    min, v, maxSched := cluster, 0, 0;
    for i := 0 to |links|
      invariant min <= cluster
      invariant forall k :: 0 <= k < i ==> cur[k] == links[k].start
      invariant min < cluster ==> v < i && min == cur[v] && forall k :: 0 <= k < i && k != v ==> Earlier(cur[v], v, cur[k], k)
      invariant min == cluster ==> forall k :: 0 <= k < i ==> cur[k] >= cluster
      invariant maxSched == Slots(links[..i])
    {
      if links[i].start < min {
        min := links[i].start;
        v := i;
      }
      cur[i] := links[i].start;
      assert links[..i + 1][..i] == links[..i];
      maxSched := maxSched + links[i].maxQueue;
    }
    assert links[..|links|] == links;
    ghost var i := StartsInside(links, cluster);
    assert cur[i] < cluster;
  }

  /** tte_generate_schedule: the loop ends, stays inside both tables, and the tables are the
      schedule. The last gap is never written. */
  method GenerateSchedule(links: seq<Link>, cluster: nat)
    returns (startTick: nat, sched: array<nat>, vlSched: array<nat>, maxSched: nat)
    requires Configured(links, cluster) && Slots(links) < 0x100
    ensures fresh(sched) && fresh(vlSched) && maxSched == sched.Length == vlSched.Length == Slots(links) > 0
    ensures IsSchedule(links, cluster, startTick, sched[..maxSched - 1], vlSched[..])
  {
    hide Configured, Merging, IsSchedule, Slots;
    var n := LinkCount(links, cluster);
    var cur := new nat[n](_ => 0);
    var current: nat, v: nat;
    current, v, maxSched := ScanLinks(links, cluster, cur);
    startTick := current;
    MergeStarts(links, cluster, cur[..], v);
    ghost var starts := cur[..];
    cur[v] := cur[v] + links[v].period;
    assert cur[..] == starts[v := starts[v] + links[v].period];
    MergeRoom(links, cluster, cur[..], startTick, [], [v], current);
    sched := new nat[maxSched];
    vlSched := new nat[maxSched];
    vlSched[0] := v;
    var index := 0;
    assert sched[..index] == [] && vlSched[..index + 1] == [v];
    while true
      invariant 0 <= index < maxSched - 1
      invariant Merging(links, cluster, cur[..], startTick, sched[..index], vlSched[..index + 1], current)
      decreases maxSched - index
    {
      ghost var c0, g0, w0 := cur[..], sched[..index], vlSched[..index + 1];
      var min: nat;
      NextExists(links, cluster, c0, startTick, g0, w0, current);
      min, v := FindNext(cur, cluster * 2, v);
      MergeFits(links, cluster, c0, startTick, g0, w0, current, v);
      NotBefore(links, cluster, c0, startTick, g0, w0, current, v);
      sched[index] := min - current;
      if index < maxSched - 1 { vlSched[index + 1] := v; }
      assert sched[..index + 1] == g0 + [min - current];
      assert vlSched[..index + 2] == w0 + [v];
      ghost var before := current;
      current := min;
      cur[v] := cur[v] + links[v].period;
      assert cur[..] == c0[v := c0[v] + links[v].period];
      if min >= cluster {
        MergeEnds(links, cluster, c0, startTick, g0, w0, before, v);
        assert vlSched[..] == w0 + [v];
        break;
      }
      MergeStep(links, cluster, c0, startTick, g0, w0, before, v);
      index := index + 1;
    }
  }

  method LinkCount(links: seq<Link>, cluster: nat) returns (n: nat)
    requires Configured(links, cluster)
    ensures n == |links| > 0
    ensures forall i :: 0 <= i < n ==> links[i].period > 0
  {
    n := |links|;
  }

  lemma NextExists(links: seq<Link>, cluster: nat, cur: seq<nat>, start: nat, gaps: seq<nat>, vl: seq<nat>, current: nat)
    requires Configured(links, cluster) && Merging(links, cluster, cur, start, gaps, vl, current)
    ensures |cur| == |links| > 0 && cur[|links| - 1] < 2 * cluster
  {
    hide Count, Sum, EntriesRight, Ordered, Time, TotalCount;
    DummyReachesEnd(links, cluster, Count(vl, |links| - 1));
  }

  lemma NotBefore(links: seq<Link>, cluster: nat, cur: seq<nat>, start: nat, gaps: seq<nat>, vl: seq<nat>, current: nat, v: nat)
    requires Merging(links, cluster, cur, start, gaps, vl, current) && FirstMin(cur, v)
    ensures cur[v] >= current
  {
    hide Count, Sum, EntriesRight, Ordered, Time, TotalCount;
    assert Earlier(current, vl[|gaps|], cur[v], v);
  }

  lemma MergeRoom(links: seq<Link>, cluster: nat, cur: seq<nat>, start: nat, gaps: seq<nat>, vl: seq<nat>, current: nat)
    requires Configured(links, cluster) && Merging(links, cluster, cur, start, gaps, vl, current)
    ensures |vl| < Slots(links)
  {
    hide Count, Sum, EntriesRight, Ordered, Time, TotalCount;
    SlotsCounted(links, cluster);
    TotalsCompare(links, cluster, vl, |links|);
  }
}
