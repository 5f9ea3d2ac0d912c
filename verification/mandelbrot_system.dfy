/** c/cmp/mandelbrot_par.c: the master and all its slaves, interleaved step by step. */
module MandelbrotSystem {
  import opened MandelbrotChannel

  datatype MasterPc =
    | ClearStop(i: nat) | SendStart(i: nat) | StartDma(i: nat, w: nat) | AwaitStarted(i: nat) | ClearNull(i: nat)
    | FirstFill(i: nat) | FirstDma(i: nat, w: nat)
    | LoopTop | Poll(i: nat) | Print(i: nat) | ReadData(i: nat, k: nat) | Emit(i: nat) | ClearAnswer(i: nat) | Decide(i: nat)
    | NextDma(i: nat, w: nat)
    | SendStop(i: nat) | StopDma(i: nat, w: nat) | Finished

  datatype Output = Output(position: int, data: seq<int>)

  /** `received`, `position` and `buf` are the master's variables; `out` is what it has written. */
  datatype Sys = Sys(
    rows: nat, chans: seq<Chan>, pc: MasterPc, received: nat, position: int, buf: seq<int>, out: seq<Output>)

  datatype Action = Master | Slave(j: nat)

  predicate Shape(s: Sys) {
    && 0 < |s.chans| && 0 < s.rows && |s.buf| == COLS
    && forall j :: 0 <= j < |s.chans| ==> |s.chans[j].fromSlave.data| == |s.chans[j].row.data| == COLS
  }

  /** Rows per slave. */
  function Share(s: Sys): (n: nat)
    requires |s.chans| > 0
  {
    s.rows / |s.chans|
  }

  /** The rows of slave j, from Lo up to Hi: its share or, where there are more slaves than rows and shares are
      empty, row 0 for as many slaves as there are rows and nothing for the others. */
  function Lo(s: Sys, j: nat): int
    requires |s.chans| > 0
  {
    j * Share(s)
  }

  function Hi(s: Sys, j: nat): int
    requires |s.chans| > 0
  {
    if Share(s) == 0 then (if j < s.rows then 1 else 0) else (j + 1) * Share(s)
  }

  function Put(s: Sys, i: nat, c: Chan, pc: MasterPc): Sys
    requires i < |s.chans|
  {
    s.(chans := s.chans[i := c], pc := pc)
  }

  /** Programs never run past their loops; such a state stays put. */
  function MasterStep(s: Sys): Sys
    requires Shape(s)
  {
    var n := |s.chans|;
    match s.pc
    case ClearStop(i) => if i < n then Put(s, i, ClearResponse(s.chans[i]), ClearStop(i + 1)) else s.(pc := SendStart(0))
    case SendStart(i) => if i < n then Put(s, i, ArmStart(s.chans[i]), StartDma(i, 0)) else s.(pc := AwaitStarted(0))
    case StartDma(i, w) =>
      if i >= n then s
      else Put(s, i, PacketWord(s.chans[i], w), if w < 5 then StartDma(i, w + 1) else SendStart(i + 1))
    case AwaitStarted(i) =>
      if i >= n then s.(pc := ClearNull(0))
      else if s.chans[i].fromSlave.cmd != CMD_START then s
      else Put(s, i, SeeAck(s.chans[i]), AwaitStarted(i + 1))
    case ClearNull(i) => if i < n then Put(s, i, ClearToNull(s.chans[i]), ClearNull(i + 1)) else s.(pc := FirstFill(0))
    case FirstFill(i) =>
      if i < n && i < s.rows then Put(s, i, Fill(s.chans[i], s.rows, i * Share(s)), FirstDma(i, 0))
      else s.(received := 0, pc := LoopTop)
    case FirstDma(i, w) =>
      if i >= n then s
      else if w < 5 then Put(s, i, PacketWord(s.chans[i], w), FirstDma(i, w + 1))
      else Put(s, i, s.chans[i].(next := s.chans[i].next + 1), FirstFill(i + 1))
    case LoopTop => s.(pc := if s.received < s.rows then Poll(0) else SendStop(0))
    case Poll(i) =>
      if i >= n then s.(pc := LoopTop)
      else if s.chans[i].fromSlave.cmd != CMD_NULL then s.(received := s.received + 1, pc := Print(i))
      else s.(pc := Poll(i + 1))
    case Print(i) => if i >= n then s else s.(position := s.chans[i].fromSlave.cmd, pc := ReadData(i, 0))
    case ReadData(i, k) =>
      if i >= n then s
      else if k < COLS then s.(buf := s.buf[k := s.chans[i].fromSlave.data[k]], pc := ReadData(i, k + 1))
      else s.(pc := Emit(i))
    case Emit(i) =>
      if i >= n then s
      else Put(s, i, EmitRow(s.chans[i]), ClearAnswer(i)).(out := s.out + [Output(s.position, s.buf)])
    case ClearAnswer(i) => if i >= n then s else Put(s, i, ClearToNull(s.chans[i]), Decide(i))
    case Decide(i) =>
      if i >= n then s
      else if s.chans[i].next < (i + 1) * Share(s) then Put(s, i, Fill(s.chans[i], s.rows, s.chans[i].next), NextDma(i, 0))
      else s.(pc := Poll(i + 1))
    case NextDma(i, w) =>
      if i >= n then s
      else if w < 5 then Put(s, i, PacketWord(s.chans[i], w), NextDma(i, w + 1))
      else Put(s, i, s.chans[i].(next := s.chans[i].next + 1), Poll(i + 1))
    case SendStop(i) => if i < n then Put(s, i, ArmStop(s.chans[i]), StopDma(i, 0)) else s.(pc := Finished)
    case StopDma(i, w) =>
      if i >= n then s
      else Put(s, i, PacketWord(s.chans[i], w), if w < 5 then StopDma(i, w + 1) else SendStop(i + 1))
    case Finished => s
  }

  function Step(s: Sys, a: Action): Sys
    requires Shape(s)
  {
    match a
    case Master => MasterStep(s)
    case Slave(j) => if j < |s.chans| then s.(chans := s.chans[j := SlaveStep(s.chans[j])]) else s
  }

  lemma StepShape(s: Sys, a: Action)
    requires Shape(s)
    ensures Shape(Step(s, a)) && Step(s, a).rows == s.rows && |Step(s, a).chans| == |s.chans|
  {
    hide CopyWord, Image, Request, Pixel;
  }

  function Run(s: Sys, acts: seq<Action>): (t: Sys)
    requires Shape(s)
    ensures Shape(t) && t.rows == s.rows && |t.chans| == |s.chans|
    decreases |acts|
  {
    if acts == [] then s
    else
      var t := Run(s, acts[..|acts| - 1]);
      StepShape(t, acts[|acts| - 1]);
      Step(t, acts[|acts| - 1])
  }

  /** Memory may hold anything except an early start command. */
  predicate PowerUp(s: Sys) {
    && Shape(s) && s.pc == ClearStop(0) && s.out == []
    && forall j :: 0 <= j < |s.chans| ==>
         && s.chans[j].phase == Fresh && s.chans[j].pc == AwaitStart && s.chans[j].done == 0
         && s.chans[j].packet.cmd != CMD_START
  }

  // ---------------------------------------------- where each exchange can be

  /** A request is out, or answered, and everything before it has been written. `uncounted`:
      the command word has been copied, but the master has not yet increased row[i]. */
  predicate Busy(c: Chan, lo: int, hi: int, uncounted: bool) {
    && (c.phase.Outstanding? || c.phase.Answered?)
    && lo <= c.phase.r < hi && c.done == c.phase.r - lo
    && c.next == (if uncounted then c.phase.r else c.phase.r + 1)
  }

  predicate Resting(c: Chan, lo: int) {
    c.phase == Ready && c.done == c.next - lo
  }

  predicate InFlight(c: Chan, w: nat, lo: int, hi: int) {
    c.phase.Sending? && c.phase.w == w && c.phase.r == c.next && lo <= c.next < hi && c.done == c.next - lo
  }

  /** Nothing more to ask for; row[i] of a slave without rows is never set. */
  predicate Exhausted(c: Chan, lo: int, hi: int) {
    c.phase == Ready && c.done == hi - lo && (lo < hi ==> c.next == hi)
  }

  predicate Receiving(pc: MasterPc) {
    pc.LoopTop? || pc.Poll? || pc.Print? || pc.ReadData? || pc.Emit? || pc.ClearAnswer? || pc.Decide? || pc.NextDma?
  }

  predicate Serving(pc: MasterPc, j: nat) {
    (pc.Print? || pc.ReadData? || pc.Emit?) && pc.i == j
  }

  predicate LoopInv(pc: MasterPc, j: nat, c: Chan, lo: int, hi: int)
    requires Receiving(pc)
  {
    if Serving(pc, j) then Busy(c, lo, hi, false) && c.phase.Answered?
    else if pc == ClearAnswer(j) then
      c.phase.Emitted? && lo <= c.phase.r < hi && c.done == c.phase.r - lo + 1 && c.next == c.phase.r + 1
    else if pc == Decide(j) then Resting(c, lo) && lo < c.next <= hi
    else if pc.NextDma? && pc.i == j then (if pc.w <= 4 then InFlight(c, pc.w, lo, hi) else Busy(c, lo, hi, true))
    else Busy(c, lo, hi, false) || Exhausted(c, lo, hi)
  }

  predicate StartInv(pc: MasterPc, j: nat, c: Chan)
    requires pc.ClearStop? || pc.SendStart? || pc.StartDma? || pc.AwaitStarted? || pc.ClearNull?
  {
    && c.done == 0
    && match pc
       case ClearStop(i) => c.phase == if j < i then Cleared else Fresh
       case SendStart(i) => c.phase == if j < i then Started else Cleared
       case StartDma(i, w) => c.phase == if j < i then Started else if j > i then Cleared else if w <= 4 then Starting(w) else Started
       case AwaitStarted(i) => c.phase == if j < i then Acked else Started
       case ClearNull(i) => c.phase == if j < i then Ready else Acked
  }

  predicate Where(pc: MasterPc, j: nat, c: Chan, lo: int, hi: int) {
    if pc.ClearStop? || pc.SendStart? || pc.StartDma? || pc.AwaitStarted? || pc.ClearNull? then StartInv(pc, j, c)
    else if Receiving(pc) then LoopInv(pc, j, c, lo, hi)
    else
      match pc
      case FirstFill(i) => if j < i then Busy(c, lo, hi, false) else c.phase == Ready && c.done == 0
      case FirstDma(i, w) =>
        if j < i then Busy(c, lo, hi, false) else if j > i then c.phase == Ready && c.done == 0
        else if w <= 4 then InFlight(c, w, lo, hi) else Busy(c, lo, hi, true)
      case SendStop(i) => if j < i then c.phase == Halted && c.done == hi - lo else Exhausted(c, lo, hi)
      case StopDma(i, w) =>
        if j > i then Exhausted(c, lo, hi)
        else c.done == hi - lo && c.phase == if j == i && w <= 4 then Halting(w) else Halted
      case Finished => c.phase == Halted && c.done == hi - lo
      case _ => false
  }

  predicate CoreInv(s: Sys, j: nat)
    requires Shape(s) && j < |s.chans|
  {
    ChanInv(s.rows, s.chans[j]) && Where(s.pc, j, s.chans[j], Lo(s, j), Hi(s, j))
  }

  /** The loop counters of the program counter stay within their loops. */
  predicate PcInv(s: Sys) {
    match s.pc
    case StartDma(i, w) => i < |s.chans| && w <= 5
    case FirstDma(i, w) => i < |s.chans| && i < s.rows && w <= 5
    case NextDma(i, w) => i < |s.chans| && w <= 5
    case StopDma(i, w) => i < |s.chans| && w <= 5
    case Print(i) => i < |s.chans|
    case ReadData(i, k) => i < |s.chans| && k <= COLS
    case Emit(i) => i < |s.chans|
    case ClearAnswer(i) => i < |s.chans|
    case Decide(i) => i < |s.chans|
    case FirstFill(i) => i <= |s.chans| && i <= s.rows
    case _ => true
  }

  /** Past the receive loop the shares have covered all rows, unless they are empty. */
  predicate AllShared(s: Sys) {
    0 < |s.chans| && (InStop(s.pc) ==> |s.chans| * Share(s) == s.rows || Share(s) == 0)
  }

  // ------------------------------------------------------ steps keep CoreInv

  lemma SlaveStepProgress(rows: nat, c: Chan)
    requires rows > 0 && ChanInv(rows, c)
    ensures var d := SlaveStep(c);
            && d.next == c.next && d.done == c.done
            && (d.phase == c.phase || (c.phase.Outstanding? && d.phase == Answered(c.phase.r)))
  {
    hide Image, CopyWord, Request, Pixel, PhaseInv;
  }

  lemma SlaveStepKeepsCore(s: Sys, j: nat, k: nat)
    requires Shape(s) && j < |s.chans| && k < |s.chans| && CoreInv(s, j) && CoreInv(s, k)
    ensures Shape(Step(s, Slave(j))) && CoreInv(Step(s, Slave(j)), k)
  {
    hide ChanInv, SlaveStep, Where, Lo, Hi;
    StepShape(s, Slave(j));
    SameShare(s, Step(s, Slave(j)));
    var c := s.chans[j];
    SlaveStepKeepsInv(s.rows, c);
    SlaveStepProgress(s.rows, c);
    if k == j { WhereStays(s.pc, j, c, SlaveStep(c), Lo(s, j), Hi(s, j)); }
  }

  /** A slave that goes on working, or answers, stays where the exchange can be. */
  lemma WhereStays(pc: MasterPc, j: nat, c: Chan, d: Chan, lo: int, hi: int)
    requires Where(pc, j, c, lo, hi) && d.next == c.next && d.done == c.done
    requires d.phase == c.phase || (c.phase.Outstanding? && d.phase == Answered(c.phase.r))
    ensures Where(pc, j, d, lo, hi)
  {
  }

  predicate InStart(pc: MasterPc) {
    pc.ClearStop? || pc.SendStart? || pc.StartDma? || pc.AwaitStarted? || pc.ClearNull?
  }

  predicate InStop(pc: MasterPc) {
    pc.SendStop? || pc.StopDma? || pc.Finished?
  }

  lemma StartStep(s: Sys, j: nat)
    requires Shape(s) && PcInv(s) && j < |s.chans| && CoreInv(s, j) && InStart(s.pc)
    ensures Shape(MasterStep(s)) && PcInv(MasterStep(s)) && CoreInv(MasterStep(s), j)
  {
    hide ChanInv;
    StepShape(s, Master);
    var c := s.chans[j];
    MasterSetUp(s.rows, c);
    if s.pc.StartDma? && s.pc.i == j && s.pc.w <= 4 { PacketWordKeepsInv(s.rows, c, s.pc.w); }
  }

  lemma Shares(rows: nat, n: nat, j: nat)
    requires j < n
    ensures var p := rows / n;
            && n * p <= rows < n * p + n && (p >= 1 ==> 0 <= j * p < (j + 1) * p <= rows && n <= rows)
            && (p == 0 ==> j * p == 0 && rows < n)
  {
    var p := rows / n;
    assert n * p <= rows < n * p + n;
    if p >= 1 { SharesOrder(n, j, p); }
  }

  lemma SharesOrder(n: nat, j: nat, p: nat)
    requires j < n && p >= 1
    ensures 0 <= j * p < (j + 1) * p <= n * p && n <= n * p
  {
  }

  lemma ShareBounds(s: Sys, j: nat)
    requires Shape(s) && j < |s.chans|
    ensures 0 <= Lo(s, j) <= Hi(s, j) <= s.rows && (j < s.rows ==> Lo(s, j) < Hi(s, j))
    ensures |s.chans| * Share(s) <= s.rows < |s.chans| * Share(s) + |s.chans|
    ensures Share(s) == 0 <==> |s.chans| > s.rows
    ensures if Share(s) == 0 then Lo(s, j) == 0 && Hi(s, j) == (if j < s.rows then 1 else 0)
            else Lo(s, j) == j * Share(s) && Hi(s, j) == (j + 1) * Share(s)
  {
    Shares(s.rows, |s.chans|, j);
  }

  lemma FirstStep(s: Sys, j: nat)
    requires Shape(s) && PcInv(s) && j < |s.chans| && CoreInv(s, j) && (s.pc.FirstFill? || s.pc.FirstDma?)
    ensures Shape(MasterStep(s)) && PcInv(MasterStep(s)) && CoreInv(MasterStep(s), j)
  {
    hide ChanInv, Share, Lo, Hi, Request;
    StepShape(s, Master);
    var c := s.chans[j];
    ShareBounds(s, j);
    if s.pc == FirstFill(j) { FillKeepsInv(s.rows, c, j * Share(s)); }
    if s.pc.FirstDma? && s.pc.i == j && s.pc.w <= 4 { PacketWordKeepsInv(s.rows, c, s.pc.w); }
    NextIsFree(s.rows, c);
    SameShare(s, MasterStep(s));
  }

  lemma NextIsFree(rows: nat, c: Chan)
    requires rows > 0 && ChanInv(rows, c)
    ensures forall v :: ChanInv(rows, c.(next := v))
  {
    hide Image, Request, SameUpTo;
  }

  lemma SameShare(s: Sys, t: Sys)
    requires |s.chans| == |t.chans| > 0 && s.rows == t.rows
    ensures Share(s) == Share(t) && forall j: nat :: Lo(s, j) == Lo(t, j) && Hi(s, j) == Hi(t, j)
  {
  }

  lemma StopStep(s: Sys, j: nat)
    requires Shape(s) && PcInv(s) && j < |s.chans| && CoreInv(s, j) && InStop(s.pc)
    ensures Shape(MasterStep(s)) && PcInv(MasterStep(s)) && CoreInv(MasterStep(s), j)
  {
    hide ChanInv, Share, Lo, Hi, Request;
    StepShape(s, Master);
    var c := s.chans[j];
    ShareBounds(s, j);
    MasterSetUp(s.rows, c);
    if s.pc.StopDma? && s.pc.i == j && s.pc.w <= 4 { PacketWordKeepsInv(s.rows, c, s.pc.w); }
    SameShare(s, MasterStep(s));
  }

  /** A row that is answered or being answered is the only thing Poll can find. */
  lemma PollFinds(rows: nat, c: Chan, lo: int, hi: int)
    requires rows > 0 && ChanInv(rows, c) && c.fromSlave.cmd != CMD_NULL
    requires Busy(c, lo, hi, false) || Exhausted(c, lo, hi)
    ensures c.phase.Answered?
  {
  }

  lemma PollStep(s: Sys, j: nat)
    requires Shape(s) && PcInv(s) && j < |s.chans| && CoreInv(s, j)
    requires (s.pc.LoopTop? && s.received < s.rows) || s.pc.Poll? || s.pc.Print? || s.pc.ReadData? || s.pc.Emit?
    ensures Shape(MasterStep(s)) && PcInv(MasterStep(s)) && CoreInv(MasterStep(s), j)
  {
    hide ChanInv, Share, Lo, Hi, Request, Fill, PacketWord;
    StepShape(s, Master);
    var c := s.chans[j];
    MasterSetUp(s.rows, c);
    SameShare(s, MasterStep(s));
    if s.pc == Poll(j) && c.fromSlave.cmd != CMD_NULL { PollFinds(s.rows, c, Lo(s, j), Hi(s, j)); }
  }

  lemma DecideStep(s: Sys, j: nat)
    requires Shape(s) && PcInv(s) && j < |s.chans| && CoreInv(s, j) && (s.pc.ClearAnswer? || s.pc.Decide?)
    ensures Shape(MasterStep(s)) && PcInv(MasterStep(s)) && CoreInv(MasterStep(s), j)
  {
    hide ChanInv, Share, Lo, Hi, Request, PacketWord;
    StepShape(s, Master);
    var c := s.chans[j];
    ShareBounds(s, j);
    MasterSetUp(s.rows, c);
    SameShare(s, MasterStep(s));
    if s.pc == Decide(j) && c.next < (j + 1) * Share(s) {
      FillKeepsInv(s.rows, c, c.next);
      assert MasterStep(s).chans[j] == Fill(c, s.rows, c.next);
    }
  }

  lemma NextDmaStep(s: Sys, j: nat)
    requires Shape(s) && PcInv(s) && j < |s.chans| && CoreInv(s, j) && s.pc.NextDma?
    ensures Shape(MasterStep(s)) && PcInv(MasterStep(s)) && CoreInv(MasterStep(s), j)
  {
    hide ChanInv, Share, Lo, Hi, Request, Fill;
    StepShape(s, Master);
    var c := s.chans[j];
    SameShare(s, MasterStep(s));
    NextIsFree(s.rows, c);
    if s.pc.i == j && s.pc.w <= 4 { PacketWordKeepsInv(s.rows, c, s.pc.w); }
  }

  // ---------------------------------------------------------------- the ledger

  function DoneSum(cs: seq<Chan>): (n: nat)
    decreases |cs|
  {
    if cs == [] then 0 else DoneSum(cs[..|cs| - 1]) + cs[|cs| - 1].done
  }

  lemma {:induction false} DoneSumUpdate(cs: seq<Chan>, i: nat, c: Chan)
    requires i < |cs|
    ensures DoneSum(cs[i := c]) == DoneSum(cs) - cs[i].done + c.done
    decreases |cs|
  {
    var n := |cs| - 1;
    if i == n {
      assert cs[i := c][..n] == cs[..n];
    } else {
      assert cs[i := c][..n] == cs[..n][i := c];
      DoneSumUpdate(cs[..n], i, c);
    }
  }

  lemma {:induction false} DoneSumZero(cs: seq<Chan>)
    requires forall j :: 0 <= j < |cs| ==> cs[j].done == 0
    ensures DoneSum(cs) == 0
    decreases |cs|
  {
    if cs != [] { DoneSumZero(cs[..|cs| - 1]); }
  }

  /** How many rows slave j is asked for, and the first k slaves together. */
  function Width(rows: nat, n: nat, j: nat): nat
    requires n > 0
  {
    if rows / n == 0 then (if j < rows then 1 else 0) else rows / n
  }

  function Widths(rows: nat, n: nat, k: nat): nat
    requires n > 0
  {
    if k == 0 then 0 else Widths(rows, n, k - 1) + Width(rows, n, k - 1)
  }

  lemma {:induction false} WidthsAre(rows: nat, n: nat, k: nat)
    requires n > 0
    ensures Widths(rows, n, k) == if rows / n == 0 then (if k < rows then k else rows) else k * (rows / n)
  {
    if k > 0 { WidthsAre(rows, n, k - 1); }
  }

  /** Together the slaves are asked for all rows exactly if they divide them or outnumber them. */
  lemma AllWidths(rows: nat, n: nat)
    requires n > 0
    ensures Widths(rows, n, n) <= rows
    ensures Widths(rows, n, n) == rows <==> n * (rows / n) == rows || rows / n == 0
  {
    WidthsAre(rows, n, n);
    assert n * (rows / n) <= rows < n * (rows / n) + n;
  }

  /** Rows done, at most what each slave is asked for, that add up to all of it, are all of it. */
  lemma {:induction false} DoneSumFull(cs: seq<Chan>, rows: nat, n: nat)
    requires n > 0 && forall j :: 0 <= j < |cs| ==> cs[j].done <= Width(rows, n, j)
    ensures DoneSum(cs) <= Widths(rows, n, |cs|)
    ensures DoneSum(cs) == Widths(rows, n, |cs|) <==> forall j :: 0 <= j < |cs| ==> cs[j].done == Width(rows, n, j)
    decreases |cs|
  {
    hide Width;
    if cs != [] {
      var before := cs[..|cs| - 1];
      DoneSumFull(before, rows, n);
      assert forall j :: 0 <= j < |before| ==> before[j] == cs[j];
    }
  }

  function Count(out: seq<Output>, r: int): (n: nat)
    decreases |out|
  {
    if out == [] then 0 else Count(out[..|out| - 1], r) + if out[|out| - 1].position == r then 1 else 0
  }

  lemma CountOne(out: seq<Output>, e: Output, r: int)
    ensures Count(out + [e], r) == Count(out, r) + if e.position == r then 1 else 0
  {
    assert (out + [e])[..|out + [e]| - 1] == out;
  }

  /** The rows of slave j that have been written, and no others, each once. */
  predicate Written(out: seq<Output>, lo: int, hi: int, done: nat) {
    forall r :: lo <= r < hi ==> Count(out, r) == if r < lo + done then 1 else 0
  }

  predicate Truthful(rows: nat, out: seq<Output>)
    requires rows > 0
  {
    forall k :: 0 <= k < |out| ==> out[k].data == Image(rows, out[k].position)
  }

  predicate Reading(pc: MasterPc) {
    pc.Print? || pc.ReadData? || pc.Emit?
  }

  predicate Ledger(s: Sys)
    requires Shape(s)
  {
    && |s.out| == DoneSum(s.chans) && Truthful(s.rows, s.out)
    && (if Receiving(s.pc) || InStop(s.pc) then s.received == |s.out| + (if Reading(s.pc) then 1 else 0) else s.out == [])
    && RowsWritten(s)
  }

  /** Shares do not overlap, so each row is written once; with empty shares all requests are for row 0. */
  predicate RowsWritten(s: Sys)
    requires Shape(s)
  {
    if Share(s) == 0 then AllFirst(s.out)
    else forall j :: 0 <= j < |s.chans| ==> Written(s.out, Lo(s, j), Hi(s, j), s.chans[j].done)
  }

  predicate AllFirst(out: seq<Output>) {
    forall k :: 0 <= k < |out| ==> out[k].position == 0
  }

  predicate Buffered(s: Sys)
    requires Shape(s) && PcInv(s)
  {
    match s.pc
    case ReadData(i, k) =>
      var c := s.chans[i];
      c.phase.Answered? ==> s.position == c.phase.r && s.buf[..k] == Image(s.rows, c.phase.r)[..k]
    case Emit(i) =>
      var c := s.chans[i];
      c.phase.Answered? ==> s.position == c.phase.r && s.buf == Image(s.rows, c.phase.r)
    case _ => true
  }

  predicate Inv(s: Sys) {
    && Shape(s) && PcInv(s) && AllShared(s) && Ledger(s) && Buffered(s)
    && forall j :: 0 <= j < |s.chans| ==> CoreInv(s, j)
  }

  // ------------------------------------------------------------ initial state

  lemma PowerUpInv(s: Sys)
    requires PowerUp(s)
    ensures Inv(s)
  {
    hide Image, Request;
    DoneSumZero(s.chans);
    forall j | 0 <= j < |s.chans| ensures CoreInv(s, j) && Written(s.out, Lo(s, j), Hi(s, j), s.chans[j].done) {
    }
  }

  // -------------------------------------------------------------- slave steps

  lemma SlaveMoveKeepsInv(s: Sys, j: nat)
    requires Inv(s) && j < |s.chans|
    ensures Inv(Step(s, Slave(j)))
  {
    hide CoreInv, SlaveStep, Image, Written, Truthful;
    var t := Step(s, Slave(j));
    StepShape(s, Slave(j));
    SameShare(s, t);
    assert CoreInv(s, j);
    forall k | 0 <= k < |s.chans| ensures CoreInv(t, k) {
      assert CoreInv(s, k);
      SlaveStepKeepsCore(s, j, k);
    }
    CoreChan(s, j);
    SlaveStepProgress(s.rows, s.chans[j]);
    DoneSumUpdate(s.chans, j, SlaveStep(s.chans[j]));
    SlaveStepKeepsBuffer(s, j);
  }

  lemma CoreChan(s: Sys, j: nat)
    requires Shape(s) && j < |s.chans| && CoreInv(s, j)
    ensures ChanInv(s.rows, s.chans[j])
  {
  }

  lemma SlaveStepKeepsBuffer(s: Sys, j: nat)
    requires Inv(s) && j < |s.chans|
    ensures var t := Step(s, Slave(j)); Shape(t) && PcInv(t) && Buffered(t)
  {
    hide Image, SlaveStep, Ledger, ChanInv;
    StepShape(s, Slave(j));
    assert CoreInv(s, j);
    SlaveStepProgress(s.rows, s.chans[j]);
  }

  // ------------------------------------------------------------- master steps

  /** What a slave is asked for is what lies between its bounds. */
  lemma WidthIs(s: Sys, j: nat)
    requires Shape(s) && j < |s.chans|
    ensures Hi(s, j) - Lo(s, j) == Width(s.rows, |s.chans|, j)
  {
    ShareWidth(j, Share(s));
  }

  lemma ShareWidth(j: nat, p: nat)
    ensures (j + 1) * p == j * p + p
  {
  }

  /** In the receive loop no slave has more rows done than it is asked for, and only an exhausted one has all. */
  lemma DoneSoFar(s: Sys, j: nat)
    requires Inv(s) && s.pc == LoopTop && j < |s.chans|
    ensures s.chans[j].done <= Width(s.rows, |s.chans|, j)
    ensures s.chans[j].done == Width(s.rows, |s.chans|, j) <==> Exhausted(s.chans[j], Lo(s, j), Hi(s, j))
  {
    hide ChanInv, Share, Lo, Hi, Written, Width, Ledger, Buffered;
    WidthIs(s, j);
    assert CoreInv(s, j);
  }

  /** The receive loop can only be left when every slave has done all it was asked for, and that is all rows. */
  lemma LoopExit(s: Sys, j: nat)
    requires Inv(s) && s.pc == LoopTop && s.received >= s.rows && j < |s.chans|
    ensures Exhausted(s.chans[j], Lo(s, j), Hi(s, j)) && (|s.chans| * Share(s) == s.rows || Share(s) == 0)
  {
    hide CoreInv, Lo, Hi, Written, Width, Widths, Buffered, Exhausted;
    forall k | 0 <= k < |s.chans| ensures s.chans[k].done <= Width(s.rows, |s.chans|, k) { DoneSoFar(s, k); }
    DoneSumFull(s.chans, s.rows, |s.chans|);
    AllWidths(s.rows, |s.chans|);
    DoneSoFar(s, j);
  }

  lemma MasterStepKeepsCore(s: Sys, j: nat)
    requires Inv(s) && j < |s.chans|
    ensures Shape(MasterStep(s)) && PcInv(MasterStep(s)) && CoreInv(MasterStep(s), j)
  {
    hide MasterStep, ChanInv, Where, Ledger, Buffered;
    assert CoreInv(s, j);
    if InStart(s.pc) { StartStep(s, j); }
    else if s.pc.FirstFill? || s.pc.FirstDma? { FirstStep(s, j); }
    else if InStop(s.pc) { StopStep(s, j); }
    else if s.pc.ClearAnswer? || s.pc.Decide? { DecideStep(s, j); }
    else if s.pc.NextDma? { NextDmaStep(s, j); }
    else if s.pc == LoopTop && s.received >= s.rows { ExitStep(s, j); }
    else { PollStep(s, j); }
  }

  lemma ExitStep(s: Sys, j: nat)
    requires Inv(s) && s.pc == LoopTop && s.received >= s.rows && j < |s.chans|
    ensures Shape(MasterStep(s)) && PcInv(MasterStep(s)) && CoreInv(MasterStep(s), j)
  {
    hide ChanInv, Share, Lo, Hi, Ledger;
    StepShape(s, Master);
    LoopExit(s, j);
    assert CoreInv(s, j);
    SameShare(s, MasterStep(s));
  }

  lemma EmitWrites(s: Sys)
    requires Inv(s) && s.pc.Emit?
    ensures var t := MasterStep(s); Shape(t) && Ledger(t)
  {
    hide ChanInv, Image, Count, Share, Lo, Hi, RowsWritten;
    var t, i := MasterStep(s), s.pc.i;
    StepShape(s, Master);
    SameShare(s, t);
    assert CoreInv(s, i);
    var c := s.chans[i];
    DoneSumUpdate(s.chans, i, EmitRow(c));
    EmitRows(s);
  }

  lemma EmitRows(s: Sys)
    requires Inv(s) && s.pc.Emit?
    ensures var t := MasterStep(s); Shape(t) && RowsWritten(t)
  {
    hide ChanInv, Image, Count, Share, Lo, Hi;
    var t, i := MasterStep(s), s.pc.i;
    StepShape(s, Master);
    SameShare(s, t);
    assert CoreInv(s, i);
    ShareBounds(s, i);
    if Share(s) > 0 {
      forall j | 0 <= j < |s.chans| ensures Written(t.out, Lo(s, j), Hi(s, j), t.chans[j].done) {
        ShareBounds(s, j);
        SharesApart(i, j, Share(s));
        forall q | Lo(s, j) <= q < Hi(s, j)
          ensures Count(t.out, q) == if q < Lo(s, j) + t.chans[j].done then 1 else 0
        {
          CountOne(s.out, Output(s.position, s.buf), q);
        }
      }
    }
  }

  lemma SharesApart(i: nat, j: nat, p: nat)
    ensures i < j ==> (i + 1) * p <= j * p
    ensures j < i ==> (j + 1) * p <= i * p
  {
  }

  lemma MasterKeepsLedger(s: Sys)
    requires Inv(s)
    ensures var t := MasterStep(s); Shape(t) && Ledger(t)
  {
    hide CoreInv, Image, Written, Share, Lo, Hi;
    StepShape(s, Master);
    if s.pc.Emit? {
      EmitWrites(s);
    } else {
      var t := MasterStep(s);
      SameShare(s, t);
      SameDone(s);
    }
  }

  /** Only Emit changes what has been written. */
  lemma SameDone(s: Sys)
    requires Inv(s) && !s.pc.Emit?
    ensures var t := MasterStep(s);
            && t.out == s.out && DoneSum(t.chans) == DoneSum(s.chans) && |t.chans| == |s.chans|
            && (forall j :: 0 <= j < |s.chans| ==> t.chans[j].done == s.chans[j].done)
            && (if Receiving(t.pc) || InStop(t.pc) then t.received == |t.out| + (if Reading(t.pc) then 1 else 0) else t.out == [])
  {
    hide CoreInv, Image, Request, Written, Share, Lo, Hi, DoneSum, Truthful;
    var t := MasterStep(s);
    StepShape(s, Master);
    if t.chans != s.chans {
      var i := s.pc.i;
      DoneSumUpdate(s.chans, i, t.chans[i]);
      assert t.chans == s.chans[i := t.chans[i]];
    }
  }

  lemma MasterKeepsBuffer(s: Sys)
    requires Inv(s)
    ensures var t := MasterStep(s); Shape(t) && PcInv(t) && Buffered(t)
  {
    hide Image, Ledger, Share, Lo, Hi, ChanInv;
    StepShape(s, Master);
    assert |s.chans| > 0 && CoreInv(s, 0);
    MasterStepKeepsCore(s, 0);
    match s.pc
    case Print(i) => PrintBuffer(s);
    case ReadData(i, k) => ReadBuffer(s);
    case _ =>
  }

  lemma PrintBuffer(s: Sys)
    requires Inv(s) && s.pc.Print?
    ensures var t := MasterStep(s); Shape(t) && PcInv(t) && Buffered(t)
  {
    hide Image, Ledger, Share, Lo, Hi;
    StepShape(s, Master);
    assert CoreInv(s, s.pc.i);
  }

  lemma ReadBuffer(s: Sys)
    requires Inv(s) && s.pc.ReadData?
    ensures var t := MasterStep(s); Shape(t) && PcInv(t) && Buffered(t)
  {
    hide Image, Ledger, Share, Lo, Hi;
    StepShape(s, Master);
    var i, k := s.pc.i, s.pc.k;
    assert CoreInv(s, i);
    var im := Image(s.rows, s.chans[i].phase.r);
    if k < COLS {
      var b := s.buf[k := im[k]];
      assert b[..k + 1] == s.buf[..k] + [im[k]];
      assert im[..k + 1] == im[..k] + [im[k]];
    } else {
      assert s.buf[..k] == s.buf && im[..k] == im;
    }
  }

  lemma MasterKeepsShared(s: Sys)
    requires Inv(s)
    ensures AllShared(MasterStep(s))
  {
    hide CoreInv, Ledger, Image, Share, Lo, Hi;
    StepShape(s, Master);
    SameShare(s, MasterStep(s));
    if s.pc == LoopTop && s.received >= s.rows { LoopExit(s, 0); }
  }

  lemma MasterMoveKeepsInv(s: Sys)
    requires Inv(s)
    ensures Inv(MasterStep(s))
  {
    hide MasterStep, CoreInv, Ledger, Buffered, Image, AllShared;
    StepShape(s, Master);
    MasterKeepsShared(s);
    MasterKeepsLedger(s);
    MasterKeepsBuffer(s);
    forall j | 0 <= j < |s.chans| ensures CoreInv(MasterStep(s), j) {
      MasterStepKeepsCore(s, j);
    }
  }

  lemma StepKeepsInv(s: Sys, a: Action)
    requires Inv(s)
    ensures Inv(Step(s, a))
  {
    hide Inv;
    match a
    case Master => MasterMoveKeepsInv(s);
    case Slave(j) => if j < |s.chans| { SlaveMoveKeepsInv(s, j); }
  }

  lemma {:induction false} RunKeepsInv(s: Sys, acts: seq<Action>)
    requires PowerUp(s)
    ensures Inv(Run(s, acts))
    decreases |acts|
  {
    hide Inv, Step, PowerUp, Shape;
    PowerUpInv(s);
    PowerUpShape(s);
    if acts != [] {
      RunKeepsInv(s, acts[..|acts| - 1]);
      StepKeepsInv(Run(s, acts[..|acts| - 1]), acts[|acts| - 1]);
    }
  }

  lemma PowerUpShape(s: Sys)
    requires PowerUp(s)
    ensures Shape(s)
  {
  }

  // ------------------------------------------------------------- the promises

  lemma OwnerOf(r: nat, n: nat, p: nat) returns (q: nat, lo: int)
    requires p >= 1 && r < n * p
    ensures q < n && lo == q * p && lo <= r < lo + p
  {
    q := r / p;
    lo := q * p;
    assert lo <= r < lo + p;
    QuotientBelow(q, n, p);
  }

  lemma QuotientBelow(q: nat, n: nat, p: nat)
    requires q * p < n * p
    ensures q < n
  {
    SharesApart(n, q, p);
  }

  lemma ShareDone(t: Sys, j: nat)
    requires Inv(t) && InStop(t.pc) && j < |t.chans|
    ensures t.chans[j].done == Width(t.rows, |t.chans|, j)
  {
    hide ChanInv, Ledger, Share, Lo, Hi, Width;
    WidthIs(t, j);
    assert CoreInv(t, j);
  }

  lemma AllWritten(t: Sys)
    requires Inv(t) && InStop(t.pc)
    ensures |t.out| == t.rows && Truthful(t.rows, t.out)
  {
    hide CoreInv, Truthful, Written, Width, Widths, RowsWritten;
    forall k | 0 <= k < |t.chans| ensures t.chans[k].done == Width(t.rows, |t.chans|, k) { ShareDone(t, k); }
    DoneSumFull(t.chans, t.rows, |t.chans|);
    AllWidths(t.rows, |t.chans|);
  }

  lemma LedgerAt(t: Sys, j: nat, lo: int)
    requires Inv(t) && j < |t.chans| && Share(t) > 0 && lo == j * Share(t)
    ensures Written(t.out, lo, lo + Share(t), t.chans[j].done)
  {
    hide CoreInv, Share, Lo, Hi, Truthful, Buffered, Written;
    ShareWidth(j, Share(t));
    ShareBounds(t, j);
    assert Written(t.out, Lo(t, j), Hi(t, j), t.chans[j].done);
  }

  /** The slave whose share holds row r, and what the ledger says about that row. */
  lemma Owner(t: Sys, r: nat) returns (j: nat, lo: int)
    requires Inv(t) && Share(t) > 0 && r < |t.chans| * Share(t)
    ensures j < |t.chans| && lo <= r < lo + Share(t)
    ensures Count(t.out, r) == if r < lo + t.chans[j].done then 1 else 0
  {
    hide Inv, Count, Share, Lo, Hi;
    InvShape(t);
    j, lo := OwnerOf(r, |t.chans|, Share(t));
    LedgerAt(t, j, lo);
  }

  lemma InvShape(t: Sys)
    requires Inv(t)
    ensures Shape(t)
  {
  }

  lemma RowWritten(t: Sys, r: nat)
    requires Inv(t) && InStop(t.pc) && r < t.rows && Share(t) > 0
    ensures Count(t.out, r) == 1
  {
    hide CoreInv, Count, Ledger, Buffered;
    var j, lo := Owner(t, r);
    ShareDone(t, j);
  }

  /** Row r was written exactly once. */
  predicate WrittenOnce(t: Sys, r: nat) {
    Count(t.out, r) == 1
  }

  lemma {:induction false} CountFirst(out: seq<Output>, r: int)
    requires AllFirst(out)
    ensures Count(out, r) == if r == 0 then |out| else 0
    decreases |out|
  {
    if out != [] { CountFirst(out[..|out| - 1], r); }
  }

  /** In every interleaving of the master, the slaves and single DMA words, once the receive loop has ended as many
      rows have been written as there are, each with its own picture. Every row was written exactly once if and only
      if there are no more slaves than rows, or there is just one row; with more slaves than rows it was row 0 every
      time. */
  lemma EveryRowWrittenOnce(s: Sys, acts: seq<Action>)
    requires PowerUp(s) && InStop(Run(s, acts).pc)
    ensures var t := Run(s, acts);
            && |t.out| == s.rows && Truthful(s.rows, t.out)
            && ((forall r: nat :: r < s.rows ==> WrittenOnce(t, r)) <==> |s.chans| <= s.rows || s.rows == 1)
            && (|s.chans| > s.rows ==> AllFirst(t.out))
  {
    hide Run, Inv, Count, Truthful, AllFirst;
    var t := Run(s, acts);
    RunKeepsInv(s, acts);
    AllWritten(t);
    InvShape(t);
    ShareBounds(t, 0);
    if |s.chans| <= s.rows {
      forall r: nat | r < s.rows ensures WrittenOnce(t, r) { RowWritten(t, r); }
    } else {
      OnlyFirst(t);
      CountFirst(t.out, 0);
      if s.rows > 1 { assert !WrittenOnce(t, 0); }
    }
  }

  lemma OnlyFirst(t: Sys)
    requires Inv(t) && Share(t) == 0
    ensures AllFirst(t.out)
  {
    hide CoreInv, Truthful, Buffered;
  }

  /** At any time, nothing has been written that is not the picture row of its position. With no more slaves than rows
      no row of any share has been written twice; with more, only row 0 has been written. */
  lemma NothingWrittenTwice(s: Sys, acts: seq<Action>)
    requires PowerUp(s)
    ensures var t := Run(s, acts);
            && Truthful(s.rows, t.out)
            && (|s.chans| <= s.rows ==> forall r: nat :: r < |s.chans| * Share(s) ==> Count(t.out, r) <= 1)
            && (|s.chans| > s.rows ==> AllFirst(t.out))
  {
    hide Run, Count, Inv, Truthful, Share, AllFirst;
    var t := Run(s, acts);
    RunKeepsInv(s, acts);
    InvShape(t);
    InvTruthful(t);
    SameShare(s, t);
    ShareBounds(t, 0);
    if |s.chans| <= s.rows {
      forall r: nat | r < |s.chans| * Share(s) ensures Count(t.out, r) <= 1 {
        var j, lo := Owner(t, r);
      }
    } else {
      OnlyFirst(t);
    }
  }

  lemma InvTruthful(t: Sys)
    requires Inv(t)
    ensures Truthful(t.rows, t.out)
  {
    hide CoreInv, Truthful, Buffered, RowsWritten;
  }

  /** The static partition hands out slaves * (rows / slaves) rows; unless that is all of them, or shares are empty, the
      master never leaves its receive loop. */
  lemma EndsOnlyIfAllAskedFor(s: Sys, acts: seq<Action>)
    requires PowerUp(s) && InStop(Run(s, acts).pc)
    ensures s.rows % |s.chans| == 0 || |s.chans| > s.rows
  {
    hide Run, CoreInv, Ledger, Buffered;
    RunKeepsInv(s, acts);
    ShareBounds(s, 0);
    if Share(s) > 0 { DividesExactly(s.rows, |s.chans|); }
  }

  lemma DividesExactly(rows: nat, n: nat)
    requires n > 0 && n * (rows / n) == rows
    ensures rows % n == 0
  {
  }

  /** The master is copying words into slave i's packet. */
  predicate SendingTo(pc: MasterPc, i: nat) {
    (pc.StartDma? || pc.FirstDma? || pc.NextDma? || pc.StopDma?) && pc.i == i && pc.w <= 4
  }

  /** The master is taking the answer out of slave i's row buffer. */
  predicate TakingFrom(pc: MasterPc, i: nat) {
    (pc.Print? || pc.ReadData? || pc.Emit?) && pc.i == i
  }

  /** In every interleaving: the master writes into a packet only while that slave merely polls
      a command word holding no command, and a slave writes into a row buffer only while the
      master sees no answer there and is not reading it. */
  lemma MailboxesNeverClash(s: Sys, acts: seq<Action>, i: nat)
    requires PowerUp(s) && i < |s.chans|
    ensures var t := Run(s, acts); var c := t.chans[i];
            && (SendingTo(t.pc, i) ==> (c.pc == AwaitStart && c.packet.cmd != CMD_START) || (Idle(c.pc) && NoCommand(c.packet.cmd)))
            && (c.pc.RowDma? && c.pc.w <= DATA_WORDS ==> c.fromSlave.cmd == CMD_NULL && !TakingFrom(t.pc, i))
  {
    hide Run, Image, Request, Ledger, Buffered, Share, Lo, Hi;
    RunKeepsInv(s, acts);
    assert CoreInv(Run(s, acts), i);
  }
}
