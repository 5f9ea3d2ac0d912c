/** c/cmp/mandelbrot_par.c: from every reachable state the master can finish, provided the slaves divide the rows or
    outnumber them. */
module MandelbrotProgress {
  import opened MandelbrotChannel
  import opened MandelbrotSystem

  // ------------------------------------------------------------------ a slave's work

  /** Steps left until the slave has acknowledged the start or answered the request at hand. */
  function Work(c: Chan): nat {
    if c.phase == Started then
      match c.pc
      case AwaitStart => 11
      case SetAck => 10
      case AckDma(w) => if w <= 8 then 9 - w else 0
      case _ => 0
    else if c.phase.Outstanding? then
      match c.pc
      case AwaitPacket => 51
      case CheckStop => 50
      case CopyField(f) => if f <= 4 then 49 - f else 0
      case ClearCmd => 44
      case Compute => if c.idx <= COLS then 11 + (COLS - c.idx) else 0
      case SetRowCmd => 10
      case RowDma(w) => if w <= 8 then 9 - w else 52
      case _ => 52
    else 0
  }

  lemma WorkIsDone(rows: nat, c: Chan)
    requires rows > 0 && ChanInv(rows, c) && Work(c) > 0
    ensures Work(SlaveStep(c)) < Work(c)
  {
    hide Image, CopyWord, Request, Pixel;
    if c.phase == Started {
      StartWork(rows, c);
    } else {
      RequestWork(rows, c);
    }
  }

  lemma StartWork(rows: nat, c: Chan)
    requires rows > 0 && ChanInv(rows, c) && c.phase == Started && Work(c) > 0
    ensures Work(SlaveStep(c)) < Work(c)
  {
    hide Image, CopyWord, Request, Pixel, Working;
  }

  lemma RequestWork(rows: nat, c: Chan)
    requires rows > 0 && ChanInv(rows, c) && c.phase.Outstanding?
    ensures Work(SlaveStep(c)) < Work(c)
  {
    hide Image, CopyWord, Pixel, SameUpTo, YStep;
  }

  /** With nothing left to do, a started slave has acknowledged and a requested row is there. */
  lemma NoWork(rows: nat, c: Chan)
    requires rows > 0 && ChanInv(rows, c) && Work(c) == 0
    ensures c.phase == Started ==> c.fromSlave.cmd == CMD_START
    ensures !c.phase.Outstanding?
    ensures c.phase.Answered? ==> c.fromSlave.cmd != CMD_NULL
    ensures c.phase == Ready ==> c.fromSlave.cmd == CMD_NULL
  {
    hide Image, CopyWord, Request, Pixel;
  }

  function AllWork(cs: seq<Chan>): nat
    decreases |cs|
  {
    if cs == [] then 0 else AllWork(cs[..|cs| - 1]) + Work(cs[|cs| - 1])
  }

  lemma {:induction false} WorkUpdate(cs: seq<Chan>, i: nat, c: Chan)
    requires i < |cs|
    ensures AllWork(cs[i := c]) == AllWork(cs) - Work(cs[i]) + Work(c)
    ensures AllWork(cs) >= Work(cs[i])
    decreases |cs|
  {
    hide Work;
    var n := |cs| - 1;
    if i == n {
      assert cs[i := c][..n] == cs[..n];
    } else {
      WorkUpdate(cs[..n], i, c);
      assert cs[i := c][..n] == cs[..n][i := c];
    }
  }

  // ------------------------------------------------------------ the master's way to go

  function Stage(pc: MasterPc): nat {
    match pc
    case ClearStop(_) => 7
    case SendStart(_) => 6
    case StartDma(_, _) => 6
    case AwaitStarted(_) => 5
    case ClearNull(_) => 4
    case FirstFill(_) => 3
    case FirstDma(_, _) => 3
    case SendStop(_) => 1
    case StopDma(_, _) => 1
    case Finished => 0
    case _ => 2
  }

  /** Rows that the receive loop has yet to pick up. */
  function Left(s: Sys): nat {
    if Receiving(s.pc) && s.received < s.rows then s.rows - s.received else 0
  }

  function Gap(n: nat, i: nat): nat {
    if i < n then n - i else 0
  }

  /** A request of slave i or a later one is out or answered. */
  ghost predicate BusyFrom(cs: seq<Chan>, i: nat) {
    exists j :: i <= j < |cs| && Engaged(cs[j])
  }

  predicate Engaged(c: Chan) {
    c.phase.Outstanding? || c.phase.Answered?
  }

  /** Steps left at most until the next stage or the next row picked up, if no slave has work. */
  ghost function Position(s: Sys): nat {
    var n := |s.chans|;
    var b := 2 * n + 4;
    match s.pc
    case ClearStop(i) => Gap(n, i)
    case SendStart(i) => 8 * Gap(n, i)
    case StartDma(i, w) => if i < n then 8 * Gap(n, i) - 7 + Gap(6, w) else 0
    case AwaitStarted(i) => Gap(n, i)
    case ClearNull(i) => Gap(n, i)
    case FirstFill(i) => 8 * Gap(n, i)
    case FirstDma(i, w) => if i < n then 8 * Gap(n, i) - 7 + Gap(6, w) else 0
    case LoopTop => n + 2
    case Poll(i) => if BusyFrom(s.chans, i) then Gap(n, i) else Gap(n, i) + n + 3
    case Print(_) => b + 50
    case ReadData(_, k) => b + 10 + Gap(COLS, k)
    case Emit(_) => b + 9
    case ClearAnswer(_) => b + 8
    case Decide(_) => b + 7
    case NextDma(_, w) => b + Gap(6, w)
    case SendStop(i) => 8 * Gap(n, i)
    case StopDma(i, w) => if i < n then 8 * Gap(n, i) - 7 + Gap(6, w) else 0
    case Finished => 0
  }

  ghost predicate Closer(s: Sys, t: Sys) {
    Stage(t.pc) < Stage(s.pc)
    || (Stage(t.pc) == Stage(s.pc) && (Left(t) < Left(s) || (Left(t) == Left(s) && Position(t) < Position(s))))
  }

  predicate Settled(s: Sys) {
    forall j :: 0 <= j < |s.chans| ==> Work(s.chans[j]) == 0
  }

  lemma SettledChan(s: Sys, j: nat)
    requires Inv(s) && Settled(s) && j < |s.chans|
    ensures Where(s.pc, j, s.chans[j], Lo(s, j), Hi(s, j))
    ensures var c := s.chans[j];
            && (c.phase == Started ==> c.fromSlave.cmd == CMD_START) && !c.phase.Outstanding?
            && (c.phase.Answered? ==> c.fromSlave.cmd != CMD_NULL) && (c.phase == Ready ==> c.fromSlave.cmd == CMD_NULL)
  {
    hide ChanInv, Where, Work;
    assert CoreInv(s, j);
    NoWork(s.rows, s.chans[j]);
  }

  /** Outside the receive loop. */
  lemma StraightOn(s: Sys)
    requires Inv(s) && Settled(s) && !Receiving(s.pc) && s.pc != Finished
    ensures Closer(s, MasterStep(s))
  {
    hide CoreInv, Ledger, Buffered, Settled, Share, Request, Inv;
    InvParts(s);
    if s.pc.AwaitStarted? && s.pc.i < |s.chans| {
      SettledChan(s, s.pc.i);
    }
  }

  lemma InvParts(s: Sys)
    requires Inv(s)
    ensures Shape(s) && PcInv(s)
  {
  }

  /** Serving one slave. */
  lemma ServingOn(s: Sys)
    requires Inv(s) && (Reading(s.pc) || s.pc.ClearAnswer? || s.pc.Decide? || s.pc.NextDma?)
    ensures Closer(s, MasterStep(s))
  {
    hide CoreInv, Ledger, Buffered, Share, Request, Inv, BusyFrom;
    InvParts(s);
  }

  /** Looking for answers: no slave has work, so the next engaged one has answered. */
  lemma PollingOn(s: Sys)
    requires Inv(s) && Settled(s) && s.pc.Poll?
    ensures Closer(s, MasterStep(s))
  {
    hide CoreInv, Ledger, Buffered, Settled, Share, Inv, Work;
    InvParts(s);
    var i, n := s.pc.i, |s.chans|;
    if i < n {
      SettledChan(s, i);
      if Engaged(s.chans[i]) {
        StillLeft(s, i);
      } else {
        assert BusyFrom(s.chans, i) <==> BusyFrom(s.chans, i + 1);
      }
    }
  }

  /** An engaged slave's row has not been picked up. */
  lemma StillLeft(s: Sys, i: nat)
    requires Inv(s) && s.pc.Poll? && i < |s.chans| && Engaged(s.chans[i])
    ensures s.received < s.rows
  {
    hide Inv;
    var t := s.(pc := LoopTop);
    AtTheTop(s);
    if s.received >= s.rows {
      LoopExit(t, i);
    }
  }

  lemma AtTheTop(s: Sys)
    requires Inv(s) && s.pc.Poll?
    ensures Inv(s.(pc := LoopTop))
  {
    hide ChanInv, Written, Truthful, Share, Where, Shape;
    var t := s.(pc := LoopTop);
    InvParts(s);
    SameShape(s);
    SameShare(s, t);
    forall j | 0 <= j < |s.chans| ensures CoreInv(t, j) {
      assert CoreInv(s, j);
      TopWhere(s.pc, j, s.chans[j], Lo(s, j), Hi(s, j));
    }
  }

  lemma SameShape(s: Sys)
    requires Shape(s)
    ensures Shape(s.(pc := LoopTop)) && |s.chans| > 0
  {
  }

  lemma TopWhere(pc: MasterPc, j: nat, c: Chan, lo: int, hi: int)
    requires pc.Poll? && Where(pc, j, c, lo, hi)
    ensures Where(LoopTop, j, c, lo, hi)
  {
  }

  /** At the top of the loop: out, or round once more because some slave is engaged. */
  lemma TopOn(s: Sys)
    requires Inv(s) && s.pc == LoopTop && Completes(s)
    ensures Closer(s, MasterStep(s))
  {
    hide CoreInv, Ledger, Buffered, Share, Inv;
    InvParts(s);
    if s.received < s.rows {
      SomeEngaged(s);
    }
  }

  lemma SomeEngaged(s: Sys)
    requires Inv(s) && s.pc == LoopTop && Completes(s) && s.received < s.rows
    ensures BusyFrom(s.chans, 0)
  {
    hide Width, Widths, Inv, Lo, Hi;
    var n := |s.chans|;
    InvParts(s);
    forall j | 0 <= j < n ensures s.chans[j].done <= Width(s.rows, n, j) { DoneSoFar(s, j); }
    DoneSumFull(s.chans, s.rows, n);
    AllAskedFor(s);
    ReceivedAre(s);
    var j :| 0 <= j < n && s.chans[j].done != Width(s.rows, n, j);
    DoneSoFar(s, j);
    TopIsBusy(s, j);
  }

  lemma ReceivedAre(s: Sys)
    requires Inv(s) && s.pc == LoopTop
    ensures s.received == DoneSum(s.chans)
  {
    hide CoreInv, Truthful, RowsWritten, Buffered;
  }

  lemma TopIsBusy(s: Sys, j: nat)
    requires Inv(s) && s.pc == LoopTop && j < |s.chans|
    ensures Exhausted(s.chans[j], Lo(s, j), Hi(s, j)) || Engaged(s.chans[j])
  {
    hide ChanInv, Lo, Hi;
    assert CoreInv(s, j);
  }

  /** The slaves are asked for all rows. */
  predicate Completes(s: Sys) {
    |s.chans| > 0 && (s.rows % |s.chans| == 0 || |s.chans| > s.rows)
  }

  lemma AllAskedFor(s: Sys)
    requires Shape(s) && Completes(s)
    ensures Widths(s.rows, |s.chans|, |s.chans|) == s.rows
  {
    AllWidths(s.rows, |s.chans|);
    if |s.chans| > s.rows { ShareBounds(s, 0); }
  }

  lemma MasterOn(s: Sys)
    requires Inv(s) && Settled(s) && s.pc != Finished && Completes(s)
    ensures Closer(s, MasterStep(s))
  {
    hide Inv, Settled, Closer, MasterStep;
    if s.pc.Poll? {
      PollingOn(s);
    } else if s.pc == LoopTop {
      TopOn(s);
    } else if Receiving(s.pc) {
      ServingOn(s);
    } else {
      StraightOn(s);
    }
  }

  lemma SlaveOn(s: Sys, j: nat)
    requires Inv(s) && j < |s.chans| && Work(s.chans[j]) > 0
    ensures var t := Step(s, Slave(j));
            && t.pc == s.pc && t.received == s.received && t.rows == s.rows && Position(t) == Position(s) && AllWork(t.chans) < AllWork(s.chans)
  {
    hide ChanInv, Work, SlaveStep, Ledger, Buffered, AllWork, Where;
    InvParts(s);
    assert CoreInv(s, j);
    var c := s.chans[j];
    WorkIsDone(s.rows, c);
    WorkUpdate(s.chans, j, SlaveStep(c));
    SlaveStepProgress(s.rows, c);
    var t := Step(s, Slave(j));
    assert forall k :: 0 <= k < |s.chans| ==> (Engaged(s.chans[k]) <==> Engaged(t.chans[k]));
    assert forall i: nat :: BusyFrom(s.chans, i) <==> BusyFrom(t.chans, i);
  }

  lemma RunCons(s: Sys, a: Action, acts: seq<Action>)
    requires Shape(s)
    ensures Shape(Step(s, a)) && Run(s, [a] + acts) == Run(Step(s, a), acts)
    decreases |acts|
  {
    hide Step;
    StepShape(s, a);
    if acts == [] {
      assert ([a] + acts)[..0] == [];
      assert Run(s, []) == s;
    } else {
      RunCons(s, a, acts[..|acts| - 1]);
      assert ([a] + acts)[..|acts|] == [a] + acts[..|acts| - 1];
    }
  }

  /** From every state the invariant allows there is a way to the end. */
  lemma {:induction false} Finish(s: Sys) returns (acts: seq<Action>)
    requires Inv(s) && Completes(s)
    ensures Shape(s) && Run(s, acts).pc == Finished
    decreases Stage(s.pc), Left(s), Position(s), AllWork(s.chans)
  {
    hide Inv, Step, MasterStep, Position, Work, AllWork, Stage, Left;
    InvParts(s);
    if s.pc == Finished {
      acts := [];
    } else if j :| 0 <= j < |s.chans| && Work(s.chans[j]) > 0 {
      StepKeepsInv(s, Slave(j));
      SlaveOn(s, j);
      SameLeft(s, Step(s, Slave(j)));
      StepShape(s, Slave(j));
      var more := Finish(Step(s, Slave(j)));
      RunCons(s, Slave(j), more);
      acts := [Slave(j)] + more;
    } else {
      StepKeepsInv(s, Master);
      MasterOn(s);
      StepShape(s, Master);
      MasterIsStep(s);
      var more := Finish(Step(s, Master));
      RunCons(s, Master, more);
      acts := [Master] + more;
    }
  }

  lemma SameLeft(s: Sys, t: Sys)
    requires t.pc == s.pc && t.received == s.received && t.rows == s.rows
    ensures Left(s) == Left(t) && Stage(s.pc) == Stage(t.pc)
  {
  }

  lemma MasterIsStep(s: Sys)
    requires Shape(s)
    ensures Step(s, Master) == MasterStep(s)
  {
  }

  /** Whatever has happened, the master can still come to its end: no interleaving leads into a dead end. */
  lemma CanAlwaysFinish(s: Sys, acts: seq<Action>) returns (more: seq<Action>)
    requires PowerUp(s) && (s.rows % |s.chans| == 0 || |s.chans| > s.rows)
    ensures Run(Run(s, acts), more).pc == Finished
  {
    hide Run, Inv, PowerUp;
    PowerUpShape(s);
    RunKeepsInv(s, acts);
    more := Finish(Run(s, acts));
  }

  // ------------------------------------------------------------------- the slaves stop too

  /** Steps a halted slave has left. */
  function StopWork(c: Chan): nat {
    match c.pc
    case Stopped => 0
    case CheckStop => 1
    case AwaitNotStop => 2
    case AwaitPacket => 3
    case _ => 4
  }

  lemma HaltedStops(rows: nat, c: Chan)
    requires rows > 0 && ChanInv(rows, c) && c.phase == Halted && c.pc != Stopped
    ensures SlaveStep(c).phase == Halted && StopWork(SlaveStep(c)) < StopWork(c)
  {
    hide Image, CopyWord, Request, Pixel;
  }

  function AllStopWork(cs: seq<Chan>): nat
    decreases |cs|
  {
    if cs == [] then 0 else AllStopWork(cs[..|cs| - 1]) + StopWork(cs[|cs| - 1])
  }

  lemma {:induction false} StopWorkUpdate(cs: seq<Chan>, i: nat, c: Chan)
    requires i < |cs|
    ensures AllStopWork(cs[i := c]) == AllStopWork(cs) - StopWork(cs[i]) + StopWork(c)
    decreases |cs|
  {
    hide StopWork;
    var n := |cs| - 1;
    if i == n {
      assert cs[i := c][..n] == cs[..n];
    } else {
      StopWorkUpdate(cs[..n], i, c);
      assert cs[i := c][..n] == cs[..n][i := c];
    }
  }

  lemma HaltedWhenFinished(s: Sys, j: nat)
    requires Inv(s) && s.pc == Finished && j < |s.chans|
    ensures s.rows > 0 && ChanInv(s.rows, s.chans[j]) && s.chans[j].phase == Halted
  {
    hide ChanInv;
    assert CoreInv(s, j);
  }

  lemma {:induction false} StopAll(s: Sys) returns (acts: seq<Action>)
    requires Inv(s) && s.pc == Finished
    ensures Shape(s)
    ensures var t := Run(s, acts); t.pc == Finished && forall j :: 0 <= j < |t.chans| ==> t.chans[j].pc == Stopped
    decreases AllStopWork(s.chans)
  {
    hide Inv, Step, StopWork, AllStopWork, Shape;
    InvParts(s);
    if j :| 0 <= j < |s.chans| && s.chans[j].pc != Stopped {
      HaltedWhenFinished(s, j);
      HaltedStops(s.rows, s.chans[j]);
      StepKeepsInv(s, Slave(j));
      SlaveStepIs(s, j);
      StopWorkUpdate(s.chans, j, SlaveStep(s.chans[j]));
      var more := StopAll(Step(s, Slave(j)));
      RunCons(s, Slave(j), more);
      acts := [Slave(j)] + more;
    } else {
      acts := [];
    }
  }

  lemma SlaveStepIs(s: Sys, j: nat)
    requires Shape(s) && j < |s.chans|
    ensures Step(s, Slave(j)) == s.(chans := s.chans[j := SlaveStep(s.chans[j])])
  {
  }

  /** Whatever has happened, the master can finish and every slave stop: nobody is left behind. */
  lemma EveryoneCanStop(s: Sys, acts: seq<Action>) returns (more: seq<Action>)
    requires PowerUp(s) && (s.rows % |s.chans| == 0 || |s.chans| > s.rows)
    ensures var t := Run(Run(s, acts), more);
            t.pc == Finished && forall j :: 0 <= j < |t.chans| ==> t.chans[j].pc == Stopped
  {
    hide Run, Inv, PowerUp;
    PowerUpShape(s);
    RunKeepsInv(s, acts);
    var a := Finish(Run(s, acts));
    RunFromKeepsInv(Run(s, acts), a);
    var b := StopAll(Run(Run(s, acts), a));
    RunSplits(Run(s, acts), a, b);
    more := a + b;
  }

  lemma {:induction false} RunFromKeepsInv(s: Sys, acts: seq<Action>)
    requires Inv(s)
    ensures Shape(s) && Inv(Run(s, acts))
    decreases |acts|
  {
    hide Inv, Step;
    InvParts(s);
    if acts != [] {
      RunFromKeepsInv(s, acts[..|acts| - 1]);
      StepKeepsInv(Run(s, acts[..|acts| - 1]), acts[|acts| - 1]);
    }
  }

  lemma {:induction false} RunSplits(s: Sys, a: seq<Action>, b: seq<Action>)
    requires Shape(s)
    ensures Run(s, a + b) == Run(Run(s, a), b)
    decreases |b|
  {
    hide Step, Shape;
    if b == [] {
      assert a + b == a;
    } else {
      RunSplits(s, a, b[..|b| - 1]);
      assert (a + b)[..|a + b| - 1] == a + b[..|b| - 1];
    }
  }

  /** The receive loop can be left if and only if the slaves divide the rows or there are more of them. */
  lemma EndsIffAllAskedFor(s: Sys)
    requires PowerUp(s)
    ensures s.rows % |s.chans| == 0 || |s.chans| > s.rows <==> exists acts :: InStop(Run(s, acts).pc)
  {
    hide Run, Inv;
    if s.rows % |s.chans| == 0 || |s.chans| > s.rows {
      PowerUpInv(s);
      var acts := Finish(s);
      assert InStop(Run(s, acts).pc);
    } else if acts :| InStop(Run(s, acts).pc) {
      EndsOnlyIfAllAskedFor(s, acts);
    }
  }

  /** Three slaves and two rows: the master finishes, and has written row 0 twice and row 1 never. */
  lemma ThreeSlavesTwoRows(s: Sys) returns (acts: seq<Action>)
    requires PowerUp(s) && |s.chans| == 3 && s.rows == 2
    ensures var t := Run(s, acts); t.pc == Finished && Count(t.out, 0) == 2 && Count(t.out, 1) == 0
  {
    hide Run, Inv, Count;
    PowerUpInv(s);
    acts := Finish(s);
    EveryRowWrittenOnce(s, acts);
    CountFirst(Run(s, acts).out, 0);
    CountFirst(Run(s, acts).out, 1);
  }

  /** Such a system exists. */
  lemma ThreeSlaves() returns (s: Sys)
    ensures PowerUp(s) && |s.chans| == 3 && s.rows == 2
  {
    var data := seq(COLS, _ => 0);
    var p := Packet(0, 0, 0, 0, 0);
    var c := Chan(Fresh, p, Row(data, 0), p, Row(data, 0), AwaitStart, p, 0, 0, 0, 0);
    s := Sys(2, [c, c, c], ClearStop(0), 0, 0, data, []);
  }
}
