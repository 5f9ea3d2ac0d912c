/** c/bootloader/bootloader.c: which states of the handshake can still come to the end of their round, and that every
    program can be run by every core. */
module HandshakeProgress {
  import opened Handshake

  // ------------------------------------------------------------ what is needed to finish

  /** Core 0 will write STATUS_BOOT again. */
  predicate StillAnnouncing(pc: MasterPc) {
    pc.ClearStatus? || pc.ClearEntry? || pc.ClearSlave? || (pc.Announce? && pc.k < 16)
  }

  /** Nothing keeps core j from doing its part of the round. The status word shows STATUS_BOOT, STATUS_INIT and
      STATUS_RETURN only until a core that begins its boot code clears it, and core 0 must see each acknowledgement
      before the core that gave it returns. */
  predicate Hopeful(t: State, j: nat)
    requires 1 <= j < |t.slaves| == |t.slaveStatus|
  {
    var c := t.slaves[j];
    if StillAnnouncing(t.pc) then true
    else if Early(t.pc) then c.pc == AwaitInit || (c.pc != WipeStatus && t.status == Boot)
    else if t.pc.AwaitAck? then
      j < t.pc.i || c.pc == Acknowledge || (c.pc == AwaitInit && t.status == Init) || t.slaveStatus[j] == Init
    else if t.pc.AwaitLoopBack? then c.round > t.round || c.pc == Retire || t.status == Return
    else true
  }

  predicate CanFinish(t: State)
    requires 1 <= |t.slaves| == |t.slaveStatus|
  {
    forall j :: 1 <= j < |t.slaves| ==> Hopeful(t, j)
  }

  // ------------------------------------------------------------------------- stuck for good

  lemma OwnStepStaysStuck(t: State, j: nat)
    requires Inv(t) && 1 <= j < |t.slaves| && !Hopeful(t, j)
    ensures var v := SlaveStep(t, j);
            |v.slaves| == |v.slaveStatus| == |t.slaves| && v.round == t.round && !Hopeful(v, j)
  {
    assert CoreInv(t, j);
  }

  lemma OtherStepStaysStuck(t: State, k: nat, j: nat)
    requires Inv(t) && 1 <= j < |t.slaves| && 1 <= k < |t.slaves| && k != j && !Hopeful(t, j)
    ensures var v := SlaveStep(t, k);
            |v.slaves| == |v.slaveStatus| == |t.slaves| && v.round == t.round && !Hopeful(v, j)
  {
    hide Inv;
    InvShape(t);
    var v := SlaveStep(t, k);
    assert v.slaves[j] == t.slaves[j] && v.slaveStatus[j] == t.slaveStatus[j] && v.pc == t.pc;
    assert v.status == t.status || v.status == Null;
  }

  lemma MasterStepStaysStuck(t: State, result: nat, j: nat)
    requires Inv(t) && 1 <= j < |t.slaves| && !Hopeful(t, j)
    ensures var v := MasterStep(t, result);
            |v.slaves| == |v.slaveStatus| == |t.slaves| && v.round == t.round && !Hopeful(v, j)
  {
    assert CoreInv(t, j);
  }

  lemma StaysStuck(t: State, a: Action, j: nat)
    requires Inv(t) && 1 <= j < |t.slaves| && !Hopeful(t, j)
    ensures var v := Step(t, a);
            |v.slaves| == |v.slaveStatus| == |t.slaves| && v.round == t.round && !Hopeful(v, j)
  {
    hide Inv, Hopeful, SlaveStep, MasterStep;
    InvShape(t);
    match a
    case Master(result) => MasterStepStaysStuck(t, result, j);
    case Core(k) =>
      if k == j {
        OwnStepStaysStuck(t, j);
      } else if 1 <= k < |t.slaves| {
        OtherStepStaysStuck(t, k, j);
      }
  }

  lemma {:induction false} StuckForever(t: State, acts: seq<Action>, j: nat)
    requires Inv(t) && 1 <= j < |t.slaves| && !Hopeful(t, j)
    ensures var v := Run(t, acts); Inv(v) && v.round == t.round && !Hopeful(v, j)
    decreases |acts|
  {
    hide Inv, Hopeful, Step;
    InvShape(t);
    if acts != [] {
      var before, a := acts[..|acts| - 1], acts[|acts| - 1];
      StuckForever(t, before, j);
      StepKeepsInv(Run(t, before), a);
      StaysStuck(Run(t, before), a, j);
    }
  }

  // ------------------------------------------------------------------- what is left to do

  function SlaveRank(c: Slave, round: nat): nat {
    if c.round > round then 0 else
      match c.pc
      case WipeStatus => 12
      case WipeEntry => 11
      case WipeOwn => 10
      case SayBoot => 9
      case AwaitBoot => 8
      case AwaitInit => 7
      case Acknowledge => 6
      case LookUpEntry => 5
      case RunSlave => 4
      case SayReturn => 3
      case AwaitReturn => 2
      case Retire => 1
  }

  function SlavesRank(cs: seq<Slave>, round: nat): nat {
    if cs == [] then 0 else SlavesRank(cs[..|cs| - 1], round) + SlaveRank(cs[|cs| - 1], round)
  }

  function Left(n: nat, i: nat): nat {
    if i < n then n - i else 0
  }

  function MasterRank(pc: MasterPc, n: nat): nat {
    match pc
    case ClearStatus => 5 * n + 41
    case ClearEntry => 5 * n + 40
    case ClearSlave(i) => 4 * n + 35 + Left(n, i)
    case Announce(k) => 4 * n + 17 + Left(17, k)
    case Downloading => 4 * n + 16
    case PublishEntry => 4 * n + 15
    case PublishInit => 4 * n + 14
    case AwaitAck(i) => 3 * n + 13 + Left(n, i)
    case CheckEntry => 3 * n + 12
    case RunApp => 3 * n + 11
    case CheckDone(i) => n + 4 + 2 * Left(n, i)
    case AwaitDone(i) => if i < n then n + 3 + 2 * Left(n, i) else n + 5
    case PublishReturn => n + 3
    case AwaitLoopBack(i) => 1 + Left(n, i)
  }

  function Work(t: State): nat
    requires 1 <= |t.slaves|
  {
    MasterRank(t.pc, |t.slaves|) + SlavesRank(t.slaves[1..], t.round)
  }

  lemma {:induction false} RankUpdate(cs: seq<Slave>, i: nat, c: Slave, round: nat)
    requires i < |cs|
    ensures SlavesRank(cs[i := c], round) == SlavesRank(cs, round) - SlaveRank(cs[i], round) + SlaveRank(c, round)
    decreases |cs|
  {
    hide SlaveRank;
    var n := |cs| - 1;
    if i == n {
      assert cs[i := c][..n] == cs[..n];
    } else {
      assert cs[i := c][..n] == cs[..n][i := c];
      RankUpdate(cs[..n], i, c, round);
    }
  }

  /** A slave's step that lowers its own rank is progress. */
  lemma SlaveWorks(t: State, j: nat)
    requires 1 <= j < |t.slaves| == |t.slaveStatus|
    requires SlaveRank(SlaveStep(t, j).slaves[j], t.round) < SlaveRank(t.slaves[j], t.round)
    ensures Work(SlaveStep(t, j)) < Work(t)
  {
    hide SlaveRank, SlavesRank, MasterRank;
    var v := SlaveStep(t, j);
    OnlyOwnRecord(t, j);
    assert v.slaves[1..] == t.slaves[1..][j - 1 := v.slaves[j]];
    RankUpdate(t.slaves[1..], j - 1, v.slaves[j], t.round);
  }

  lemma OnlyOwnRecord(t: State, j: nat)
    requires 1 <= j < |t.slaves| == |t.slaveStatus|
    ensures var v := SlaveStep(t, j);
            v.slaves == t.slaves[j := v.slaves[j]] && v.pc == t.pc && v.round == t.round
            && |v.slaveStatus| == |t.slaveStatus|
            && (forall k :: 0 <= k < |t.slaves| && k != j ==> v.slaveStatus[k] == t.slaveStatus[k])
  {
  }

  // --------------------------------------------------------------------- one step nearer

  /** The step brings the end of the round nearer, or is it. */
  predicate Advances(t: State, a: Action)
    requires 1 <= |t.slaves| == |t.slaveStatus|
  {
    var v := Step(t, a);
    && |v.slaves| == |v.slaveStatus| == |t.slaves|
    && (v.round > t.round || (v.round == t.round && CanFinish(v) && Work(v) < Work(t)))
  }

  lemma MasterWorks(t: State, result: nat)
    requires 1 <= |t.slaves| == |t.slaveStatus|
    ensures var v := MasterStep(t, result);
            v.slaves == t.slaves && |v.slaveStatus| == |t.slaveStatus|
            && (v != t && v.round == t.round ==> MasterRank(v.pc, |t.slaves|) < MasterRank(t.pc, |t.slaves|))
  {
    var v, n := MasterStep(t, result), |t.slaves|;
    if v != t && v.round == t.round {
      assert v.pc != t.pc;
      match t.pc
      case ClearSlave(i) => assert MasterRank(v.pc, n) < MasterRank(t.pc, n);
      case Announce(k) => assert MasterRank(v.pc, n) < MasterRank(t.pc, n);
      case AwaitAck(i) => assert MasterRank(v.pc, n) < MasterRank(t.pc, n);
      case CheckDone(i) => assert MasterRank(v.pc, n) < MasterRank(t.pc, n);
      case AwaitDone(i) => assert MasterRank(v.pc, n) < MasterRank(t.pc, n);
      case AwaitLoopBack(i) => assert MasterRank(v.pc, n) < MasterRank(t.pc, n);
      case _ =>
    }
  }

  lemma MasterAdvances(t: State, result: nat)
    requires Inv(t) && MasterStep(t, result) != t
    requires MasterStep(t, result).round > t.round || CanFinish(MasterStep(t, result))
    ensures Advances(t, Master(result))
  {
    hide Inv, CanFinish, MasterStep, MasterRank, SlavesRank;
    InvShape(t);
    MasterWorks(t, result);
    RoundsGrow(t, Master(result));
  }

  lemma SlaveAdvances(t: State, j: nat)
    requires Inv(t) && 1 <= j < |t.slaves|
    requires SlaveRank(SlaveStep(t, j).slaves[j], t.round) < SlaveRank(t.slaves[j], t.round)
    requires CanFinish(SlaveStep(t, j))
    ensures Advances(t, Core(j))
  {
    hide Inv, CanFinish, SlaveStep, SlaveRank, Work;
    InvShape(t);
    SlaveWorks(t, j);
    OnlyOwnRecord(t, j);
  }

  predicate Wiping(pc: SlavePc) {
    pc.WipeStatus? || pc.WipeEntry? || pc.WipeOwn?
  }

  lemma AnnouncingAdvances(t: State, result: nat) returns (a: Action)
    requires Inv(t) && StillAnnouncing(t.pc)
    ensures Advances(t, a) && (a.Master? ==> a.result == result)
  {
    hide Inv, CoreInv, MasterInv, Advances;
    InvShape(t);
    if j :| 1 <= j < |t.slaves| && Wiping(t.slaves[j].pc) {
      WipingRank(t, j);
      SlaveAdvances(t, j);
      a := Core(j);
    } else {
      forall j | 1 <= j < |t.slaves| ensures Hopeful(MasterStep(t, result), j) {
        SlavesWait(t, j);
      }
      MasterAdvances(t, result);
      a := Master(result);
    }
  }

  lemma SlavesWait(t: State, j: nat)
    requires Inv(t) && Early(t.pc) && 1 <= j < |t.slaves|
    ensures Waiting(t.slaves[j].pc) && t.slaves[j].round == t.round
  {
    assert CoreInv(t, j);
  }

  lemma WipingRank(t: State, j: nat)
    requires Inv(t) && Early(t.pc) && 1 <= j < |t.slaves| && Wiping(t.slaves[j].pc)
    ensures var v := SlaveStep(t, j);
            v.pc == t.pc && |v.slaves| == |t.slaves|
            && SlaveRank(v.slaves[j], t.round) < SlaveRank(t.slaves[j], t.round)
  {
    SlavesWait(t, j);
  }

  predicate AllAwaitInit(t: State) {
    forall j :: 1 <= j < |t.slaves| ==> t.slaves[j].pc == AwaitInit
  }

  lemma BootingAdvances(t: State, result: nat) returns (a: Action)
    requires Inv(t) && Early(t.pc) && !StillAnnouncing(t.pc) && CanFinish(t)
    ensures Advances(t, a) && (a.Master? ==> a.result == result && AllAwaitInit(t))
  {
    hide Inv, Advances, CoreInv, MasterInv;
    InvShape(t);
    if j :| 1 <= j < |t.slaves| && t.slaves[j].pc != AwaitInit {
      SlavesWait(t, j);
      assert Hopeful(t, j);
      var v := SlaveStep(t, j);
      OnlyOwnRecord(t, j);
      assert v.status == t.status == Boot;
      forall k | 1 <= k < |t.slaves| ensures Hopeful(v, k) {
        assert Hopeful(t, k);
      }
      SlaveAdvances(t, j);
      a := Core(j);
    } else {
      MasterAdvances(t, result);
      a := Master(result);
    }
  }

  lemma AckingAdvances(t: State, result: nat) returns (a: Action)
    requires Inv(t) && t.pc.AwaitAck? && CanFinish(t)
    ensures Advances(t, a) && (a.Master? ==> a.result == result)
  {
    hide Inv, Advances, CoreInv, MasterInv;
    InvShape(t);
    if j :| 1 <= j < |t.slaves| && t.pc.i <= j && t.slaves[j].pc in {Acknowledge, AwaitInit} {
      assert Hopeful(t, j);
      AckingSlave(t, j);
      var v := SlaveStep(t, j);
      OnlyOwnRecord(t, j);
      forall k | 1 <= k < |t.slaves| ensures Hopeful(v, k) {
        assert Hopeful(t, k);
      }
      SlaveAdvances(t, j);
      a := Core(j);
    } else {
      var i := t.pc.i;
      AckIndex(t);
      if i < |t.slaves| { assert Hopeful(t, i); }
      var v := MasterStep(t, result);
      forall k | 1 <= k < |t.slaves| ensures Hopeful(v, k) {
        assert Hopeful(t, k);
      }
      MasterAdvances(t, result);
      a := Master(result);
    }
  }

  lemma AckIndex(t: State)
    requires Inv(t) && t.pc.AwaitAck?
    ensures t.pc.i >= 1
  {
  }

  lemma AckingSlave(t: State, j: nat)
    requires Inv(t) && t.pc.AwaitAck? && 1 <= j < |t.slaves| && t.pc.i <= j && Hopeful(t, j)
    requires t.slaves[j].pc in {Acknowledge, AwaitInit}
    ensures var v := SlaveStep(t, j);
            |v.slaves| == |v.slaveStatus| == |t.slaves| && v.status == t.status
            && SlaveRank(v.slaves[j], t.round) < SlaveRank(t.slaves[j], t.round) && Hopeful(v, j)
  {
    assert CoreInv(t, j);
  }

  /** The application runs and the others return. */
  predicate Running(pc: MasterPc) {
    pc.CheckEntry? || pc.RunApp? || pc.CheckDone? || pc.AwaitDone? || pc.PublishReturn?
  }

  lemma RunningAdvances(t: State, result: nat) returns (a: Action)
    requires Inv(t) && Running(t.pc)
    ensures Advances(t, a) && (a.Master? ==> a.result == result)
  {
    hide Inv, Advances, CoreInv, MasterInv;
    InvShape(t);
    if t.pc.AwaitDone? && t.pc.i < |t.slaves| && t.slaveStatus[t.pc.i] != Return {
      var j := t.pc.i;
      ReturningSlave(t, j);
      SlaveAdvances(t, j);
      a := Core(j);
    } else {
      MasterAdvances(t, result);
      a := Master(result);
    }
  }

  lemma ReturningSlave(t: State, j: nat)
    requires Inv(t) && t.pc.AwaitDone? && j == t.pc.i < |t.slaves| && t.slaveStatus[j] != Return
    ensures 1 <= j
    ensures var v := SlaveStep(t, j);
            v.pc == t.pc && |v.slaves| == |v.slaveStatus| == |t.slaves|
            && SlaveRank(v.slaves[j], t.round) < SlaveRank(t.slaves[j], t.round)
  {
    assert CoreInv(t, j);
  }

  lemma LoopingAdvances(t: State, result: nat) returns (a: Action)
    requires Inv(t) && t.pc.AwaitLoopBack? && CanFinish(t)
    ensures Advances(t, a) && (a.Master? ==> a.result == result)
  {
    hide Inv, Advances, CoreInv, MasterInv;
    InvShape(t);
    if j :| 1 <= j < |t.slaves| && t.slaves[j].round <= t.round && t.slaves[j].pc != Retire {
      assert Hopeful(t, j);
      LoopingSlave(t, j);
      LoopingKeeps(t, j);
      a := Core(j);
    } else if j :| 1 <= j < |t.slaves| && t.slaves[j].round <= t.round {
      LoopingSlave(t, j);
      LoopingKeeps(t, j);
      a := Core(j);
    } else {
      LoopsBack(t, result);
      MasterAdvances(t, result);
      a := Master(result);
    }
  }

  lemma LoopingSlave(t: State, j: nat)
    requires Inv(t) && t.pc.AwaitLoopBack? && 1 <= j < |t.slaves| && t.slaves[j].round <= t.round
    requires t.slaves[j].pc == Retire || t.status == Return
    ensures var v := SlaveStep(t, j);
            |v.slaves| == |v.slaveStatus| == |t.slaves| && v.status == t.status && v.pc == t.pc && v.round == t.round
            && SlaveRank(v.slaves[j], t.round) < SlaveRank(t.slaves[j], t.round) && Hopeful(v, j)
  {
    assert CoreInv(t, j);
  }

  lemma LoopingKeeps(t: State, j: nat)
    requires Inv(t) && t.pc.AwaitLoopBack? && CanFinish(t) && 1 <= j < |t.slaves|
    requires var v := SlaveStep(t, j);
             |v.slaves| == |v.slaveStatus| == |t.slaves| && v.status == t.status && v.pc == t.pc && v.round == t.round
             && SlaveRank(v.slaves[j], t.round) < SlaveRank(t.slaves[j], t.round) && Hopeful(v, j)
    ensures Advances(t, Core(j))
  {
    hide Inv, Advances, SlaveStep, SlaveRank;
    InvShape(t);
    var v := SlaveStep(t, j);
    OnlyOwnRecord(t, j);
    forall k | 1 <= k < |t.slaves| ensures Hopeful(v, k) {
      assert Hopeful(t, k);
    }
    SlaveAdvances(t, j);
  }

  lemma LoopsBack(t: State, result: nat)
    requires Inv(t) && t.pc.AwaitLoopBack? && forall j :: 1 <= j < |t.slaves| ==> t.slaves[j].round > t.round
    ensures var v := MasterStep(t, result);
            v != t && |v.slaves| == |v.slaveStatus| == |t.slaves| && (v.round > t.round || CanFinish(v))
  {
    var i := t.pc.i;
    if i < |t.slaves| { assert CoreInv(t, i); }
  }

  lemma SomeStepAdvances(t: State, result: nat) returns (a: Action)
    requires Inv(t) && CanFinish(t)
    ensures Advances(t, a) && (a.Master? ==> a.result == result)
  {
    hide Inv, Advances, CanFinish;
    InvShape(t);
    if StillAnnouncing(t.pc) {
      a := AnnouncingAdvances(t, result);
    } else if Early(t.pc) {
      a := BootingAdvances(t, result);
    } else if t.pc.AwaitAck? {
      a := AckingAdvances(t, result);
    } else if t.pc.AwaitLoopBack? {
      a := LoopingAdvances(t, result);
    } else {
      a := RunningAdvances(t, result);
    }
  }

  // ------------------------------------------------------------------------- to the end

  lemma FinishesFrom(t: State, result: nat) returns (acts: seq<Action>)
    requires Inv(t) && CanFinish(t)
    ensures acts != [] && Run(t, acts[..|acts| - 1]).round == t.round && Run(t, acts).round == t.round + 1
    decreases Work(t)
  {
    hide Inv, CanFinish, Step, Run, Work;
    InvShape(t);
    var a := SomeStepAdvances(t, result);
    var v := Step(t, a);
    StepKeepsInv(t, a);
    if v.round > t.round {
      RunNothing(t);
      RunOne(t, [], a);
      acts := [] + [a];
      assert acts[..0] == [];
      OneRoundAtATime(t, a);
    } else {
      var more := FinishesFrom(v, result);
      RunCons(t, a, more);
      RunCons(t, a, more[..|more| - 1]);
      acts := [a] + more;
      assert acts[..|acts| - 1] == [a] + more[..|more| - 1];
    }
  }

  lemma OneRoundAtATime(t: State, a: Action)
    requires 1 <= |t.slaves| == |t.slaveStatus|
    ensures Step(t, a).round <= t.round + 1
  {
  }

  /** From a reachable state core 0 can come to the end of its round if and only if no core is hopeless: whether the
      handshake has deadlocked can be read off the state. */
  lemma CanFinishIff(s: State, before: seq<Action>)
    requires PowerUp(s)
    ensures var t := Run(s, before); CanFinish(t) <==> exists acts :: Run(t, acts).round > t.round
  {
    hide Inv, Run, Hopeful;
    var t := Run(s, before);
    RunKeepsInv(s, before);
    InvShape(t);
    if CanFinish(t) {
      var acts := FinishesFrom(t, 0);
      assert Run(t, acts).round > t.round;
    } else {
      var j :| 1 <= j < |t.slaves| && !Hopeful(t, j);
      forall acts ensures Run(t, acts).round <= t.round {
        StuckForever(t, acts, j);
      }
    }
  }

  // ------------------------------------------------------------------ every program can run

  /** Nobody has jumped anywhere between the two states. */
  predicate NoCalls(t: State, u: State) {
    && |u.slaves| == |t.slaves| && u.round == t.round && u.calls == t.calls
    && forall j :: 1 <= j < |t.slaves| ==> u.slaves[j].calls == t.slaves[j].calls
  }

  lemma EarlyCallsNothing(t: State, a: Action)
    requires Inv(t) && Early(t.pc)
    ensures NoCalls(t, Step(t, a))
  {
    hide CoreInv, MasterInv;
    if a.Core? && 1 <= a.j < |t.slaves| {
      SlavesWait(t, a.j);
      assert SlaveStep(t, a.j).slaves[a.j].calls == t.slaves[a.j].calls;
    }
  }

  /** Core 0 has not yet got its download. */
  predicate BeforeDownload(pc: MasterPc) {
    StillAnnouncing(pc) || pc.Announce? || pc.Downloading?
  }

  lemma BeforeDownloadStep(t: State, a: Action)
    requires 1 <= |t.slaves| == |t.slaveStatus| && BeforeDownload(t.pc) && (a.Master? && t.pc.Downloading? ==> AllAwaitInit(t))
    ensures var v := Step(t, a);
            BeforeDownload(v.pc) || (v.pc == PublishEntry && AllAwaitInit(v) && a.Master? && v.result == a.result)
  {
  }

  lemma ToPublish(t: State, result: nat) returns (acts: seq<Action>)
    requires Inv(t) && BeforeDownload(t.pc) && CanFinish(t)
    ensures var u := Run(t, acts);
            Inv(u) && u.pc == PublishEntry && u.result == result && AllAwaitInit(u) && NoCalls(t, u)
    decreases Work(t)
  {
    hide Inv, CanFinish, Step, Run, Work, AllAwaitInit, NoCalls;
    InvShape(t);
    var a: Action;
    if StillAnnouncing(t.pc) {
      a := AnnouncingAdvances(t, result);
    } else {
      a := BootingAdvances(t, result);
    }
    var v := Step(t, a);
    StepKeepsInv(t, a);
    EarlyCallsNothing(t, a);
    BeforeDownloadStep(t, a);
    NoNewRound(t, a);
    if v.pc == PublishEntry {
      RunNothing(t);
      RunOne(t, [], a);
      acts := [] + [a];
    } else {
      var more := ToPublish(v, result);
      RunCons(t, a, more);
      acts := [a] + more;
      NoCallsCompose(t, v, Run(v, more));
    }
  }

  lemma NoNewRound(t: State, a: Action)
    requires 1 <= |t.slaves| == |t.slaveStatus| && BeforeDownload(t.pc)
    ensures Step(t, a).round == t.round
  {
  }

  lemma NoCallsCompose(t: State, v: State, u: State)
    requires NoCalls(t, v) && NoCalls(v, u)
    ensures NoCalls(t, u)
  {
  }

  /** All cores have jumped to what is due, and to nothing else. */
  predicate AllCalled(t: State, z: State, due: seq<nat>) {
    && |z.slaves| == |t.slaves| && z.calls == t.calls + due
    && forall j :: 1 <= j < |t.slaves| ==> z.slaves[j].calls == t.slaves[j].calls + due
  }

  lemma LastStep(y: State, a: Action)
    requires Inv(y) && Step(y, a).round > y.round
    ensures var z := Step(y, a);
            z.pc == ClearStatus && z.calls == y.calls && z.slaves == y.slaves && y.pc.AwaitLoopBack?
    ensures forall j :: 1 <= j < |y.slaves| ==> y.slaves[j].round > y.round
  {
    hide MasterInv;
    if a.Core? && 1 <= a.j < |y.slaves| { OnlyOwnRecord(y, a.j); }
    forall j | 1 <= j < |y.slaves| ensures y.slaves[j].round > y.round {
      assert CoreInv(y, j);
    }
  }

  lemma PublishedCanFinish(u: State, result: nat)
    requires Inv(u) && u.pc == PublishEntry && AllAwaitInit(u)
    ensures var w := Step(u, Master(result)); |w.slaves| == |w.slaveStatus| == |u.slaves| && w.round == u.round && CanFinish(w)
    ensures !Late(u) && forall j: nat :: !LateBeside(u, j)
  {
  }

  /** From a state in which core 0 publishes and nobody is late, to the end of the round. */
  lemma FinishCalling(u: State) returns (acts: seq<Action>)
    requires Inv(u) && u.pc == PublishEntry && AllAwaitInit(u)
    ensures var z := Run(u, acts);
            Inv(z) && z.pc == ClearStatus && z.round == u.round + 1 && AllCalled(u, z, if u.result != 0 then [u.result] else [])
  {
    hide Inv, Step, Run, CanFinish, AllAwaitInit, Late, LateBeside, IsLate, CallLaw, SlaveCallLaw;
    InvShape(u);
    var w := Step(u, Master(0));
    StepKeepsInv(u, Master(0));
    PublishedCanFinish(u, 0);
    var more := FinishesFrom(w, 0);
    var before, a := more[..|more| - 1], more[|more| - 1];
    var y := Run(w, before);
    assert before + [a] == more;
    RunOne(w, before, a);
    RunInv(w, before);
    StepKeepsInv(y, a);
    LastStep(y, a);
    CallLawHolds(u, 0, before);
    CoreZeroCalled(u, y);
    forall j | 1 <= j < |u.slaves| ensures y.slaves[j].calls == u.slaves[j].calls + if u.result != 0 then [u.result] else [] {
      SlaveCallLawHolds(u, 0, before, j);
      SlaveCalled(u, y, j);
    }
    RunCons(u, Master(0), more);
    acts := [Master(0)] + more;
  }

  lemma CoreZeroCalled(u: State, y: State)
    requires CallLaw(u, y) && y.pc.AwaitLoopBack? && !Late(u)
    ensures y.calls == u.calls + if u.result != 0 then [u.result] else []
  {
  }

  lemma SlaveCalled(u: State, y: State, j: nat)
    requires 1 <= j < |u.slaves| == |y.slaves| && SlaveCallLaw(u, y, j) && y.round == u.round
    requires !Late(u) && y.slaves[j].round > y.round
    ensures y.slaves[j].calls == u.slaves[j].calls + if u.result != 0 then [u.result] else []
  {
    assert !IsLate(u, j);
  }

  lemma {:induction false} RunInv(t: State, acts: seq<Action>)
    requires Inv(t)
    ensures 1 <= |t.slaves| == |t.slaveStatus| && Inv(Run(t, acts))
    decreases |acts|
  {
    hide Inv, Step;
    InvShape(t);
    if acts != [] {
      RunInv(t, acts[..|acts| - 1]);
      StepKeepsInv(Run(t, acts[..|acts| - 1]), acts[|acts| - 1]);
    }
  }

  lemma OneProgram(t: State, result: nat) returns (acts: seq<Action>)
    requires Inv(t) && t.pc == ClearStatus
    ensures var z := Run(t, acts);
            Inv(z) && z.pc == ClearStatus && z.round == t.round + 1 && AllCalled(t, z, if result != 0 then [result] else [])
  {
    hide Inv, Step, Run, AllAwaitInit;
    InvShape(t);
    var a := ToPublish(t, result);
    var u := Run(t, a);
    var b := FinishCalling(u);
    RunBoth(t, a, b);
    acts := a + b;
  }

  function Programs(results: seq<nat>): seq<nat> {
    if results == [] then [] else (if results[0] != 0 then [results[0]] else []) + Programs(results[1..])
  }

  lemma {:induction false} ProgramsFrom(t: State, results: seq<nat>) returns (acts: seq<Action>)
    requires Inv(t) && t.pc == ClearStatus
    ensures 1 <= |t.slaves| == |t.slaveStatus|
    ensures var z := Run(t, acts); z.round == t.round + |results| && AllCalled(t, z, Programs(results))
    decreases |results|
  {
    hide Inv, Run, AllCalled;
    InvShape(t);
    if results == [] {
      RunNothing(t);
      NothingCalled(t);
      acts := [];
    } else {
      var a := OneProgram(t, results[0]);
      var b := ProgramsFrom(Run(t, a), results[1..]);
      RunBoth(t, a, b);
      acts := a + b;
      CalledBoth(t, Run(t, a), Run(t, acts), if results[0] != 0 then [results[0]] else [], Programs(results[1..]));
    }
  }

  lemma NothingCalled(t: State)
    ensures AllCalled(t, t, [])
  {
  }

  lemma CalledBoth(t: State, u: State, z: State, a: seq<nat>, b: seq<nat>)
    requires AllCalled(t, u, a) && AllCalled(u, z, b)
    ensures AllCalled(t, z, a + b)
  {
    forall j | 1 <= j < |t.slaves| ensures z.slaves[j].calls == t.slaves[j].calls + (a + b) {
      assert u.slaves[j].calls == t.slaves[j].calls + a;
    }
  }

  /** From power-up, with any number of cores and whatever the downloads return, some interleaving has all cores run
      every program in order, once each. */
  lemma AllProgramsCanRun(s: State, results: seq<nat>) returns (acts: seq<Action>)
    requires PowerUp(s)
    ensures var z := Run(s, acts);
            && z.round == |results| && z.calls == s.calls + Programs(results)
            && forall j :: 1 <= j < |s.slaves| ==> z.slaves[j].calls == Programs(results)
  {
    hide Run;
    PowerUpInv(s);
    acts := ProgramsFrom(s, results);
  }
}
