/** c/bootloader/bootloader.c: core 0 and the other cores meet through status words in
    shared memory. Every step below is one access to such a word; an execution is any
    interleaving of the cores' steps. */
module Handshake {
  /** Other stands for whatever a previous run left behind. */
  datatype Status = Null | Boot | Init | Return | Other

  /** Where core 0 is. Loop counters are part of the program counter. */
  datatype MasterPc =
    | ClearStatus | ClearEntry | ClearSlave(i: nat) | Announce(k: nat) | Downloading | PublishEntry
    | PublishInit | AwaitAck(i: nat) | CheckEntry | RunApp | CheckDone(i: nat) | AwaitDone(i: nat)
    | PublishReturn | AwaitLoopBack(i: nat)

  datatype SlavePc =
    | WipeStatus | WipeEntry | WipeOwn | SayBoot | AwaitBoot | AwaitInit | Acknowledge
    | LookUpEntry | RunSlave | SayReturn | AwaitReturn | Retire

  /** `round` counts the times the core has gone through its boot code; `calls` lists the addresses
      it has jumped to. */
  datatype Slave = Slave(pc: SlavePc, round: nat, acks: nat, calls: seq<nat>)

  /** `entry` and `result` are code addresses, 0 for NULL; `result` is what the last
      `download` returned and `downloads` how many have returned; `calls` lists what core 0 has jumped to. */
  datatype State = State(
    status: Status, entry: nat, slaveStatus: seq<Status>,
    pc: MasterPc, round: nat, result: nat, downloads: nat, calls: seq<nat>, slaves: seq<Slave>)

  /** Core 0 moves (its next download would return `result`), or core j does. */
  datatype Action = Master(result: nat) | Core(j: nat)

  /** Power-up: every core at its first instruction, shared memory arbitrary. */
  predicate PowerUp(s: State) {
    && 1 <= |s.slaves| == |s.slaveStatus|
    && s.pc == ClearStatus && s.round == 0 && s.downloads == 0
    && forall j :: 1 <= j < |s.slaves| ==> s.slaves[j] == Slave(WipeStatus, 0, 0, [])
  }

  function MasterStep(s: State, result: nat): State
    requires 1 <= |s.slaves| == |s.slaveStatus|
  {
    var n := |s.slaves|;
    match s.pc
    case ClearStatus => s.(status := Null, pc := ClearEntry)
    case ClearEntry => s.(entry := 0, pc := ClearSlave(0))
    case ClearSlave(i) =>
      if i < n then s.(slaveStatus := s.slaveStatus[i := Null], pc := ClearSlave(i + 1)) else s.(pc := Announce(0))
    case Announce(k) => if k < 16 then s.(status := Boot, pc := Announce(k + 1)) else s.(pc := Downloading)
    case Downloading => s.(result := result, downloads := s.downloads + 1, pc := PublishEntry)
    case PublishEntry => s.(entry := s.result, pc := PublishInit)
    case PublishInit => s.(status := Init, pc := AwaitAck(1))
    case AwaitAck(i) =>
      if i >= n then s.(pc := CheckEntry)
      else if s.slaveStatus[i] == Init then s.(pc := AwaitAck(i + 1)) else s
    case CheckEntry => s.(pc := if s.entry != 0 then RunApp else CheckDone(1))
    case RunApp => s.(calls := s.calls + [s.entry], pc := CheckDone(1))
    case CheckDone(i) =>
      if i >= n then s.(pc := PublishReturn)
      else if s.slaveStatus[i] != Null then s.(pc := AwaitDone(i)) else s.(pc := CheckDone(i + 1))
    case AwaitDone(i) =>
      if i < n && s.slaveStatus[i] != Return then s else s.(pc := CheckDone(i + 1))
    case PublishReturn => s.(status := Return, pc := AwaitLoopBack(1))
    case AwaitLoopBack(i) =>
      if i >= n then s.(pc := ClearStatus, round := s.round + 1)
      else if s.slaveStatus[i] == Return then s else s.(pc := AwaitLoopBack(i + 1))
  }

  function Goto(s: State, j: nat, pc: SlavePc): State
    requires j < |s.slaves|
  {
    s.(slaves := s.slaves[j := s.slaves[j].(pc := pc)])
  }

  function Say(s: State, j: nat, v: Status, pc: SlavePc): State
    requires j < |s.slaves| == |s.slaveStatus|
  {
    Goto(s.(slaveStatus := s.slaveStatus[j := v]), j, pc)
  }

  function SlaveStep(s: State, j: nat): State
    requires 1 <= j < |s.slaves| == |s.slaveStatus|
  {
    match s.slaves[j].pc
    case WipeStatus => Goto(s.(status := Null), j, WipeEntry)
    case WipeEntry => Goto(s.(entry := 0), j, WipeOwn)
    case WipeOwn => Say(s, j, Null, SayBoot)
    case SayBoot => Say(s, j, Boot, AwaitBoot)
    case AwaitBoot => Goto(s, j, if s.status != Boot then SayBoot else AwaitInit)
    case AwaitInit => if s.status != Init then s else Goto(s, j, Acknowledge)
    case Acknowledge =>
      var t := Say(s, j, Init, LookUpEntry);
      t.(slaves := t.slaves[j := t.slaves[j].(acks := t.slaves[j].acks + 1)])
    case LookUpEntry => Goto(s, j, if s.entry != 0 then RunSlave else SayReturn)
    case RunSlave =>
      var t := Goto(s, j, SayReturn);
      t.(slaves := t.slaves[j := t.slaves[j].(calls := t.slaves[j].calls + [s.entry])])
    case SayReturn => Say(s, j, Return, AwaitReturn)
    case AwaitReturn => Goto(s, j, if s.status != Return then SayReturn else Retire)
    case Retire =>
      var t := Say(s, j, Null, WipeStatus);
      t.(slaves := t.slaves[j := t.slaves[j].(round := t.slaves[j].round + 1)])
  }

  function Step(s: State, a: Action): State
    requires 1 <= |s.slaves| == |s.slaveStatus|
  {
    match a
    case Master(result) => MasterStep(s, result)
    case Core(j) => if 1 <= j < |s.slaves| then SlaveStep(s, j) else s
  }

  function Run(s: State, acts: seq<Action>): (t: State)
    requires 1 <= |s.slaves| == |s.slaveStatus|
    ensures |t.slaves| == |t.slaveStatus| == |s.slaves|
    decreases |acts|
  {
    if acts == [] then s else Step(Run(s, acts[..|acts| - 1]), acts[|acts| - 1])
  }

  // --------------------------------------------------------------- the invariant

  /** Core 0 has not yet told the others to start in its current round. */
  predicate Early(pc: MasterPc) {
    pc.ClearStatus? || pc.ClearEntry? || pc.ClearSlave? || pc.Announce? || pc.Downloading? || pc.PublishEntry? || pc.PublishInit?
  }

  predicate Announced(pc: MasterPc) {
    pc.Announce? || pc.Downloading? || pc.PublishEntry? || pc.PublishInit?
  }

  predicate Waiting(pc: SlavePc) {
    pc.WipeStatus? || pc.WipeEntry? || pc.WipeOwn? || pc.SayBoot? || pc.AwaitBoot? || pc.AwaitInit?
  }

  /** Past the start wait. */
  predicate Released(pc: SlavePc) { !Waiting(pc) }

  predicate Acked(pc: SlavePc) {
    pc.LookUpEntry? || pc.RunSlave? || pc.SayReturn? || pc.AwaitReturn? || pc.Retire?
  }

  /** Core 0's own clearing, or the slave's, has removed what an earlier run left. */
  predicate OwnCleared(s: State, j: nat)
    requires j < |s.slaves|
  {
    s.round > 0 || (s.pc.ClearSlave? && j < s.pc.i) || Announced(s.pc)
    || s.slaves[j].pc.SayBoot? || s.slaves[j].pc.AwaitBoot? || s.slaves[j].pc.AwaitInit?
  }

  predicate EarlyInv(s: State, j: nat)
    requires j < |s.slaves| == |s.slaveStatus|
  {
    var c := s.slaves[j];
    && c.round == c.acks == s.round && Waiting(c.pc)
    && (c.pc != WipeStatus ==> s.status == Null || (s.status == Boot && Announced(s.pc)))
    && (c.pc == AwaitInit ==> Announced(s.pc))
    && (OwnCleared(s, j) ==> s.slaveStatus[j] == Null || s.slaveStatus[j] == Boot)
  }

  predicate OwnStatus(c: Slave, v: Status) {
    if Waiting(c.pc) || c.pc == Acknowledge then v == Null || v == Boot
    else if c.pc == LookUpEntry || c.pc == RunSlave then v == Init
    else if c.pc == SayReturn then v == Init || v == Return
    else v == Return
  }

  predicate MustHaveAcked(pc: MasterPc, j: nat) {
    if pc.AwaitAck? then j < pc.i else true
  }

  predicate MustBeDone(pc: MasterPc, j: nat) {
    pc.PublishReturn? || (pc.CheckDone? && j < pc.i) || (pc.AwaitDone? && j < pc.i)
  }

  predicate MiddleInv(s: State, j: nat)
    requires j < |s.slaves| == |s.slaveStatus|
  {
    var c := s.slaves[j];
    && c.round == s.round && c.pc != Retire
    && c.acks == (if Acked(c.pc) then s.round + 1 else s.round)
    && OwnStatus(c, s.slaveStatus[j])
    && (MustHaveAcked(s.pc, j) ==> Acked(c.pc))
    && (MustBeDone(s.pc, j) ==> s.slaveStatus[j] == Return)
  }

  predicate LateInv(s: State, j: nat)
    requires j < |s.slaves| == |s.slaveStatus|
    requires s.pc.AwaitLoopBack?
  {
    var c := s.slaves[j];
    && c.acks == s.round + 1
    && if c.round == s.round then
         && s.pc.i <= j && s.slaveStatus[j] == Return
         && (c.pc == SayReturn || c.pc == AwaitReturn || c.pc == Retire)
       else
         && c.round == s.round + 1 && Waiting(c.pc) && c.pc != AwaitInit
         && (s.slaveStatus[j] == Null || s.slaveStatus[j] == Boot)
         && (c.pc != WipeStatus ==> s.status == Null)
  }

  predicate CoreInv(s: State, j: nat)
    requires j < |s.slaves| == |s.slaveStatus|
  {
    if Early(s.pc) then EarlyInv(s, j) else if s.pc.AwaitLoopBack? then LateInv(s, j) else MiddleInv(s, j)
  }

  /** What core 0 knows by itself. */
  predicate MasterInv(s: State) {
    && (!Early(s.pc) && !s.pc.AwaitLoopBack? ==> s.status == Null || s.status == Init)
    && (s.pc.AwaitLoopBack? ==> s.status == Null || s.status == Return)
    && s.downloads == (if Early(s.pc) && !s.pc.PublishEntry? && !s.pc.PublishInit? then s.round else s.round + 1)
    && ((s.pc.PublishInit? || !Early(s.pc)) ==> s.entry == 0 || s.entry == s.result)
    && (s.pc.RunApp? ==> s.entry == s.result != 0)
    && (s.pc.ClearEntry? || s.pc.ClearSlave? || s.pc == Announce(0) ==> s.status == Null)
    && (s.pc.ClearSlave? || s.pc.Announce? || s.pc.Downloading? || s.pc.PublishEntry? ==> s.entry == 0)
    && ((s.pc.AwaitAck? || s.pc.CheckDone? || s.pc.AwaitDone? || s.pc.AwaitLoopBack?) ==> s.pc.i >= 1)
  }

  predicate Inv(s: State) {
    && 1 <= |s.slaves| == |s.slaveStatus|
    && MasterInv(s)
    && forall j :: 1 <= j < |s.slaves| ==> CoreInv(s, j)
  }

  lemma PowerUpInv(s: State)
    requires PowerUp(s)
    ensures Inv(s)
  {
  }

  lemma MasterStepKeepsCore(s: State, result: nat, j: nat)
    requires Inv(s) && 1 <= j < |s.slaves|
    ensures CoreInv(MasterStep(s, result), j)
  {
    assert CoreInv(s, j);
  }

  lemma MasterStepKeepsInv(s: State, result: nat)
    requires Inv(s)
    ensures Inv(MasterStep(s, result))
  {
    forall j | 1 <= j < |s.slaves| ensures CoreInv(MasterStep(s, result), j) {
      MasterStepKeepsCore(s, result, j);
    }
    assert MasterInv(MasterStep(s, result));
  }

  lemma SlaveStepKeepsOwn(s: State, j: nat)
    requires Inv(s) && 1 <= j < |s.slaves|
    ensures CoreInv(SlaveStep(s, j), j)
  {
    hide SlaveStep, EarlyInv, MiddleInv, LateInv, MasterInv;
    assert CoreInv(s, j);
    SlaveStepShape(s, j);
    if Early(s.pc) {
      EarlyOwn(s, j);
    } else if s.pc.AwaitLoopBack? {
      LateOwn(s, j);
    } else {
      MiddleOwn(s, j);
    }
  }

  lemma EarlyOwn(s: State, j: nat)
    requires 1 <= j < |s.slaves| == |s.slaveStatus| && MasterInv(s) && Early(s.pc) && EarlyInv(s, j)
    ensures EarlyInv(SlaveStep(s, j), j)
  {
  }

  lemma MiddleOwn(s: State, j: nat)
    requires 1 <= j < |s.slaves| == |s.slaveStatus| && MasterInv(s) && MiddleInv(s, j)
    requires !Early(s.pc) && !s.pc.AwaitLoopBack?
    ensures MiddleInv(SlaveStep(s, j), j)
  {
  }

  lemma LateOwn(s: State, j: nat)
    requires 1 <= j < |s.slaves| == |s.slaveStatus| && MasterInv(s) && s.pc.AwaitLoopBack? && LateInv(s, j)
    ensures SlaveStep(s, j).pc == s.pc && LateInv(SlaveStep(s, j), j)
  {
  }

  lemma SlaveStepKeepsOther(s: State, j: nat, k: nat)
    requires Inv(s) && 1 <= j < |s.slaves| && 1 <= k < |s.slaves| && j != k
    ensures CoreInv(SlaveStep(s, j), k)
  {
    assert CoreInv(s, j) && CoreInv(s, k);
    var t := SlaveStep(s, j);
    assert t.slaves[k] == s.slaves[k] && t.slaveStatus[k] == s.slaveStatus[k];
    assert t.status == s.status || t.status == Null;
  }

  lemma SlaveStepKeepsMaster(s: State, j: nat)
    requires Inv(s) && 1 <= j < |s.slaves|
    ensures MasterInv(SlaveStep(s, j))
  {
    assert CoreInv(s, j);
  }

  lemma StepKeepsInv(s: State, a: Action)
    requires Inv(s)
    ensures Inv(Step(s, a))
  {
    hide CoreInv, MasterInv, SlaveStep, MasterStep;
    match a
    case Master(result) => MasterStepKeepsInv(s, result);
    case Core(j) =>
      if 1 <= j < |s.slaves| {
        SlaveStepShape(s, j);
        SlaveStepKeepsMaster(s, j);
        forall k | 1 <= k < |s.slaves| ensures CoreInv(SlaveStep(s, j), k) {
          if k == j { SlaveStepKeepsOwn(s, j); } else { SlaveStepKeepsOther(s, j, k); }
        }
      }
  }

  lemma SlaveStepShape(s: State, j: nat)
    requires 1 <= j < |s.slaves| == |s.slaveStatus|
    ensures |SlaveStep(s, j).slaves| == |SlaveStep(s, j).slaveStatus| == |s.slaves| && SlaveStep(s, j).pc == s.pc
  {
  }

  lemma {:induction false} RunKeepsInv(s: State, acts: seq<Action>)
    requires PowerUp(s)
    ensures Inv(Run(s, acts))
    decreases |acts|
  {
    hide Inv, Step, PowerUp;
    PowerUpShape(s);
    if acts == [] {
      PowerUpInv(s);
    } else {
      RunKeepsInv(s, acts[..|acts| - 1]);
      StepKeepsInv(Run(s, acts[..|acts| - 1]), acts[|acts| - 1]);
    }
  }

  lemma PowerUpShape(s: State)
    requires PowerUp(s)
    ensures 1 <= |s.slaves| == |s.slaveStatus|
  {
  }

  // ---------------------------------------------------------------- the promises

  /** In every interleaving a core gets past its start wait only after core 0's download of
      the same round has returned. */
  lemma SlaveStartsAfterDownload(s: State, acts: seq<Action>, j: nat)
    requires PowerUp(s) && 1 <= j < |s.slaves|
    ensures var t := Run(s, acts); Released(t.slaves[j].pc) ==> t.downloads > t.slaves[j].round
  {
    hide Run;
    RunKeepsInv(s, acts);
    assert CoreInv(Run(s, acts), j);
  }

  /** Core 0 is past its acknowledge loop in the current round. */
  predicate Starting(pc: MasterPc) {
    !Early(pc) && !pc.AwaitAck?
  }

  /** Core 0 looks up and runs the application only after every core has acknowledged as
      many rounds as core 0 has begun. */
  lemma MasterStartsAfterAcks(s: State, acts: seq<Action>, j: nat)
    requires PowerUp(s) && 1 <= j < |s.slaves|
    ensures var t := Run(s, acts); Starting(t.pc) ==> t.slaves[j].acks == t.round + 1
  {
    hide Run;
    RunKeepsInv(s, acts);
    assert CoreInv(Run(s, acts), j);
  }

  /** No core is ever more than one round ahead of another; nobody is behind core 0. */
  lemma RoundsStayTogether(s: State, acts: seq<Action>, j: nat, k: nat)
    requires PowerUp(s) && 1 <= j < |s.slaves| && 1 <= k < |s.slaves|
    ensures var t := Run(s, acts);
            && t.round <= t.slaves[j].round <= t.round + 1
            && t.slaves[j].round <= t.slaves[k].round + 1
  {
    hide Run;
    RunKeepsInv(s, acts);
    assert CoreInv(Run(s, acts), j) && CoreInv(Run(s, acts), k);
  }

  /** Nothing that an earlier run left in the status word or the entry pointer survives core 0's first two stores. */
  lemma LeftoversCleared(s: State, acts: seq<Action>)
    requires PowerUp(s)
    ensures var t := Run(s, acts);
            && (t.pc.ClearEntry? || t.pc.ClearSlave? ==> t.status == Null)
            && (t.pc.ClearSlave? || t.pc.Announce? || t.pc.Downloading? || t.pc.PublishEntry? ==> t.entry == 0)
  {
    hide Run;
    RunKeepsInv(s, acts);
  }

  /** Nobody ever sees an entry point of an earlier round or run: a released core that looks it
      up finds this round's download result or NULL, and core 0 runs exactly the result. */
  lemma EntryIsThisRounds(s: State, acts: seq<Action>, j: nat)
    requires PowerUp(s) && 1 <= j < |s.slaves|
    ensures var t := Run(s, acts);
            && (t.slaves[j].pc == LookUpEntry || t.slaves[j].pc == RunSlave ==> t.entry == 0 || t.entry == t.result)
            && (t.pc == RunApp ==> t.entry == t.result != 0)
  {
    hide Run;
    RunKeepsInv(s, acts);
    assert CoreInv(Run(s, acts), j);
  }

  // ------------------------------------------------ losing the entry point

  /** A core that has yet to make its first two stores in this round; the second clears the entry pointer. */
  predicate IsLate(s: State, j: int) {
    1 <= j < |s.slaves| && s.slaves[j].pc in {WipeStatus, WipeEntry}
  }

  ghost predicate Late(s: State) {
    exists j :: IsLate(s, j)
  }

  ghost predicate LateBeside(s: State, j: nat) {
    exists k :: k != j && IsLate(s, k)
  }

  predicate Published(pc: MasterPc) {
    pc.PublishInit? || (!Early(pc) && !pc.AwaitLoopBack?)
  }

  /** What becomes of the entry pointer, by whether a core was late when it was published. */
  ghost predicate Fate(late: bool, t: State) {
    Published(t.pc) && if late then t.entry == 0 || Late(t) else t.entry == t.result && !Late(t)
  }

  lemma FateStarts(u: State, result: nat)
    requires Inv(u) && u.pc == PublishEntry
    ensures Fate(Late(u), Step(u, Master(result)))
  {
    var t := Step(u, Master(result));
    assert forall j :: IsLate(u, j) <==> IsLate(t, j);
  }

  /** What a slave's step does while the pointer is published. */
  lemma SlaveWhilePublished(t: State, j: nat)
    requires Inv(t) && Published(t.pc) && 1 <= j < |t.slaves|
    ensures var v := SlaveStep(t, j);
            && v.pc == t.pc && v.round == t.round && v.result == t.result && |v.slaves| == |t.slaves|
            && v.entry == (if t.slaves[j].pc == WipeEntry then 0 else t.entry)
            && (IsLate(v, j) <==> t.slaves[j].pc == WipeStatus)
            && (forall k :: k != j && 0 <= k < |t.slaves| ==> v.slaves[k] == t.slaves[k])
  {
    hide MasterInv, OwnStatus, OwnCleared;
    assert CoreInv(t, j);
  }

  lemma MasterWhilePublished(t: State, result: nat)
    requires Inv(t) && Published(t.pc)
    ensures var v := MasterStep(t, result);
            && v.round == t.round && v.result == t.result && v.slaves == t.slaves && v.entry == t.entry
            && (Published(v.pc) || v.pc.AwaitLoopBack?)
  {
    hide CoreInv;
  }

  lemma FateStep(late: bool, t: State, a: Action)
    requires Inv(t) && Fate(late, t)
    ensures var v := Step(t, a); Fate(late, v) || (v.pc.AwaitLoopBack? && v.round == t.round)
  {
    hide Inv, SlaveStep, MasterStep, Published;
    InvShape(t);
    var v := Step(t, a);
    if a.Master? {
      MasterWhilePublished(t, a.result);
      assert forall j :: IsLate(t, j) <==> IsLate(v, j);
    } else if 1 <= a.j < |t.slaves| {
      SlaveWhilePublished(t, a.j);
      assert forall j :: IsLate(v, j) ==> IsLate(t, j);
      assert t.slaves[a.j].pc == WipeEntry ==> IsLate(t, a.j);
      if Late(t) && v.entry != 0 {
        var k :| IsLate(t, k);
        assert IsLate(v, k);
      }
    }
  }

  lemma RoundsGrow(t: State, a: Action)
    requires 1 <= |t.slaves| == |t.slaveStatus|
    ensures Step(t, a).round >= t.round
    ensures t.pc.AwaitLoopBack? && Step(t, a).round == t.round ==> Step(t, a).pc.AwaitLoopBack?
  {
  }

  lemma {:induction false} FateHolds(u: State, result: nat, acts: seq<Action>)
    requires Inv(u) && u.pc == PublishEntry
    ensures Inv(Step(u, Master(result)))
    ensures var t := Run(Step(u, Master(result)), acts);
            Inv(t) && t.round >= u.round && (t.round == u.round ==> Fate(Late(u), t) || t.pc.AwaitLoopBack?)
    decreases |acts|
  {
    hide Inv, Step, Fate;
    InvShape(u);
    StepKeepsInv(u, Master(result));
    InvShape(Step(u, Master(result)));
    if acts == [] {
      FateStarts(u, result);
      RoundsGrow(u, Master(result));
    } else {
      var before, a := acts[..|acts| - 1], acts[|acts| - 1];
      FateHolds(u, result, before);
      var t := Run(Step(u, Master(result)), before);
      InvShape(t);
      StepKeepsInv(t, a);
      RoundsGrow(t, a);
      if Fate(Late(u), t) { FateStep(Late(u), t, a); }
    }
  }

  lemma InvShape(s: State)
    requires Inv(s)
    ensures 1 <= |s.slaves| == |s.slaveStatus|
  {
  }

  /** When core 0 looks up the entry pointer, runs the application and waits for it to return, the
      pointer is the download's result, unless a core had yet to make its first two stores when
      core 0 published it: then it is NULL. */
  lemma EntryLostIffLate(s: State, before: seq<Action>, result: nat, acts: seq<Action>)
    requires PowerUp(s) && Run(s, before).pc == PublishEntry
    ensures var u := Run(s, before); var t := Run(Step(u, Master(result)), acts);
            t.round == u.round && Starting(t.pc) && !t.pc.AwaitLoopBack?
            ==> t.entry == if Late(u) then 0 else t.result
  {
    hide Run, Step, Fate;
    var u := Run(s, before);
    RunKeepsInv(s, before);
    FateHolds(u, result, acts);
    var t := Run(Step(u, Master(result)), acts);
    if t.round == u.round && Starting(t.pc) && !t.pc.AwaitLoopBack? {
      FateDecides(Late(u), t);
    }
  }

  lemma FateDecides(late: bool, t: State)
    requires Inv(t) && Fate(late, t) && Starting(t.pc)
    ensures t.entry == if late then 0 else t.result
  {
    forall j ensures !IsLate(t, j) {
      if 1 <= j < |t.slaves| { assert CoreInv(t, j); }
    }
  }

  // ------------------------------------------------------- what core 0 jumps to

  /** Core 0 has made the call of this round, or passed it by. */
  predicate PastCall(pc: MasterPc) {
    pc.CheckDone? || pc.AwaitDone? || pc.PublishReturn? || pc.AwaitLoopBack?
  }

  /** The one call that core 0 owes after publishing in state u. */
  ghost function Due(u: State): seq<nat> {
    if u.result != 0 && !Late(u) then [u.result] else []
  }

  ghost predicate CallLaw(u: State, t: State) {
    && t.result == u.result
    && t.calls == (if PastCall(t.pc) then u.calls + Due(u) else u.calls)
  }

  lemma CallLawStep(u: State, t: State, a: Action)
    requires Inv(t) && t.round == u.round && CallLaw(u, t) && (Fate(Late(u), t) || t.pc.AwaitLoopBack?)
    ensures var v := Step(t, a); v.round == u.round ==> CallLaw(u, v)
  {
    hide CoreInv, Fate, SlaveStep, Late;
    if a.Core? {
      if 1 <= a.j < |t.slaves| { SlaveLeavesCalls(t, a.j); }
    } else if t.pc == CheckEntry || t.pc == RunApp {
      FateDecides(Late(u), t);
    } else if !t.pc.AwaitLoopBack? {
      FatePublished(Late(u), t);
    }
  }

  lemma SlaveLeavesCalls(t: State, j: nat)
    requires 1 <= j < |t.slaves| == |t.slaveStatus|
    ensures var v := SlaveStep(t, j); v.pc == t.pc && v.round == t.round && v.result == t.result && v.calls == t.calls
  {
  }

  lemma {:induction false} CallLawHolds(u: State, result: nat, acts: seq<Action>)
    requires Inv(u) && u.pc == PublishEntry
    ensures Inv(Step(u, Master(result)))
    ensures var t := Run(Step(u, Master(result)), acts); t.round == u.round ==> CallLaw(u, t)
    decreases |acts|
  {
    hide Inv, Step, Fate, CallLaw;
    InvShape(u);
    FateHolds(u, result, acts);
    InvShape(Step(u, Master(result)));
    if acts == [] {
      CallLawStarts(u, result);
    } else {
      var before, a := acts[..|acts| - 1], acts[|acts| - 1];
      CallLawHolds(u, result, before);
      FateHolds(u, result, before);
      var t := Run(Step(u, Master(result)), before);
      InvShape(t);
      RoundsGrow(t, a);
      if t.round == u.round { CallLawStep(u, t, a); }
    }
  }

  lemma CallLawStarts(u: State, result: nat)
    requires 1 <= |u.slaves| == |u.slaveStatus| && u.pc == PublishEntry
    ensures CallLaw(u, Step(u, Master(result)))
  {
  }

  /** In the round core 0 publishes in, once it is past the call it has jumped to the download's result exactly once if
      there is one and no core was late, and nowhere otherwise; before the call it has jumped nowhere. */
  lemma CallsResultIffNotLate(s: State, before: seq<Action>, result: nat, acts: seq<Action>)
    requires PowerUp(s) && Run(s, before).pc == PublishEntry
    ensures var u := Run(s, before); var t := Run(Step(u, Master(result)), acts);
            t.round == u.round ==>
              t.calls == u.calls + if PastCall(t.pc) && u.result != 0 && !Late(u) then [u.result] else []
  {
    hide Run, Step, Late;
    RunKeepsInv(s, before);
    CallLawHolds(Run(s, before), result, acts);
  }

  // ------------------------------------------------------ what a slave jumps to

  /** Core j reads the pointer a second time for its call. */
  ghost predicate SafeCall(t: State, j: nat)
    requires j < |t.slaves|
  {
    !LateBeside(t, j) && (t.slaves[j].pc == RunSlave ==> t.entry == t.result != 0)
  }

  lemma SafeCallStep(t: State, a: Action, j: nat)
    requires Inv(t) && Published(t.pc) && 1 <= j < |t.slaves| && SafeCall(t, j)
    ensures var v := Step(t, a); |v.slaves| == |t.slaves| && (Published(v.pc) ==> SafeCall(v, j))
  {
    hide Inv, SlaveStep, MasterStep, Published;
    InvShape(t);
    var v := Step(t, a);
    if a.Master? {
      MasterWhilePublished(t, a.result);
      assert forall k :: IsLate(t, k) <==> IsLate(v, k);
    } else if 1 <= a.j < |t.slaves| {
      SlaveWhilePublished(t, a.j);
      assert forall k :: IsLate(v, k) ==> IsLate(t, k);
      if a.j == j {
        StartsCallWithEntry(t, j);
      } else {
        assert !IsLate(t, a.j);
      }
    }
  }

  lemma StartsCallWithEntry(t: State, j: nat)
    requires Inv(t) && Published(t.pc) && 1 <= j < |t.slaves|
    ensures SlaveStep(t, j).slaves[j].pc == RunSlave ==> t.slaves[j].pc != WipeEntry && t.entry == t.result != 0
  {
    hide CoreInv;
  }

  lemma {:induction false} SafeCallHolds(u: State, result: nat, acts: seq<Action>, j: nat)
    requires Inv(u) && u.pc == PublishEntry && 1 <= j < |u.slaves| && !LateBeside(u, j)
    ensures Inv(Step(u, Master(result)))
    ensures var t := Run(Step(u, Master(result)), acts); t.round == u.round && Published(t.pc) ==> SafeCall(t, j)
    decreases |acts|
  {
    hide Inv, Step, Fate, Published, SafeCall;
    InvShape(u);
    StepShape(u, Master(result));
    FateHolds(u, result, acts);
    InvShape(Step(u, Master(result)));
    if acts == [] {
      SafeCallStarts(u, result, j);
    } else {
      var before, a := acts[..|acts| - 1], acts[|acts| - 1];
      SafeCallHolds(u, result, before, j);
      FateHolds(u, result, before);
      var t := Run(Step(u, Master(result)), before);
      InvShape(t);
      RoundsGrow(t, a);
      if Fate(Late(u), t) {
        FatePublished(Late(u), t);
        if t.round == u.round { SafeCallStep(t, a, j); }
      } else if t.round == u.round {
        LoopBackIsNotPublished(Step(t, a).pc);
      }
    }
  }

  lemma StepShape(s: State, a: Action)
    requires 1 <= |s.slaves| == |s.slaveStatus|
    ensures |Step(s, a).slaves| == |Step(s, a).slaveStatus| == |s.slaves|
  {
  }

  lemma SafeCallStarts(u: State, result: nat, j: nat)
    requires Inv(u) && u.pc == PublishEntry && 1 <= j < |u.slaves| && !LateBeside(u, j)
    ensures SafeCall(Step(u, Master(result)), j)
  {
    var t := Step(u, Master(result));
    assert CoreInv(u, j);
    assert forall k :: IsLate(u, k) <==> IsLate(t, k);
  }

  lemma FatePublished(late: bool, t: State)
    requires Fate(late, t)
    ensures Published(t.pc)
  {
  }

  lemma LoopBackIsNotPublished(pc: MasterPc)
    ensures pc.AwaitLoopBack? ==> !Published(pc)
  {
  }

  /** A core that found an entry point jumps to the download's result, unless some other core was late
      when core 0 published it. */
  lemma SlaveCallsResult(s: State, before: seq<Action>, result: nat, acts: seq<Action>, j: nat)
    requires PowerUp(s) && Run(s, before).pc == PublishEntry && 1 <= j < |s.slaves| && !LateBeside(Run(s, before), j)
    ensures var u := Run(s, before); var t := Run(Step(u, Master(result)), acts);
            t.round == u.round && Published(t.pc) && t.slaves[j].pc == RunSlave
            ==> t.entry == t.result != 0 && Step(t, Core(j)).slaves[j].calls == t.slaves[j].calls + [t.result]
  {
    hide Run, Published;
    var u := Run(s, before);
    RunKeepsInv(s, before);
    SafeCallHolds(u, result, acts, j);
  }

  /** Core j has made the call of this round, or passed it by. */
  predicate SlavePast(c: Slave, round: nat) {
    c.round > round || c.pc in {SayReturn, AwaitReturn, Retire}
  }

  function SlaveDue(u: State, j: nat): seq<nat> {
    if u.result != 0 && !IsLate(u, j) then [u.result] else []
  }

  predicate SlaveCallLaw(u: State, t: State, j: nat)
    requires j < |u.slaves| && j < |t.slaves|
  {
    && t.result == u.result
    && t.slaves[j].calls == u.slaves[j].calls + if SlavePast(t.slaves[j], u.round) then SlaveDue(u, j) else []
  }

  lemma SlaveCallLawStarts(u: State, result: nat, j: nat)
    requires Inv(u) && u.pc == PublishEntry && 1 <= j < |u.slaves|
    ensures |Step(u, Master(result)).slaves| == |u.slaves| && SlaveCallLaw(u, Step(u, Master(result)), j)
  {
    assert CoreInv(u, j);
  }

  lemma SlaveCallLawStep(u: State, t: State, a: Action, j: nat)
    requires Inv(t) && 1 <= j < |t.slaves| == |u.slaves| && t.round == u.round && !LateBeside(u, j) && SlaveCallLaw(u, t, j)
    requires t.pc.AwaitLoopBack? || (Fate(Late(u), t) && SafeCall(t, j))
    ensures var v := Step(t, a); |v.slaves| == |t.slaves| && (v.round == u.round ==> SlaveCallLaw(u, v, j))
  {
    hide Inv, CoreInv, Fate, SafeCall, SlaveStep, Late, LateBeside;
    InvShape(t);
    StepShape(t, a);
    if !t.pc.AwaitLoopBack? { FatePublished(Late(u), t); }
    if a.Core? && a.j == j {
      if t.pc.AwaitLoopBack? {
        LateCallLaw(u, t, j);
      } else {
        LookUpFinds(u, t, j);
        OwnCallLaw(u, t, j);
      }
    } else if a.Core? && 1 <= a.j < |t.slaves| {
      BystanderStep(t, a.j, j);
      SlaveLeavesCalls(t, a.j);
    }
  }

  lemma LateCallLaw(u: State, t: State, j: nat)
    requires Inv(t) && 1 <= j < |t.slaves| == |u.slaves| && t.round == u.round && t.pc.AwaitLoopBack? && SlaveCallLaw(u, t, j)
    ensures |SlaveStep(t, j).slaves| == |t.slaves| && SlaveCallLaw(u, SlaveStep(t, j), j)
  {
    assert CoreInv(t, j);
  }

  lemma OwnCallLaw(u: State, t: State, j: nat)
    requires Inv(t) && 1 <= j < |t.slaves| == |u.slaves| && t.round == u.round && Published(t.pc) && SlaveCallLaw(u, t, j)
    requires t.slaves[j].pc in {LookUpEntry, RunSlave} ==> t.entry == (if IsLate(u, j) then 0 else u.result)
    requires t.slaves[j].pc == RunSlave ==> t.entry != 0
    ensures |SlaveStep(t, j).slaves| == |t.slaves| && SlaveCallLaw(u, SlaveStep(t, j), j)
  {
    assert CoreInv(t, j);
  }

  lemma LookUpFinds(u: State, t: State, j: nat)
    requires Inv(t) && 1 <= j < |t.slaves| == |u.slaves| && !LateBeside(u, j) && Fate(Late(u), t) && SafeCall(t, j)
    requires t.result == u.result
    ensures t.slaves[j].pc in {LookUpEntry, RunSlave} ==> t.entry == if IsLate(u, j) then 0 else u.result
    ensures t.slaves[j].pc == RunSlave ==> t.entry != 0
    ensures Published(t.pc)
  {
    assert Late(u) <==> IsLate(u, j);
    if t.slaves[j].pc in {LookUpEntry, RunSlave} {
      assert !Late(t);
    }
  }

  lemma {:induction false} SlaveCallLawHolds(u: State, result: nat, acts: seq<Action>, j: nat)
    requires Inv(u) && u.pc == PublishEntry && 1 <= j < |u.slaves| && !LateBeside(u, j)
    ensures Inv(Step(u, Master(result)))
    ensures var t := Run(Step(u, Master(result)), acts);
            |t.slaves| == |u.slaves| && (t.round == u.round ==> SlaveCallLaw(u, t, j))
    decreases |acts|
  {
    hide Inv, Step, Fate, SlaveCallLaw, SafeCall, LateBeside;
    InvShape(u);
    StepShape(u, Master(result));
    FateHolds(u, result, acts);
    InvShape(Step(u, Master(result)));
    if acts == [] {
      SlaveCallLawStarts(u, result, j);
    } else {
      var before, a := acts[..|acts| - 1], acts[|acts| - 1];
      SlaveCallLawHolds(u, result, before, j);
      FateHolds(u, result, before);
      SafeCallHolds(u, result, before, j);
      var t := Run(Step(u, Master(result)), before);
      InvShape(t);
      RoundsGrow(t, a);
      if t.round == u.round {
        if Fate(Late(u), t) { FatePublished(Late(u), t); }
        SlaveCallLawStep(u, t, a, j);
      }
    }
  }

  /** If no other core was late when core 0 published, core j jumps in that round to the download's result exactly once
      if there is one and core j itself was not late, and nowhere otherwise. */
  lemma SlaveCallsResultIffNotLate(s: State, before: seq<Action>, result: nat, acts: seq<Action>, j: nat)
    requires PowerUp(s) && Run(s, before).pc == PublishEntry && 1 <= j < |s.slaves| && !LateBeside(Run(s, before), j)
    ensures var u := Run(s, before); var t := Run(Step(u, Master(result)), acts);
            t.round == u.round ==>
              t.slaves[j].calls == u.slaves[j].calls
                + if SlavePast(t.slaves[j], u.round) && u.result != 0 && !IsLate(u, j) then [u.result] else []
  {
    hide Run, Step, LateBeside;
    RunKeepsInv(s, before);
    SlaveCallLawHolds(Run(s, before), result, acts, j);
  }

  // ------------------------------------------------- exactly when a slave can jump to NULL

  /** In this round core j will not make the call with the pointer cleared under it: it clears the pointer itself
      before it looks, or finds it clear, or waits for a status that does not come back. */
  predicate Shielded(t: State, j: nat)
    requires 1 <= j < |t.slaves|
  {
    || IsLate(t, j)
    || (t.entry == 0 && t.slaves[j].pc != RunSlave)
    || (t.status != Boot && t.slaves[j].pc in {WipeOwn, SayBoot, AwaitBoot})
  }

  lemma ShieldedStep(t: State, a: Action, j: nat)
    requires Inv(t) && Published(t.pc) && 1 <= j < |t.slaves| && Shielded(t, j)
    ensures var v := Step(t, a); |v.slaves| == |t.slaves| && (Published(v.pc) ==> Shielded(v, j))
  {
    hide Inv, CoreInv, MasterInv;
    InvShape(t);
    if a.Core? && 1 <= a.j < |t.slaves| && a.j != j {
      BystanderStep(t, a.j, j);
    } else if a.Core? && a.j == j {
      OwnShieldedStep(t, j);
    }
  }

  lemma BystanderStep(t: State, k: nat, j: nat)
    requires 1 <= k < |t.slaves| == |t.slaveStatus| && 1 <= j < |t.slaves| && k != j
    ensures var v := SlaveStep(t, k);
            && v.slaves[j] == t.slaves[j] && (v.entry == t.entry || v.entry == 0) && (v.status == t.status || v.status == Null)
  {
  }

  lemma OwnShieldedStep(t: State, j: nat)
    requires 1 <= j < |t.slaves| == |t.slaveStatus| && Shielded(t, j)
    ensures var v := SlaveStep(t, j); |v.slaves| == |t.slaves| && Shielded(v, j)
  {
  }

  lemma {:induction false} ShieldedHolds(u: State, result: nat, acts: seq<Action>, j: nat)
    requires Inv(u) && u.pc == PublishEntry && 1 <= j < |u.slaves| && Shielded(Step(u, Master(result)), j)
    ensures Inv(Step(u, Master(result)))
    ensures var t := Run(Step(u, Master(result)), acts); t.round == u.round && Published(t.pc) ==> Shielded(t, j)
    decreases |acts|
  {
    hide Inv, Step, Fate, Published, Shielded;
    InvShape(u);
    StepShape(u, Master(result));
    FateHolds(u, result, acts);
    InvShape(Step(u, Master(result)));
    if acts != [] {
      var before, a := acts[..|acts| - 1], acts[|acts| - 1];
      ShieldedHolds(u, result, before, j);
      FateHolds(u, result, before);
      var t := Run(Step(u, Master(result)), before);
      InvShape(t);
      RoundsGrow(t, a);
      if Fate(Late(u), t) {
        FatePublished(Late(u), t);
        if t.round == u.round { ShieldedStep(t, a, j); }
      } else if t.round == u.round {
        LoopBackIsNotPublished(Step(t, a).pc);
      }
    }
  }

  /** The state in which core 0 publishes decides: there is an entry point to lose, another core has yet to clear
      it, core j has not, and nothing keeps core j from being released. */
  ghost predicate Exposed(u: State, j: nat)
    requires 1 <= j < |u.slaves|
  {
    u.result != 0 && LateBeside(u, j) && !IsLate(u, j) && (u.status == Boot || u.slaves[j].pc == AwaitInit)
  }

  /** Core j is about to call through a pointer that is NULL, in the round core 0 published in. */
  predicate CallsNull(t: State, round: nat, j: nat) {
    1 <= j < |t.slaves| && t.round == round && Published(t.pc) && t.slaves[j].pc == RunSlave && t.entry == 0
  }

  lemma NotExposedIsSafe(u: State, result: nat, acts: seq<Action>, j: nat)
    requires Inv(u) && u.pc == PublishEntry && 1 <= j < |u.slaves| && !Exposed(u, j)
    ensures Inv(Step(u, Master(result))) && !CallsNull(Run(Step(u, Master(result)), acts), u.round, j)
  {
    hide Inv, Run, Step, Published;
    FateHolds(u, result, acts);
    if !LateBeside(u, j) {
      SafeCallHolds(u, result, acts, j);
    } else {
      ShieldedStarts(u, result, j);
      ShieldedHolds(u, result, acts, j);
    }
  }

  lemma ShieldedStarts(u: State, result: nat, j: nat)
    requires Inv(u) && u.pc == PublishEntry && 1 <= j < |u.slaves| && LateBeside(u, j) && !Exposed(u, j)
    ensures |Step(u, Master(result)).slaves| == |u.slaves| && Shielded(Step(u, Master(result)), j)
  {
    assert CoreInv(u, j);
  }

  /** Core j alone, up to the wait for the start. */
  lemma ToAwaitInit(v: State, j: nat) returns (acts: seq<Action>)
    requires 1 <= j < |v.slaves| == |v.slaveStatus|
    requires v.slaves[j].pc == AwaitInit || (v.status == Boot && v.slaves[j].pc in {WipeOwn, SayBoot, AwaitBoot})
    ensures var t := Run(v, acts);
            t == v.(slaveStatus := t.slaveStatus, slaves := v.slaves[j := v.slaves[j].(pc := AwaitInit)])
    decreases match v.slaves[j].pc case WipeOwn => 3 case SayBoot => 2 case AwaitBoot => 1 case _ => 0
  {
    hide Run;
    if v.slaves[j].pc == AwaitInit {
      acts := [];
      RunNothing(v);
    } else {
      var w := Step(v, Core(j));
      var more := ToAwaitInit(w, j);
      RunCons(v, Core(j), more);
      acts := [Core(j)] + more;
    }
  }

  lemma {:induction false} RunCons(s: State, a: Action, acts: seq<Action>)
    requires 1 <= |s.slaves| == |s.slaveStatus|
    ensures |Step(s, a).slaves| == |Step(s, a).slaveStatus| == |s.slaves|
    ensures Run(s, [a] + acts) == Run(Step(s, a), acts)
    decreases |acts|
  {
    hide Step;
    StepShape(s, a);
    if acts == [] {
      RunOne(s, [], a);
      RunNothing(s);
      RunNothing(Step(s, a));
    } else {
      RunCons(s, a, acts[..|acts| - 1]);
      assert ([a] + acts)[..|acts|] == [a] + acts[..|acts| - 1];
    }
  }

  /** Released, looked up, and then the other core clears the pointer. */
  lemma CalledTooLate(v: State, j: nat, k: int) returns (acts: seq<Action>)
    requires 1 <= j < |v.slaves| == |v.slaveStatus| && v.pc == PublishInit && v.slaves[j].pc == AwaitInit
    requires v.entry != 0 && k != j && IsLate(v, k)
    ensures CallsNull(Run(v, acts), v.round, j)
  {
    hide Run;
    RunNothing(v);
    var a := Step(v, Master(0));
    var b := Step(a, Core(j));
    var c := Step(b, Core(j));
    var d := Step(c, Core(j));
    acts := Then(v, [], v, Master(0), a);
    acts := Then(v, acts, a, Core(j), b);
    acts := Then(v, acts, b, Core(j), c);
    acts := Then(v, acts, c, Core(j), d);
    assert d.slaves[j].pc == RunSlave && d.slaves[k] == v.slaves[k] && d.entry == v.entry;
    if v.slaves[k].pc == WipeStatus {
      var e := Step(d, Core(k));
      acts := Then(v, acts, d, Core(k), e);
      acts := Then(v, acts, e, Core(k), Step(e, Core(k)));
    } else {
      acts := Then(v, acts, d, Core(k), Step(d, Core(k)));
    }
  }

  lemma {:induction false} RunBoth(s: State, a: seq<Action>, b: seq<Action>)
    requires 1 <= |s.slaves| == |s.slaveStatus|
    ensures Run(s, a + b) == Run(Run(s, a), b)
    decreases |b|
  {
    hide Step;
    if b == [] {
      assert a + b == a;
    } else {
      RunBoth(s, a, b[..|b| - 1]);
      assert (a + b)[..|a + b| - 1] == a + b[..|b| - 1];
    }
  }

  lemma ExposedCanCallNull(u: State, result: nat, j: nat) returns (acts: seq<Action>)
    requires Inv(u) && u.pc == PublishEntry && 1 <= j < |u.slaves| && Exposed(u, j)
    ensures Inv(Step(u, Master(result))) && CallsNull(Run(Step(u, Master(result)), acts), u.round, j)
  {
    hide Run, Inv;
    StepKeepsInv(u, Master(result));
    InvShape(u);
    var v := Step(u, Master(result));
    ReleasableStart(u, j);
    var k :| k != j && IsLate(u, k);
    var a := ToAwaitInit(v, j);
    var w := Run(v, a);
    assert IsLate(w, k);
    var b := CalledTooLate(w, j, k);
    RunBoth(v, a, b);
    acts := a + b;
  }

  lemma ReleasableStart(u: State, j: nat)
    requires Inv(u) && u.pc == PublishEntry && 1 <= j < |u.slaves| && !IsLate(u, j)
    ensures u.slaves[j].pc in {WipeOwn, SayBoot, AwaitBoot, AwaitInit}
  {
    assert CoreInv(u, j);
  }

  /** In the round core 0 publishes in, core j can come to jump to NULL if and only if it is exposed when core 0
      publishes. */
  lemma CanCallNullIff(s: State, before: seq<Action>, result: nat, j: nat)
    requires PowerUp(s) && Run(s, before).pc == PublishEntry && 1 <= j < |s.slaves|
    ensures var u := Run(s, before);
            |Step(u, Master(result)).slaves| == |Step(u, Master(result)).slaveStatus| == |s.slaves|
            && (Exposed(u, j) <==> exists acts :: CallsNull(Run(Step(u, Master(result)), acts), u.round, j))
  {
    hide Run, Inv, Exposed, CallsNull, Step;
    var u := Run(s, before);
    RunKeepsInv(s, before);
    StepShape(u, Master(result));
    if Exposed(u, j) {
      var acts := ExposedCanCallNull(u, result, j);
    } else {
      forall acts ensures !CallsNull(Run(Step(u, Master(result)), acts), u.round, j) {
        NotExposedIsSafe(u, result, acts, j);
      }
    }
  }

  lemma RunOne(s: State, acts: seq<Action>, a: Action)
    requires 1 <= |s.slaves| == |s.slaveStatus|
    ensures Run(s, acts + [a]) == Step(Run(s, acts), a)
  {
    assert (acts + [a])[..|acts + [a]| - 1] == acts;
  }

  lemma {:induction false} AnnounceAll(s: State, acts: seq<Action>, k: nat) returns (more: seq<Action>)
    requires 1 <= |s.slaves| == |s.slaveStatus| && k <= 16 && Run(s, acts).pc == Announce(k)
    ensures Run(s, more) == Run(s, acts).(status := if k < 16 then Boot else Run(s, acts).status, pc := Downloading)
    decreases 16 - k
  {
    hide Run;
    RunOne(s, acts, Master(7));
    more := acts + [Master(7)];
    if k < 16 { more := AnnounceAll(s, more, k + 1); }
  }

  lemma Then(s: State, acts: seq<Action>, t: State, a: Action, u: State) returns (more: seq<Action>)
    requires 1 <= |s.slaves| == |s.slaveStatus| && Run(s, acts) == t
    requires 1 <= |t.slaves| == |t.slaveStatus| && Step(t, a) == u
    ensures more == acts + [a] && Run(s, more) == u
  {
    hide Run, Step;
    RunOne(s, acts, a);
    more := acts + [a];
  }

  /** Two cores; core 1 is slow between its first two stores. Core 0 has its download and the
      acknowledgement, yet runs no application. */
  lemma EntryCanBeLost() returns (s: State, acts: seq<Action>)
    ensures PowerUp(s) && |s.slaves| == 2
    ensures var t := Run(s, acts);
            && t.result == 7 && t.downloads == 1 && t.slaves[1].acks == 1
            && t.entry == 0 && t.pc == CheckDone(1)
  {
    hide Run;
    var idle := Slave(WipeStatus, 0, 0, []);
    s := State(Other, 5, [Other, Other], ClearStatus, 0, 0, 0, [], [idle, idle]);
    RunNothing(s);
    acts := [];
    var t := s;
    var slow := [idle, Slave(WipeEntry, 0, 0, [])];
    acts := Then(s, acts, t, Core(1), State(Null, 5, [Other, Other], ClearStatus, 0, 0, 0, [], slow));
    acts := Then(s, acts, Run(s, acts), Master(7), State(Null, 5, [Other, Other], ClearEntry, 0, 0, 0, [], slow));
    acts := Then(s, acts, Run(s, acts), Master(7), State(Null, 0, [Other, Other], ClearSlave(0), 0, 0, 0, [], slow));
    acts := Then(s, acts, Run(s, acts), Master(7), State(Null, 0, [Null, Other], ClearSlave(1), 0, 0, 0, [], slow));
    acts := Then(s, acts, Run(s, acts), Master(7), State(Null, 0, [Null, Null], ClearSlave(2), 0, 0, 0, [], slow));
    acts := Then(s, acts, Run(s, acts), Master(7), State(Null, 0, [Null, Null], Announce(0), 0, 0, 0, [], slow));
    acts := AnnounceAll(s, acts, 0);
    acts := Then(s, acts, Run(s, acts), Master(7), State(Boot, 0, [Null, Null], PublishEntry, 0, 7, 1, [], slow));
    acts := Then(s, acts, Run(s, acts), Master(7), State(Boot, 7, [Null, Null], PublishInit, 0, 7, 1, [], slow));
    acts := Then(s, acts, Run(s, acts), Core(1), State(Boot, 0, [Null, Null], PublishInit, 0, 7, 1, [], [idle, Slave(WipeOwn, 0, 0, [])]));
    acts := LostEntryTail(s, acts);
  }

  lemma {:induction false} ClearAll(s: State, acts: seq<Action>, i: nat) returns (more: seq<Action>)
    requires 1 <= |s.slaves| == |s.slaveStatus| && i <= |s.slaves| && Run(s, acts).pc == ClearSlave(i)
    requires forall k :: 0 <= k < i ==> Run(s, acts).slaveStatus[k] == Null
    ensures Run(s, more) == Run(s, acts).(slaveStatus := Run(s, more).slaveStatus, pc := Announce(0))
    ensures forall k :: 0 <= k < |s.slaves| ==> Run(s, more).slaveStatus[k] == Null
    decreases |s.slaves| - i
  {
    hide Run;
    assert |Run(s, acts).slaves| == |Run(s, acts).slaveStatus| == |s.slaves|;
    RunOne(s, acts, Master(7));
    more := acts + [Master(7)];
    if i < |s.slaves| { more := ClearAll(s, more, i + 1); }
  }

  /** Three cores; core 2 is slow before its second store. Core 1 finds the entry point and jumps to NULL. */
  lemma SlaveCanJumpToNull() returns (s: State, acts: seq<Action>)
    ensures PowerUp(s) && |s.slaves| == 3
    ensures var t := Run(s, acts); t.result == 7 && t.slaves[1].calls == [0]
  {
    hide Run;
    var idle := Slave(WipeStatus, 0, 0, []);
    var slow := Slave(WipeEntry, 0, 0, []);
    var left := [Other, Other, Other];
    s := State(Other, 5, left, ClearStatus, 0, 0, 0, [], [idle, idle, idle]);
    RunNothing(s);
    acts := [];
    acts := Then(s, acts, s, Core(2), State(Null, 5, left, ClearStatus, 0, 0, 0, [], [idle, idle, slow]));
    acts := Then(s, acts, Run(s, acts), Core(1), State(Null, 5, left, ClearStatus, 0, 0, 0, [], [idle, slow, slow]));
    acts := Then(s, acts, Run(s, acts), Core(1), State(Null, 0, left, ClearStatus, 0, 0, 0, [], [idle, Slave(WipeOwn, 0, 0, []), slow]));
    acts := Then(s, acts, Run(s, acts), Core(1), State(Null, 0, [Other, Null, Other], ClearStatus, 0, 0, 0, [], [idle, Slave(SayBoot, 0, 0, []), slow]));
    acts := Then(s, acts, Run(s, acts), Master(7), State(Null, 0, [Other, Null, Other], ClearEntry, 0, 0, 0, [], [idle, Slave(SayBoot, 0, 0, []), slow]));
    acts := Then(s, acts, Run(s, acts), Master(7), State(Null, 0, [Other, Null, Other], ClearSlave(0), 0, 0, 0, [], [idle, Slave(SayBoot, 0, 0, []), slow]));
    acts := ClearAll(s, acts, 0);
    assert Run(s, acts).slaveStatus == [Null, Null, Null];
    acts := AnnounceAll(s, acts, 0);
    acts := NullJumpTail(s, acts);
  }

  lemma NullJumpTail(s: State, acts0: seq<Action>) returns (acts: seq<Action>)
    requires 1 <= |s.slaves| == |s.slaveStatus|
    requires Run(s, acts0) == State(Boot, 0, [Null, Null, Null], Downloading, 0, 0, 0, [],
                                    [Slave(WipeStatus, 0, 0, []), Slave(SayBoot, 0, 0, []), Slave(WipeEntry, 0, 0, [])])
    ensures var t := Run(s, acts); |t.slaves| == 3 && t.result == 7 && t.slaves[1].calls == [0]
  {
    hide Run;
    var idle := Slave(WipeStatus, 0, 0, []);
    var slow := Slave(WipeEntry, 0, 0, []);
    var own := [Null, Boot, Null];
    var none: seq<nat> := [];
    assert none + [0] == [0];
    acts := acts0;
    acts := Then(s, acts, Run(s, acts), Core(1), State(Boot, 0, own, Downloading, 0, 0, 0, [], [idle, Slave(AwaitBoot, 0, 0, []), slow]));
    acts := Then(s, acts, Run(s, acts), Core(1), State(Boot, 0, own, Downloading, 0, 0, 0, [], [idle, Slave(AwaitInit, 0, 0, []), slow]));
    acts := Then(s, acts, Run(s, acts), Master(7), State(Boot, 0, own, PublishEntry, 0, 7, 1, [], [idle, Slave(AwaitInit, 0, 0, []), slow]));
    acts := Then(s, acts, Run(s, acts), Master(7), State(Boot, 7, own, PublishInit, 0, 7, 1, [], [idle, Slave(AwaitInit, 0, 0, []), slow]));
    acts := Then(s, acts, Run(s, acts), Master(7), State(Init, 7, own, AwaitAck(1), 0, 7, 1, [], [idle, Slave(AwaitInit, 0, 0, []), slow]));
    acts := Then(s, acts, Run(s, acts), Core(1), State(Init, 7, own, AwaitAck(1), 0, 7, 1, [], [idle, Slave(Acknowledge, 0, 0, []), slow]));
    acts := Then(s, acts, Run(s, acts), Core(1), State(Init, 7, [Null, Init, Null], AwaitAck(1), 0, 7, 1, [], [idle, Slave(LookUpEntry, 0, 1, []), slow]));
    acts := Then(s, acts, Run(s, acts), Core(1), State(Init, 7, [Null, Init, Null], AwaitAck(1), 0, 7, 1, [], [idle, Slave(RunSlave, 0, 1, []), slow]));
    acts := Then(s, acts, Run(s, acts), Core(2), State(Init, 0, [Null, Init, Null], AwaitAck(1), 0, 7, 1, [], [idle, Slave(RunSlave, 0, 1, []), Slave(WipeOwn, 0, 0, [])]));
    acts := Then(s, acts, Run(s, acts), Core(1), State(Init, 0, [Null, Init, Null], AwaitAck(1), 0, 7, 1, [], [idle, Slave(SayReturn, 0, 1, [0]), Slave(WipeOwn, 0, 0, [])]));
  }

  lemma RunNothing(s: State)
    requires 1 <= |s.slaves| == |s.slaveStatus|
    ensures Run(s, []) == s
  {
  }

  lemma LostEntryTail(s: State, acts0: seq<Action>) returns (acts: seq<Action>)
    requires 1 <= |s.slaves| == |s.slaveStatus|
    requires Run(s, acts0) == State(Boot, 0, [Null, Null], PublishInit, 0, 7, 1, [], [Slave(WipeStatus, 0, 0, []), Slave(WipeOwn, 0, 0, [])])
    ensures var t := Run(s, acts);
            && |t.slaves| == 2 && t.result == 7 && t.downloads == 1 && t.slaves[1].acks == 1
            && t.entry == 0 && t.pc == CheckDone(1)
  {
    hide Run;
    var idle := Slave(WipeStatus, 0, 0, []);
    acts := acts0;
    acts := Then(s, acts, Run(s, acts), Core(1), State(Boot, 0, [Null, Null], PublishInit, 0, 7, 1, [], [idle, Slave(SayBoot, 0, 0, [])]));
    acts := Then(s, acts, Run(s, acts), Core(1), State(Boot, 0, [Null, Boot], PublishInit, 0, 7, 1, [], [idle, Slave(AwaitBoot, 0, 0, [])]));
    acts := Then(s, acts, Run(s, acts), Core(1), State(Boot, 0, [Null, Boot], PublishInit, 0, 7, 1, [], [idle, Slave(AwaitInit, 0, 0, [])]));
    acts := Then(s, acts, Run(s, acts), Master(7), State(Init, 0, [Null, Boot], AwaitAck(1), 0, 7, 1, [], [idle, Slave(AwaitInit, 0, 0, [])]));
    acts := Then(s, acts, Run(s, acts), Core(1), State(Init, 0, [Null, Boot], AwaitAck(1), 0, 7, 1, [], [idle, Slave(Acknowledge, 0, 0, [])]));
    acts := Then(s, acts, Run(s, acts), Core(1), State(Init, 0, [Null, Init], AwaitAck(1), 0, 7, 1, [], [idle, Slave(LookUpEntry, 0, 1, [])]));
    acts := Then(s, acts, Run(s, acts), Master(7), State(Init, 0, [Null, Init], AwaitAck(2), 0, 7, 1, [], [idle, Slave(LookUpEntry, 0, 1, [])]));
    acts := Then(s, acts, Run(s, acts), Master(7), State(Init, 0, [Null, Init], CheckEntry, 0, 7, 1, [], [idle, Slave(LookUpEntry, 0, 1, [])]));
    acts := Then(s, acts, Run(s, acts), Master(7), State(Init, 0, [Null, Init], CheckDone(1), 0, 7, 1, [], [idle, Slave(LookUpEntry, 0, 1, [])]));
  }
}
