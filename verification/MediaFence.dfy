/** The fence of the media workers over every run, however starts and stops overlap: exactly when a
    returned stop has fenced the tasks begun so far, exactly which tasks can still start the
    workers, and exactly when an early return finds the workers down. */
module MediaFence {
  import opened MediaLifecycle

  // ---------------------------------------------------------------- what every step keeps

  predicate WorkersAreDown(pc: StopPc) {
    pc.WorkersStopped? || pc.Cleared? || pc.FencedAgain?
  }

  predicate OwnerAtGate(s: State) {
    match s.gate
    case Free => true
    case ByTask(i) => i < |s.tasks| && HoldsGate(s.tasks[i].pc)
    case ByStop(j) => j < |s.stops| && StopHoldsGate(s.stops[j])
  }

  ghost predicate DownUnderGate(s: State) {
    forall j :: 0 <= j < |s.stops| && WorkersAreDown(s.stops[j]) ==> !s.workers
  }

  /** Kept by every step, whatever overlaps. */
  ghost predicate AlwaysHolds(s: State) {
    EpochsBounded(s) && TasksRespectGate(s) && StopsRespectGate(s) && OwnerAtGate(s) && DownUnderGate(s)
  }

  lemma StepKeepsDown(s: State, a: Action)
    requires AlwaysHolds(s) && Enabled(s, a)
    ensures DownUnderGate(Apply(s, a))
  {
  }

  lemma StepKeepsOwner(s: State, a: Action)
    requires AlwaysHolds(s) && Enabled(s, a)
    ensures OwnerAtGate(Apply(s, a))
  {
  }

  lemma StepKeepsAlways(s: State, a: Action)
    requires AlwaysHolds(s)
    ensures AlwaysHolds(Next(s, a))
  {
    if Enabled(s, a) {
      StepKeepsTaskGate(s, a);
      StepKeepsStopGate(s, a);
      StepKeepsOwner(s, a);
      StepKeepsDown(s, a);
      hide TasksRespectGate, StopsRespectGate, OwnerAtGate, DownUnderGate;
      TasksOnlyAge(s, a);
    }
  }

  lemma {:induction false} AlwaysHoldsInRun(actions: seq<Action>)
    ensures AlwaysHolds(Run(actions))
  {
    hide Next;
    if actions == [] {
      assert AlwaysHolds(INIT);
    } else {
      AlwaysHoldsInRun(actions[..|actions| - 1]);
      StepKeepsAlways(Run(actions[..|actions| - 1]), actions[|actions| - 1]);
    }
  }

  // ---------------------------------------------------------------- the fence of a returned stop

  /** The last bump of the epoch was a start's: no stop has bumped it since. */
  ghost predicate StartBumpedLast(actions: seq<Action>) {
    actions != [] &&
    var before, a := actions[..|actions| - 1], actions[|actions| - 1];
    if !Enabled(Run(before), a) then StartBumpedLast(before)
    else a.StartSpawn? || (!a.StopBump? && !a.StopFences? && StartBumpedLast(before))
  }

  ghost predicate LastTaskIsCurrent(s: State) {
    |s.tasks| > 0 && s.tasks[|s.tasks| - 1].epoch == s.epoch
  }

  lemma StepMovesFence(s: State, a: Action)
    requires EpochsBounded(s) && Enabled(s, a)
    requires AllStale(s) || LastTaskIsCurrent(s)
    ensures var t := Apply(s, a);
            && (a.StartSpawn? ==> LastTaskIsCurrent(t))
            && (a.StopBump? || a.StopFences? ==> AllStale(t))
            && (!a.StartSpawn? && !a.StopBump? && !a.StopFences? ==>
                  (AllStale(s) ==> AllStale(t)) && (LastTaskIsCurrent(s) ==> LastTaskIsCurrent(t)))
  {
    var t := Apply(s, a);
    TasksOnlyAge(s, a);
    if !a.StartSpawn? {
      assert |t.tasks| == |s.tasks|;
      if AllStale(s) {
        assert forall i :: 0 <= i < |t.tasks| ==> Stale(s, i);
      }
    }
  }

  lemma {:induction false} BumpsDecideFence(actions: seq<Action>)
    ensures var s := Run(actions);
            if StartBumpedLast(actions) then LastTaskIsCurrent(s) else AllStale(s)
  {
    if actions != [] {
      var before, a := actions[..|actions| - 1], actions[|actions| - 1];
      BumpsDecideFence(before);
      AlwaysHoldsInRun(before);
      if Enabled(Run(before), a) {
        hide Apply, Enabled;
        StepMovesFence(Run(before), a);
      }
    }
  }

  lemma ReturnMovesNoEpoch(s: State, stop: nat)
    requires Enabled(s, StopReturns(stop))
    ensures LastTaskIsCurrent(s) ==> !AllStale(Next(s, StopReturns(stop)))
    ensures AllStale(s) ==> AllStale(Next(s, StopReturns(stop)))
  {
    var t := Next(s, StopReturns(stop));
    assert t.tasks == s.tasks && t.epoch == s.epoch;
    if LastTaskIsCurrent(s) {
      assert !Stale(t, |t.tasks| - 1);
    }
    if AllStale(s) {
      forall i | 0 <= i < |t.tasks| ensures Stale(t, i) {
        assert Stale(s, i);
      }
    }
  }

  /** In every run: a returning stop has fenced every task begun so far exactly when no start has
      bumped the epoch after the last bump of a stop. */
  lemma ReturnFencesIff(actions: seq<Action>, stop: nat)
    requires Enabled(Run(actions), StopReturns(stop))
    ensures AllStale(Next(Run(actions), StopReturns(stop))) <==> !StartBumpedLast(actions)
  {
    BumpsDecideFence(actions);
    ReturnMovesNoEpoch(Run(actions), stop);
  }

  // ---------------------------------------------------------------- which tasks can still start

  function Continue(s: State, more: seq<Action>): State
    decreases |more|
  {
    if more == [] then s else Continue(Next(s, more[0]), more[1..])
  }

  /** The task is finished, or has a newer epoch against it before its second check, or is kept from
      the gate by a stop that bumps the epoch before it lets go. */
  predicate Out(s: State, i: nat)
    requires i < |s.tasks|
  {
    var pc := s.tasks[i].pc;
    || pc.TaskDone?
    || (Stale(s, i) && !pc.Passed?)
    || (!HoldsGate(pc) && s.gate.ByStop? && (StopAt(s, s.gate.stop, WorkersStopped) || StopAt(s, s.gate.stop, Cleared)))
  }

  /** A stop that has stopped the workers keeps the gate until it has bumped the epoch. */
  lemma KeptFromGate(s: State, a: Action, i: nat)
    requires EpochsBounded(s) && StopsRespectGate(s) && Enabled(s, a)
    requires i < |s.tasks| && !HoldsGate(s.tasks[i].pc) && s.gate.ByStop?
    requires StopAt(s, s.gate.stop, WorkersStopped) || StopAt(s, s.gate.stop, Cleared)
    requires TasksRespectGate(s)
    ensures i < |Apply(s, a).tasks| && Out(Apply(s, a), i)
  {
    assert s.tasks[i].epoch <= s.epoch;
    if a.StopFences? && a.stop == s.gate.stop {
      assert Stale(Apply(s, a), i);
    } else {
      assert Apply(s, a).gate == s.gate by {
        assert forall j :: 0 <= j < |s.stops| && StopHoldsGate(s.stops[j]) ==> j == s.gate.stop;
      }
    }
  }

  lemma OutStays(s: State, a: Action, i: nat)
    requires AlwaysHolds(s) && i < |s.tasks| && Out(s, i)
    ensures i < |Next(s, a).tasks| && Out(Next(s, a), i)
  {
    hide TasksRespectGate, StopsRespectGate, DownUnderGate, OwnerAtGate, EpochsBounded;
    if Enabled(s, a) {
      if s.tasks[i].pc.TaskDone? || (Stale(s, i) && !s.tasks[i].pc.Passed?) {
        TasksOnlyAge(s, a);
      } else {
        KeptFromGate(s, a, i);
      }
    }
  }

  lemma {:induction false} OutForever(s: State, more: seq<Action>, i: nat, ok: bool)
    requires AlwaysHolds(s) && i < |s.tasks| && Out(s, i)
    ensures !Enabled(Continue(s, more), StartWorkers(i, ok))
    decreases |more|
  {
    hide AlwaysHolds, Next;
    if more != [] {
      OutStays(s, more[0], i);
      StepKeepsAlways(s, more[0]);
      OutForever(Next(s, more[0]), more[1..], i, ok);
    }
  }

  function TaskRank(pc: TaskPc): nat {
    match pc
    case Recovering => 6
    case FirstStartedLoad => 5
    case FirstEpochLoad => 4
    case AwaitingGate => 3
    case AtStartedLoad => 2
    case AtEpochLoad => 1
    case _ => 0
  }

  function GateRank(s: State): nat {
    match s.gate
    case Free => 0
    case ByTask(k) => if k < |s.tasks| then 1 + TaskRank(s.tasks[k].pc) else 0
    case ByStop(_) => 1
  }

  /** The step that makes whoever has the gate let go of it without a bump. */
  function LetGo(s: State): Action
    requires OwnerAtGate(s) && !s.gate.Free?
  {
    match s.gate
    case ByTask(k) =>
      if s.tasks[k].pc.AtStartedLoad? then LoadStarted(k)
      else if s.tasks[k].pc.AtEpochLoad? then LoadEpoch(k)
      else StartWorkers(k, false)
    case ByStop(j) =>
      if s.stops[j].FencedAgain? then StopCompletes(j)
      else if s.stopComplete then StopSeesComplete(j)
      else StopWorkers(j, false)
    case Free => StopCall
  }

  /** The next step on the way of the task to the workers. */
  function Toward(s: State, i: nat): Action
    requires OwnerAtGate(s) && i < |s.tasks|
  {
    match s.tasks[i].pc
    case Recovering => Recovered(i, true)
    case FirstStartedLoad => if s.started then FirstLoadStarted(i) else StartCall
    case FirstEpochLoad => FirstLoadEpoch(i)
    case AwaitingGate => if s.gate.Free? then TaskTakesGate(i) else LetGo(s)
    case AtStartedLoad => if s.started then LoadStarted(i) else StartCall
    case _ => LoadEpoch(i)
  }

  ghost predicate GateMoves(s: State, t: State, i: nat)
    requires i < |s.tasks|
  {
    && t.epoch == s.epoch && |t.tasks| == |s.tasks| && t.tasks[i] == s.tasks[i]
    && (t.gate.Free? || (s.gate.ByTask? && t.gate == s.gate)) && GateRank(t) < GateRank(s)
  }

  lemma TaskLetsGo(s: State, i: nat)
    requires OwnerAtGate(s) && TaskAt(s, i, AwaitingGate) && s.gate.ByTask?
    ensures GateMoves(s, Next(s, LetGo(s)), i)
  {
    hide TasksRespectGate, StopsRespectGate;
    var k := s.gate.task;
    assert k != i;
  }

  lemma StopLetsGo(s: State, i: nat)
    requires OwnerAtGate(s) && TaskAt(s, i, AwaitingGate) && s.gate.ByStop? && !Out(s, i)
    ensures GateMoves(s, Next(s, LetGo(s)), i)
  {
    var j := s.gate.stop;
    assert s.stops[j].Holding? || s.stops[j].FencedAgain?;
  }

  lemma LetGoFrees(s: State, i: nat)
    requires OwnerAtGate(s) && TaskAt(s, i, AwaitingGate) && !s.gate.Free? && !Out(s, i)
    ensures GateMoves(s, Next(s, LetGo(s)), i)
  {
    hide OwnerAtGate, Out, LetGo, Next, GateMoves;
    if s.gate.ByTask? {
      TaskLetsGo(s, i);
    } else {
      StopLetsGo(s, i);
    }
  }

  /** The step advances the task, or the owner of the gate, or sets the flag that the task checks. */
  ghost predicate Closer(s: State, t: State, i: nat)
    requires i < |s.tasks|
  {
    && i < |t.tasks| && t.tasks[i].epoch == s.tasks[i].epoch && t.epoch == s.epoch
    && (|| (TaskRank(t.tasks[i].pc) < TaskRank(s.tasks[i].pc) && !t.tasks[i].pc.TaskDone?)
        || (t.tasks[i].pc == s.tasks[i].pc && GateRank(t) < GateRank(s))
        || (t.tasks[i].pc == s.tasks[i].pc && t.gate == s.gate && GateRank(t) == GateRank(s) &&
            !s.started && t.started))
  }

  lemma TowardGetsCloser(s: State, i: nat)
    requires AlwaysHolds(s) && i < |s.tasks| && !Out(s, i) && !s.tasks[i].pc.Passed?
    ensures Closer(s, Next(s, Toward(s, i)), i)
  {
    hide TasksRespectGate, StopsRespectGate, DownUnderGate;
    assert s.tasks[i].epoch <= s.epoch;
    if s.tasks[i].pc.AwaitingGate? && !s.gate.Free? {
      LetGoFrees(s, i);
    }
  }

  lemma TowardStaysIn(s: State, i: nat)
    requires AlwaysHolds(s) && i < |s.tasks| && !Out(s, i) && !s.tasks[i].pc.Passed?
    ensures i < |Next(s, Toward(s, i)).tasks| && !Out(Next(s, Toward(s, i)), i)
  {
    TowardGetsCloser(s, i);
    assert s.tasks[i].epoch <= s.epoch;
    if s.tasks[i].pc.AwaitingGate? && !s.gate.Free? {
      LetGoFrees(s, i);
    }
  }

  /** A task that is not out can be taken to the workers. */
  lemma {:induction false} WayToStart(s: State, i: nat) returns (more: seq<Action>)
    requires AlwaysHolds(s) && i < |s.tasks| && !Out(s, i)
    ensures Enabled(Continue(s, more), StartWorkers(i, true))
    decreases TaskRank(s.tasks[i].pc), GateRank(s), if s.started then 0 else 1
  {
    if s.tasks[i].pc.Passed? {
      more := [];
    } else {
      hide AlwaysHolds, Next, Toward, Out;
      var a := Toward(s, i);
      TowardGetsCloser(s, i);
      TowardStaysIn(s, i);
      StepKeepsAlways(s, a);
      var rest := WayToStart(Next(s, a), i);
      more := [a] + rest;
      assert more[1..] == rest;
    }
  }

  ghost predicate CanStillStart(s: State, i: nat) {
    exists more :: Enabled(Continue(s, more), StartWorkers(i, true))
  }

  /** In every run: which of the tasks begun so far can still start the workers. */
  lemma CanStartIffNotOut(actions: seq<Action>, i: nat)
    requires i < |Run(actions).tasks|
    ensures CanStillStart(Run(actions), i) <==> !Out(Run(actions), i)
  {
    hide Run, Out, AlwaysHolds, Enabled;
    var s := Run(actions);
    AlwaysHoldsInRun(actions);
    if Out(s, i) {
      forall more ensures !Enabled(Continue(s, more), StartWorkers(i, true)) {
        OutForever(s, more, i, true);
      }
    } else {
      var more := WayToStart(s, i);
    }
  }

  /** So a stop that has fenced every task when it returns keeps out all of them but one that has
      already made its second check. */
  lemma FencedReturnLeavesPassed(actions: seq<Action>, stop: nat, i: nat)
    requires Enabled(Run(actions), StopReturns(stop)) && !StartBumpedLast(actions)
    requires i < |Run(actions).tasks|
    ensures CanStillStart(Next(Run(actions), StopReturns(stop)), i) <==> Run(actions).tasks[i].pc.Passed?
  {
    var longer := actions + [StopReturns(stop)];
    assert longer[..|actions|] == actions;
    CanStartIffNotOut(longer, i);
    ReturnFencesIff(actions, stop);
    assert Stale(Run(longer), i);
  }

  // ---------------------------------------------------------------- early returns

  /** A task has started the workers since the last stop that completed. */
  ghost predicate StartedSinceComplete(actions: seq<Action>) {
    actions != [] &&
    var before, a := actions[..|actions| - 1], actions[|actions| - 1];
    if !Enabled(Run(before), a) then StartedSinceComplete(before)
    else if a.StartWorkers? && a.ok then true
    else !a.StopCompletes? && StartedSinceComplete(before)
  }

  lemma {:induction false} FlagSpeaksOfWorkers(actions: seq<Action>)
    ensures Run(actions).stopComplete ==> (Run(actions).workers <==> StartedSinceComplete(actions))
  {
    if actions != [] {
      var before, a := actions[..|actions| - 1], actions[|actions| - 1];
      FlagSpeaksOfWorkers(before);
      AlwaysHoldsInRun(before);
      if a.StopCompletes? && Enabled(Run(before), a) {
        assert WorkersAreDown(Run(before).stops[a.stop]);
      }
    }
  }

  /** In every run: a stop that returns early finds the workers down exactly when none has been
      started since the completed stop it relies on. */
  lemma EarlyReturnIffNoneStarted(actions: seq<Action>, stop: nat)
    requires Enabled(Run(actions), StopSeesComplete(stop))
    ensures !Next(Run(actions), StopSeesComplete(stop)).workers <==> !StartedSinceComplete(actions)
  {
    FlagSpeaksOfWorkers(actions);
  }

  /** In every run: a stop that goes all the way leaves the workers down when it lets go of the gate. */
  lemma FullStopLeavesWorkersDown(actions: seq<Action>, stop: nat)
    requires Enabled(Run(actions), StopCompletes(stop))
    ensures !Next(Run(actions), StopCompletes(stop)).workers
  {
    AlwaysHoldsInRun(actions);
    assert WorkersAreDown(Run(actions).stops[stop]);
  }

  // ---------------------------------------------------------------- serial runs meet the conditions

  lemma SerialReturnsFence(actions: seq<Action>, stop: nat)
    requires SerialRun(actions) && Enabled(Run(actions), StopReturns(stop))
    ensures !StartBumpedLast(actions)
    ensures forall i :: 0 <= i < |Run(actions).tasks| ==>
              !CanStillStart(Next(Run(actions), StopReturns(stop)), i)
  {
    var t := Next(Run(actions), StopReturns(stop));
    StopReturnedMeansStopped(actions, stop);
    ReturnFencesIff(actions, stop);
    RunKeepsInvariant(actions);
    assert StopHolds(Run(actions), Run(actions).stops[stop]);
    forall i | 0 <= i < |Run(actions).tasks| ensures !CanStillStart(t, i) {
      FencedReturnLeavesPassed(actions, stop, i);
    }
  }

  lemma SerialEarlyReturnsAreSafe(actions: seq<Action>, stop: nat)
    requires SerialRun(actions) && Enabled(Run(actions), StopSeesComplete(stop))
    ensures !StartedSinceComplete(actions)
  {
    RunKeepsInvariant(actions);
    EarlyReturnIffNoneStarted(actions, stop);
  }

  // ---------------------------------------------------------------- starts that no stop overlaps

  /** No start is called while a stop runs. */
  ghost predicate StartsApart(actions: seq<Action>) {
    actions == [] ||
    (var before := actions[..|actions| - 1];
     StartsApart(before) && (actions[|actions| - 1].StartCall? ==> !StopRunning(Run(before))))
  }

  lemma Extend(actions: seq<Action>, a: Action) returns (longer: seq<Action>, s: State)
    requires StartsApart(actions) && (a.StartCall? ==> !StopRunning(Run(actions)))
    ensures longer == actions + [a] && s == Run(longer) == Next(Run(actions), a) && StartsApart(longer)
  {
    longer := actions + [a];
    assert longer[..|actions|] == actions;
    s := Run(longer);
  }

  lemma StopGoesDown(actions: seq<Action>, stop: nat) returns (longer: seq<Action>, s: State)
    requires StartsApart(actions) && StopAt(Run(actions), stop, Bumped)
    requires Run(actions).gate.Free? && !Run(actions).stopComplete
    ensures s == Run(longer) && StartsApart(longer)
    ensures var b := Run(actions);
            s == b.(workers := false, gate := ByStop(stop), stops := b.stops[stop := WorkersStopped])
  {
    hide Run, StartsApart, StopRunning;
    longer, s := Extend(actions, StopTakesGate(stop));
    longer, s := Extend(longer, StopWorkers(stop, true));
    assert s.stops == Run(actions).stops[stop := WorkersStopped];
  }

  lemma StopComesBack(actions: seq<Action>, stop: nat) returns (longer: seq<Action>, s: State)
    requires StartsApart(actions) && StopAt(Run(actions), stop, Cleared)
    ensures s == Run(longer) && StartsApart(longer)
    ensures var b := Run(actions);
            s == b.(stopComplete := true, epoch := b.epoch + 1, gate := Free, stops := b.stops[stop := Returning])
  {
    hide Run, StartsApart, StopRunning;
    longer, s := Extend(actions, StopFences(stop));
    longer, s := Extend(longer, StopCompletes(stop));
    assert s.stops == Run(actions).stops[stop := Returning];
  }

  /** A stop with the gate free and the flag not set goes all the way to its return. */
  lemma WholeStop(actions: seq<Action>, stop: nat) returns (longer: seq<Action>, s: State)
    requires StartsApart(actions) && StopAt(Run(actions), stop, Bumped)
    requires Run(actions).gate.Free? && !Run(actions).stopComplete
    ensures s == Run(longer) && StartsApart(longer)
    ensures var b := Run(actions);
            s == b.(started := false, stopComplete := true, epoch := b.epoch + 1, workers := false,
                    stops := b.stops[stop := Returned(true)], fenced := |b.tasks|)
  {
    hide Run, StartsApart, StopRunning;
    longer, s := StopGoesDown(actions, stop);
    longer, s := Extend(longer, StopClears(stop));
    longer, s := StopComesBack(longer, stop);
    longer, s := Extend(longer, StopReturns(stop));
    assert s.stops == Run(actions).stops[stop := Returned(true)];
  }

  /** A first start has won the swap and reset the flag; then a stop runs to its end. */
  lemma StopOvertakesStart() returns (actions: seq<Action>)
    ensures Run(actions) == State(false, true, 2, Free, false, [], [WasReset], [Returned(true)], 0)
    ensures StartsApart(actions)
  {
    assert StartsApart([]) && Run([]) == INIT;
    hide Run, StartsApart;
    var s;
    actions, s := Extend([], StartCall);
    actions, s := Extend(actions, StartReset(0));
    actions, s := Extend(actions, StopCall);
    actions, s := Extend(actions, StopBump(0));
    assert s.stops == [Bumped] && s.starts == [WasReset];
    actions, s := WholeStop(actions, 0);
    assert s.stops == [Returned(true)];
  }

  /** Only now the first start begins its task; a second one has set the flag and not yet reset
      `stop_complete`, so the task is current. */
  lemma LateTaskRecovers() returns (actions: seq<Action>)
    ensures Run(actions) ==
            State(true, true, 3, Free, false, [Task(3, AwaitingGate)], [StartDone, Swapped], [Returned(true)], 0)
    ensures StartsApart(actions)
  {
    hide Run, StartsApart;
    var s;
    actions := StopOvertakesStart();
    actions, s := Extend(actions, StartSpawn(0));
    actions, s := Extend(actions, StartCall);
    actions, s := Extend(actions, Recovered(0, true));
    actions, s := Extend(actions, FirstLoadStarted(0));
    actions, s := Extend(actions, FirstLoadEpoch(0));
    assert s.tasks == [Task(3, AwaitingGate)] && s.starts == [StartDone, Swapped];
  }

  /** It starts the workers under the flag of the stop before it. */
  lemma LateTaskStarts() returns (actions: seq<Action>)
    ensures Run(actions) ==
            State(true, true, 3, Free, true, [Task(3, TaskDone)], [StartDone, Swapped], [Returned(true)], 0)
    ensures StartsApart(actions)
  {
    hide Run, StartsApart, StopRunning;
    var s;
    actions := LateTaskRecovers();
    actions, s := Extend(actions, TaskTakesGate(0));
    actions, s := Extend(actions, LoadStarted(0));
    actions, s := Extend(actions, LoadEpoch(0));
    actions, s := Extend(actions, StartWorkers(0, true));
    assert s.tasks == [Task(3, TaskDone)];
  }

  /** Although no start is called while a stop runs, a stop can return Ok and leave the workers
      running: it relies on a completed stop that a half-way start has outlived. */
  lemma StaleCompletionLeavesWorkers() returns (actions: seq<Action>)
    ensures StartsApart(actions)
    ensures Run(actions).workers && Run(actions).stops == [Returned(true), Returned(true)]
  {
    hide Run, StartsApart, StopRunning;
    var s;
    actions := LateTaskStarts();
    actions, s := Extend(actions, StopCall);
    assert s.stops == [Returned(true), Called];
    actions, s := Extend(actions, StopBump(1));
    actions, s := Extend(actions, StopTakesGate(1));
    actions, s := Extend(actions, StopSeesComplete(1));
    actions, s := Extend(actions, StopReturns(1));
  }

  /** A first stop runs to its end. */
  lemma StopOnce() returns (actions: seq<Action>)
    ensures Run(actions) == State(false, true, 2, Free, false, [], [], [Returned(true)], 0)
    ensures StartsApart(actions)
  {
    assert StartsApart([]) && Run([]) == INIT;
    hide Run, StartsApart, StopRunning;
    var s;
    actions, s := Extend([], StopCall);
    actions, s := Extend(actions, StopBump(0));
    assert s.stops == [Bumped];
    actions, s := WholeStop(actions, 0);
    assert s.stops == [Returned(true)];
  }

  /** A start gets half-way, and a second stop finds everything stopped already. */
  lemma StopSeesItself() returns (actions: seq<Action>)
    ensures Run(actions) == State(false, true, 3, Free, false, [], [Swapped], [Returned(true), Returning], 0)
    ensures StartsApart(actions)
  {
    hide Run, StartsApart;
    var s;
    actions := StopOnce();
    actions, s := Extend(actions, StartCall);
    actions, s := Extend(actions, StopCall);
    assert s.stops == [Returned(true), Called];
    actions, s := Extend(actions, StopBump(1));
    actions, s := Extend(actions, StopTakesGate(1));
    actions, s := Extend(actions, StopSeesComplete(1));
    assert s.stops == [Returned(true), Returning] && s.starts == [Swapped];
  }

  /** The start goes on and begins its task, and only then the stop returns. */
  lemma StartOverlapsStop() returns (actions: seq<Action>)
    ensures Run(actions) ==
            State(false, false, 4, Free, false, [Task(4, Recovering)], [StartDone], [Returned(true), Returned(true)], 1)
    ensures StartsApart(actions)
  {
    hide Run, StartsApart, StopRunning;
    var s;
    actions := StopSeesItself();
    actions, s := Extend(actions, StartReset(0));
    actions, s := Extend(actions, StartSpawn(0));
    actions, s := Extend(actions, StopReturns(1));
    assert s.stops == [Returned(true), Returned(true)] && s.starts == [StartDone];
  }

  /** The next start has set the flag and not yet taken its epoch: the task finds itself current. */
  lemma TaskIsCurrentAgain() returns (actions: seq<Action>)
    ensures Run(actions) ==
            State(true, false, 4, Free, false, [Task(4, AwaitingGate)], [StartDone, Swapped],
                  [Returned(true), Returned(true)], 1)
    ensures StartsApart(actions)
  {
    hide Run, StartsApart;
    var s;
    actions := StartOverlapsStop();
    actions, s := Extend(actions, StartCall);
    actions, s := Extend(actions, Recovered(0, true));
    actions, s := Extend(actions, FirstLoadStarted(0));
    actions, s := Extend(actions, FirstLoadEpoch(0));
    assert s.tasks == [Task(4, AwaitingGate)];
  }

  /** Without serial use the fence can be passed: once the next start has set the flag and before it
      has taken a new epoch, the task begun before the stop returned is current again. */
  lemma OverlappingStartPassesFence() returns (actions: seq<Action>)
    ensures Enabled(Run(actions), StartWorkers(0, true)) && 0 < Run(actions).fenced
    ensures Next(Run(actions), StartWorkers(0, true)).workers
    ensures StartsApart(actions) && !SerialRun(actions)
  {
    hide Run, StartsApart, StopRunning, SerialRun;
    var s;
    actions := TaskIsCurrentAgain();
    actions, s := Extend(actions, TaskTakesGate(0));
    actions, s := Extend(actions, LoadStarted(0));
    actions, s := Extend(actions, LoadEpoch(0));
    if SerialRun(actions) {
      FencedTasksNeverStart(actions, 0, true);
    }
  }
}
