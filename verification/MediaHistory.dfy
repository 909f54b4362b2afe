/** What the registers of the media lifecycle say about the run so far, what a task has been through
    before it starts the workers, and when a stop answers with an error. */
module MediaHistory {
  import opened MediaFence
  import opened MediaLifecycle

  // ---------------------------------------------------------------- registers

  predicate BumpsEpoch(a: Action) {
    a.StartSpawn? || a.StopBump? || a.StopFences?
  }

  ghost function Bumps(actions: seq<Action>): nat {
    if actions == [] then 0
    else
      var before, a := actions[..|actions| - 1], actions[|actions| - 1];
      Bumps(before) + if Enabled(Run(before), a) && BumpsEpoch(a) then 1 else 0
  }

  datatype Register = StartedFlag | CompleteFlag | WorkersRun

  predicate Sets(a: Action, r: Register) {
    match r
    case StartedFlag => a.StartCall?
    case CompleteFlag => a.StopCompletes?
    case WorkersRun => a.StartWorkers? && a.ok
  }

  predicate Clears(a: Action, r: Register) {
    match r
    case StartedFlag => a.StopCall? || a.StopClears?
    case CompleteFlag => a.StartReset?
    case WorkersRun => a.StopWorkers? && a.ok
  }

  function ValueOf(s: State, r: Register): bool {
    match r
    case StartedFlag => s.started
    case CompleteFlag => s.stopComplete
    case WorkersRun => s.workers
  }

  /** Of the steps taken that set or clear the register, the last one set it. */
  ghost predicate SetLast(actions: seq<Action>, r: Register) {
    actions != [] &&
    var before, a := actions[..|actions| - 1], actions[|actions| - 1];
    if Enabled(Run(before), a) && (Sets(a, r) || Clears(a, r)) then Sets(a, r) else SetLast(before, r)
  }

  lemma StepWritesRegister(s: State, a: Action, r: Register)
    requires Enabled(s, a)
    ensures ValueOf(Apply(s, a), r) == if Sets(a, r) || Clears(a, r) then Sets(a, r) else ValueOf(s, r)
  {
  }

  lemma StepBumps(s: State, a: Action)
    requires Enabled(s, a)
    ensures Apply(s, a).epoch == s.epoch + if BumpsEpoch(a) then 1 else 0
  {
  }

  /** In every run a flag, or the workers, are up exactly if the last step that touched them put them
      up, and the epoch counts its bumps. */
  lemma {:induction false} RegistersTellTheRun(actions: seq<Action>, r: Register)
    ensures ValueOf(Run(actions), r) <==> SetLast(actions, r)
    ensures Run(actions).epoch == Bumps(actions)
  {
    hide Apply, Enabled, Sets, Clears, BumpsEpoch;
    if actions != [] {
      var before, a := actions[..|actions| - 1], actions[|actions| - 1];
      RegistersTellTheRun(before, r);
      if Enabled(Run(before), a) {
        StepWritesRegister(Run(before), a, r);
        StepBumps(Run(before), a);
      }
    } else {
      assert !ValueOf(INIT, r);
    }
  }

  /** How often a stop has cleared the flag of the starts. */
  ghost function FlagClears(actions: seq<Action>): nat {
    if actions == [] then 0
    else
      var before, a := actions[..|actions| - 1], actions[|actions| - 1];
      FlagClears(before) + if Enabled(Run(before), a) && (a.StopCall? || a.StopClears?) then 1 else 0
  }

  lemma StepKeepsStartCount(s: State, a: Action)
    requires Enabled(s, a)
    ensures var t := Apply(s, a);
            && |t.starts| == |s.starts| + (if a.StartCall? && !s.started then 1 else 0)
            && |t.tasks| == |s.tasks| + if a.StartSpawn? then 1 else 0
  {
  }

  /** In every run at most one start goes ahead for each time that a stop clears the flag, and one
      more. */
  lemma {:induction false} OneStartPerClearing(actions: seq<Action>)
    ensures |Run(actions).starts| <= FlagClears(actions) + if Run(actions).started then 1 else 0
  {
    hide Apply, Enabled;
    if actions != [] {
      var before, a := actions[..|actions| - 1], actions[|actions| - 1];
      OneStartPerClearing(before);
      if Enabled(Run(before), a) {
        StepKeepsStartCount(Run(before), a);
        StepWritesRegister(Run(before), a, StartedFlag);
      }
    }
  }

  // ---------------------------------------------------------------- the way to the workers

  /** Step n of the run was taken. */
  ghost predicate Taken(actions: seq<Action>, n: int) {
    0 <= n < |actions| && Enabled(Run(actions[..n]), actions[n])
  }

  lemma TakenBefore(actions: seq<Action>, n: int)
    requires 0 <= n < |actions| - 1
    ensures var before := actions[..|actions| - 1];
            before[..n] == actions[..n] && before[n] == actions[n] && (Taken(before, n) <==> Taken(actions, n))
  {
    hide Run, Enabled;
    assert actions[..|actions| - 1][..n] == actions[..n];
  }

  function Rank(pc: TaskPc): nat {
    match pc
    case Recovering => 0
    case FirstStartedLoad => 1
    case FirstEpochLoad => 2
    case AwaitingGate => 3
    case AtStartedLoad => 4
    case AtEpochLoad => 5
    case Passed => 6
    case TaskDone => 7
  }

  /** The task is beyond a point and not done. */
  predicate Beyond(s: State, i: nat, from: TaskPc) {
    i < |s.tasks| && Rank(from) < Rank(s.tasks[i].pc) < 7
  }

  /** The step that takes the task beyond a point, with what it must find there. */
  predicate Found(s: State, a: Action, i: nat, from: TaskPc) {
    && i < |s.tasks|
    && match from
       case Recovering => a == Recovered(i, true)
       case FirstStartedLoad => a == FirstLoadStarted(i) && s.started
       case FirstEpochLoad => a == FirstLoadEpoch(i) && s.epoch == s.tasks[i].epoch
       case AwaitingGate => a == TaskTakesGate(i) && s.gate == Free
       case AtStartedLoad => a == LoadStarted(i) && s.started && s.gate == ByTask(i)
       case AtEpochLoad => a == LoadEpoch(i) && s.epoch == s.tasks[i].epoch && s.gate == ByTask(i)
       case _ => false
  }

  lemma StepIsChecked(s: State, a: Action, i: nat, from: TaskPc)
    requires TasksRespectGate(s) && Enabled(s, a) && Beyond(Apply(s, a), i, from) && !Beyond(s, i, from)
    ensures Found(s, a, i, from)
  {
  }

  ghost predicate FoundAt(actions: seq<Action>, i: nat, from: TaskPc, n: int) {
    Taken(actions, n) && Found(Run(actions[..n]), actions[n], i, from)
  }

  /** In every run: a task that is beyond a point was taken there by a step that found its recovery
      successful, the flag set, its epoch current, the gate free, and under the gate the flag set and
      its epoch current once more. */
  lemma {:induction false} NoCheckIsSkipped(actions: seq<Action>, i: nat, from: TaskPc)
    requires Beyond(Run(actions), i, from)
    ensures exists n :: FoundAt(actions, i, from, n)
  {
    assert actions != [];
    hide Apply, Enabled, Found, Beyond;
    var before, a := actions[..|actions| - 1], actions[|actions| - 1];
    if Beyond(Run(before), i, from) {
      NoCheckIsSkipped(before, i, from);
      var n :| FoundAt(before, i, from, n);
      TakenBefore(actions, n);
      assert FoundAt(actions, i, from, n);
    } else {
      AlwaysHoldsInRun(before);
      StepIsChecked(Run(before), a, i, from);
      assert actions[..|before|] == before;
      assert FoundAt(actions, i, from, |before|);
    }
  }

  /** So whenever the workers are about to be started, the task has been through all of it. */
  lemma StarterWentAllTheWay(actions: seq<Action>, i: nat, ok: bool, from: TaskPc)
    requires Enabled(Run(actions), StartWorkers(i, ok)) && Rank(from) < 6
    ensures exists n :: FoundAt(actions, i, from, n)
  {
    hide Run;
    NoCheckIsSkipped(actions, i, from);
  }

  // ---------------------------------------------------------------- what a stop answers

  lemma StepAnswersError(s: State, a: Action, stop: nat)
    requires Enabled(s, a)
    ensures StopAt(Apply(s, a), stop, Returned(false)) <==>
            StopAt(s, stop, Returned(false)) || a == StopWorkers(stop, false)
  {
  }

  ghost predicate FailedAt(actions: seq<Action>, stop: nat, n: int) {
    Taken(actions, n) && actions[n] == StopWorkers(stop, false)
  }

  /** In every run: a stop has answered with an error exactly if it found that the workers would not
      stop. */
  lemma {:induction false} ErrorIffWorkersWouldNotStop(actions: seq<Action>, stop: nat)
    ensures StopAt(Run(actions), stop, Returned(false)) <==> exists n :: FailedAt(actions, stop, n)
  {
    assert !StopAt(INIT, stop, Returned(false));
    hide Apply, Enabled, StopAt;
    if actions != [] {
      var before, a := actions[..|actions| - 1], actions[|actions| - 1];
      assert actions[..|before|] == before;
      ErrorIffWorkersWouldNotStop(before, stop);
      if Enabled(Run(before), a) {
        StepAnswersError(Run(before), a, stop);
      }
      forall n | 0 <= n < |before| ensures FailedAt(actions, stop, n) <==> FailedAt(before, stop, n) {
        TakenBefore(actions, n);
      }
      assert FailedAt(actions, stop, |before|) <==> Enabled(Run(before), a) && a == StopWorkers(stop, false);
    }
  }
}
