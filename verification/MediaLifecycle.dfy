/** Start and stop of the media workers (src-tauri/src/media.rs): an epoch and a gate keep a late
    recovery task from starting workers that a stop has already stopped. Every access to shared
    state is one step, and steps of different threads interleave freely. */
module MediaLifecycle {

  /** A recovery task: recovering, the two loads of a first check, waiting for the gate, the same
      two loads under it, and the start. */
  datatype TaskPc =
    | Recovering | FirstStartedLoad | FirstEpochLoad | AwaitingGate | AtStartedLoad | AtEpochLoad | Passed | TaskDone

  datatype Task = Task(epoch: nat, pc: TaskPc)

  /** A call of `start` that won the swap: then it resets `stop_complete`, then it spawns its task. */
  datatype StartPc = Swapped | WasReset | StartDone

  /** A call of `stop`; the last step is its return with Ok or with an error. */
  datatype StopPc = Called | Bumped | Holding | WorkersStopped | Cleared | FencedAgain | Returning | Returned(ok: bool)

  datatype Gate = Free | ByTask(task: nat) | ByStop(stop: nat)

  datatype State = State(
    started: bool, stopComplete: bool, epoch: nat, gate: Gate, workers: bool,
    tasks: seq<Task>, starts: seq<StartPc>, stops: seq<StopPc>,
    fenced: nat)  // tasks begun before the last stop that returned Ok

  const INIT := State(false, false, 0, Free, false, [], [], [], 0)

  datatype Action =
    | StartCall
    | StartReset(start: nat)
    | StartSpawn(start: nat)
    | Recovered(task: nat, ok: bool)
    | FirstLoadStarted(task: nat)
    | FirstLoadEpoch(task: nat)
    | TaskTakesGate(task: nat)
    | LoadStarted(task: nat)
    | LoadEpoch(task: nat)
    | StartWorkers(task: nat, ok: bool)
    | StopCall
    | StopBump(stop: nat)
    | StopTakesGate(stop: nat)
    | StopSeesComplete(stop: nat)
    | StopWorkers(stop: nat, ok: bool)
    | StopClears(stop: nat)
    | StopFences(stop: nat)
    | StopCompletes(stop: nat)
    | StopReturns(stop: nat)

  predicate TaskAt(s: State, i: nat, pc: TaskPc) {
    i < |s.tasks| && s.tasks[i].pc == pc
  }

  predicate StartAt(s: State, k: nat, pc: StartPc) {
    k < |s.starts| && s.starts[k] == pc
  }

  predicate StopAt(s: State, j: nat, pc: StopPc) {
    j < |s.stops| && s.stops[j] == pc
  }

  predicate Enabled(s: State, a: Action) {
    match a
    case StartCall => true
    case StartReset(k) => StartAt(s, k, Swapped)
    case StartSpawn(k) => StartAt(s, k, WasReset)
    case Recovered(i, _) => TaskAt(s, i, Recovering)
    case FirstLoadStarted(i) => TaskAt(s, i, FirstStartedLoad)
    case FirstLoadEpoch(i) => TaskAt(s, i, FirstEpochLoad)
    case TaskTakesGate(i) => TaskAt(s, i, AwaitingGate) && s.gate.Free?
    case LoadStarted(i) => TaskAt(s, i, AtStartedLoad)
    case LoadEpoch(i) => TaskAt(s, i, AtEpochLoad)
    case StartWorkers(i, _) => TaskAt(s, i, Passed)
    case StopCall => true
    case StopBump(j) => StopAt(s, j, Called)
    case StopTakesGate(j) => StopAt(s, j, Bumped) && s.gate.Free?
    case StopSeesComplete(j) => StopAt(s, j, Holding) && s.stopComplete
    case StopWorkers(j, _) => StopAt(s, j, Holding) && !s.stopComplete
    case StopClears(j) => StopAt(s, j, WorkersStopped)
    case StopFences(j) => StopAt(s, j, Cleared)
    case StopCompletes(j) => StopAt(s, j, FencedAgain)
    case StopReturns(j) => StopAt(s, j, Returning)
  }

  function SetTask(s: State, i: nat, pc: TaskPc): State
    requires i < |s.tasks|
  {
    s.(tasks := s.tasks[i := s.tasks[i].(pc := pc)])
  }

  function SetStop(s: State, j: nat, pc: StopPc): State
    requires j < |s.stops|
  {
    s.(stops := s.stops[j := pc])
  }

  function Apply(s: State, a: Action): State
    requires Enabled(s, a)
  {
    match a
    case StartCall => if s.started then s else s.(started := true, starts := s.starts + [Swapped])
    case StartReset(k) => s.(stopComplete := false, starts := s.starts[k := WasReset])
    case StartSpawn(k) =>
      s.(epoch := s.epoch + 1, starts := s.starts[k := StartDone], tasks := s.tasks + [Task(s.epoch + 1, Recovering)])
    case Recovered(i, ok) => SetTask(s, i, if ok then FirstStartedLoad else TaskDone)
    case FirstLoadStarted(i) => SetTask(s, i, if s.started then FirstEpochLoad else TaskDone)
    case FirstLoadEpoch(i) => SetTask(s, i, if s.epoch == s.tasks[i].epoch then AwaitingGate else TaskDone)
    case TaskTakesGate(i) => SetTask(s, i, AtStartedLoad).(gate := ByTask(i))
    case LoadStarted(i) => if s.started then SetTask(s, i, AtEpochLoad) else SetTask(s, i, TaskDone).(gate := Free)
    case LoadEpoch(i) =>
      if s.epoch == s.tasks[i].epoch then SetTask(s, i, Passed) else SetTask(s, i, TaskDone).(gate := Free)
    case StartWorkers(i, ok) => SetTask(s, i, TaskDone).(gate := Free, workers := s.workers || ok)
    case StopCall => s.(started := false, stops := s.stops + [Called])
    case StopBump(j) => SetStop(s, j, Bumped).(epoch := s.epoch + 1)
    case StopTakesGate(j) => SetStop(s, j, Holding).(gate := ByStop(j))
    case StopSeesComplete(j) => SetStop(s, j, Returning).(gate := Free)
    case StopWorkers(j, ok) =>
      if ok then SetStop(s, j, WorkersStopped).(workers := false) else SetStop(s, j, Returned(false)).(gate := Free)
    case StopClears(j) => SetStop(s, j, Cleared).(started := false)
    case StopFences(j) => SetStop(s, j, FencedAgain).(epoch := s.epoch + 1)
    case StopCompletes(j) => SetStop(s, j, Returning).(stopComplete := true, gate := Free)
    case StopReturns(j) => SetStop(s, j, Returned(true)).(fenced := |s.tasks|)
  }

  function Next(s: State, a: Action): State {
    if Enabled(s, a) then Apply(s, a) else s
  }

  function Run(actions: seq<Action>): State {
    if actions == [] then INIT else Next(Run(actions[..|actions| - 1]), actions[|actions| - 1])
  }

  // ---------------------------------------------------------------- serial use

  predicate StopRunning(s: State) {
    exists j :: 0 <= j < |s.stops| && !s.stops[j].Returned?
  }

  predicate StartRunning(s: State) {
    exists k :: 0 <= k < |s.starts| && !s.starts[k].StartDone?
  }

  /** Starts and stops do not overlap: neither is called while the other is half-way. */
  predicate Serial(s: State, a: Action) {
    (a.StartCall? ==> !StopRunning(s)) && (a.StopCall? ==> !StartRunning(s))
  }

  ghost predicate SerialRun(actions: seq<Action>) {
    forall n :: 0 <= n < |actions| ==> Serial(Run(actions[..n]), actions[n])
  }

  // ---------------------------------------------------------------- the invariant

  predicate HoldsGate(pc: TaskPc) {
    pc.AtStartedLoad? || pc.AtEpochLoad? || pc.Passed?
  }

  predicate StopHoldsGate(pc: StopPc) {
    pc.Holding? || pc.WorkersStopped? || pc.Cleared? || pc.FencedAgain?
  }

  /** Only the holder of the gate is at a step that needs it. */
  ghost predicate TasksRespectGate(s: State) {
    forall i :: 0 <= i < |s.tasks| && HoldsGate(s.tasks[i].pc) ==> s.gate == ByTask(i)
  }

  ghost predicate StopsRespectGate(s: State) {
    forall j :: 0 <= j < |s.stops| && StopHoldsGate(s.stops[j]) ==> s.gate == ByStop(j)
  }

  predicate Stale(s: State, i: int) {
    0 <= i < |s.tasks| && s.tasks[i].epoch < s.epoch
  }

  ghost predicate AllStale(s: State) {
    forall i :: 0 <= i < |s.tasks| ==> Stale(s, i)
  }

  /** Nobody is about to start the workers. */
  ghost predicate NonePassed(s: State) {
    forall i :: 0 <= i < |s.tasks| ==> !s.tasks[i].pc.Passed?
  }

  /** Past its first bump a stop has made every task stale; under the gate none can have passed;
      and once the workers are stopped they stay stopped until it returns. */
  ghost predicate StopHolds(s: State, pc: StopPc) {
    && (!pc.Returned? ==> !StartRunning(s))
    && (!pc.Returned? && !pc.Called? ==> AllStale(s))
    && (StopHoldsGate(pc) || pc.Returning? ==> NonePassed(s))
    && (pc.WorkersStopped? || pc.Cleared? || pc.FencedAgain? || pc.Returning? ==> !s.workers)
  }

  /** What a completed stop leaves behind, as long as no start has reset the flag. */
  ghost predicate CompleteHolds(s: State) {
    && (s.stopComplete ==> AllStale(s) && NonePassed(s) && !s.workers)
    && (forall k :: 0 <= k < |s.starts| && s.starts[k].WasReset? ==> !s.stopComplete)
  }

  ghost predicate EpochsBounded(s: State) {
    forall i :: 0 <= i < |s.tasks| ==> s.tasks[i].epoch <= s.epoch
  }

  /** No task begun before a successful stop is, or can come to be, about to start the workers. */
  ghost predicate FenceHolds(s: State) {
    s.fenced <= |s.tasks| && forall i :: 0 <= i < s.fenced ==> Stale(s, i) && !s.tasks[i].pc.Passed?
  }

  ghost predicate StopsHold(s: State) {
    forall j :: 0 <= j < |s.stops| ==> StopHolds(s, s.stops[j])
  }

  ghost predicate Invariant(s: State) {
    && EpochsBounded(s) && TasksRespectGate(s) && StopsRespectGate(s)
    && CompleteHolds(s) && StopsHold(s) && FenceHolds(s)
  }

  lemma TasksOnlyAge(s: State, a: Action)
    requires Enabled(s, a)
    ensures var t := Apply(s, a);
            && s.epoch <= t.epoch && |s.tasks| <= |t.tasks|
            && (forall i :: 0 <= i < |s.tasks| ==> t.tasks[i].epoch == s.tasks[i].epoch)
            && (forall i :: Stale(s, i) ==> Stale(t, i))
            && (forall i :: 0 <= i < |t.tasks| && t.tasks[i].pc.Passed? ==>
                  i < |s.tasks| && (s.tasks[i].pc.Passed? || !Stale(s, i)))
            && (t.workers ==> s.workers || !NonePassed(s))
            && (|t.tasks| > |s.tasks| ==> StartRunning(s))
  {
    if a.StartSpawn? {
      assert !s.starts[a.start].StartDone?;
    }
    if a.StartWorkers? {
      assert s.tasks[a.task].pc.Passed?;
    }
  }

  lemma StepKeepsTaskGate(s: State, a: Action)
    requires TasksRespectGate(s) && StopsRespectGate(s) && Enabled(s, a)
    ensures TasksRespectGate(Apply(s, a))
  {
  }

  lemma StepKeepsStopGate(s: State, a: Action)
    requires TasksRespectGate(s) && StopsRespectGate(s) && Enabled(s, a)
    ensures StopsRespectGate(Apply(s, a))
  {
  }

  lemma StepKeepsComplete(s: State, a: Action)
    requires CompleteHolds(s) && StopsHold(s) && Enabled(s, a)
    ensures CompleteHolds(Apply(s, a))
  {
    TasksOnlyAge(s, a);
    if a.StopCompletes? {
      assert StopHolds(s, s.stops[a.stop]);
      assert forall k :: 0 <= k < |s.starts| ==> s.starts[k].StartDone?;
    }
  }

  lemma StepKeepsStops(s: State, a: Action)
    requires TasksRespectGate(s) && CompleteHolds(s) && StopsHold(s) && EpochsBounded(s)
    requires Serial(s, a) && Enabled(s, a)
    ensures StopsHold(Apply(s, a))
  {
    var t := Apply(s, a);
    TasksOnlyAge(s, a);
    StartsOnlyAge(s, a);
    forall j | 0 <= j < |t.stops| ensures StopHolds(t, t.stops[j]) {
      if j < |s.stops| {
        assert StopHolds(s, s.stops[j]);
        assert !s.stops[j].Returned? ==> StopRunning(s);
      }
    }
  }

  lemma StartsOnlyAge(s: State, a: Action)
    requires Enabled(s, a)
    ensures StartRunning(Apply(s, a)) ==> StartRunning(s) || a.StartCall?
  {
    if k :| 0 <= k < |Apply(s, a).starts| && !Apply(s, a).starts[k].StartDone? {
      assert !a.StartCall? ==> !s.starts[k].StartDone?;
    }
  }

  lemma StepKeepsFence(s: State, a: Action)
    requires FenceHolds(s) && StopsHold(s) && Enabled(s, a)
    ensures FenceHolds(Apply(s, a))
  {
    TasksOnlyAge(s, a);
    if a.StopReturns? {
      assert StopHolds(s, s.stops[a.stop]);
    }
  }

  lemma StepKeepsInvariant(s: State, a: Action)
    requires Invariant(s) && Serial(s, a)
    ensures Invariant(Next(s, a))
  {
    if Enabled(s, a) {
      hide TasksRespectGate, StopsRespectGate, CompleteHolds, StopsHold, FenceHolds;
      TasksOnlyAge(s, a);
      StepKeepsTaskGate(s, a);
      StepKeepsStopGate(s, a);
      StepKeepsComplete(s, a);
      StepKeepsStops(s, a);
      StepKeepsFence(s, a);
    }
  }

  // ---------------------------------------------------------------- every serial run

  lemma PrefixIsSerial(actions: seq<Action>)
    requires SerialRun(actions) && actions != []
    ensures SerialRun(actions[..|actions| - 1])
  {
    hide Run, Serial;
    var before := actions[..|actions| - 1];
    forall n | 0 <= n < |before| ensures Serial(Run(before[..n]), before[n]) {
      assert before[..n] == actions[..n];
    }
  }

  lemma {:induction false} RunKeepsInvariant(actions: seq<Action>)
    requires SerialRun(actions)
    ensures Invariant(Run(actions))
  {
    hide Next;
    if actions == [] {
      assert Invariant(INIT);
    } else {
      PrefixIsSerial(actions);
      RunKeepsInvariant(actions[..|actions| - 1]);
      StepKeepsInvariant(Run(actions[..|actions| - 1]), actions[|actions| - 1]);
    }
  }

  ghost predicate EverythingFenced(s: State) {
    !s.workers && s.fenced == |s.tasks| && AllStale(s)
  }

  lemma ReturnFencesEverything(s: State, stop: nat)
    requires Invariant(s) && Enabled(s, StopReturns(stop))
    ensures EverythingFenced(Next(s, StopReturns(stop)))
  {
    var t := Next(s, StopReturns(stop));
    assert StopHolds(s, s.stops[stop]);
    forall i | 0 <= i < |t.tasks| ensures Stale(t, i) {
      assert Stale(s, i);
    }
  }

  /** When a stop returns Ok the workers are stopped and every task begun so far is fenced. */
  lemma StopReturnedMeansStopped(actions: seq<Action>, stop: nat)
    requires SerialRun(actions) && Enabled(Run(actions), StopReturns(stop))
    ensures EverythingFenced(Next(Run(actions), StopReturns(stop)))
  {
    hide Invariant, Next, Enabled, EverythingFenced, SerialRun, Run;
    RunKeepsInvariant(actions);
    ReturnFencesEverything(Run(actions), stop);
  }

  lemma PassedIsBeyondFence(s: State, task: nat)
    requires Invariant(s) && TaskAt(s, task, Passed)
    ensures task >= s.fenced
  {
  }

  /** From then on only tasks begun later can start the workers, however long the run goes on. */
  lemma FencedTasksNeverStart(actions: seq<Action>, task: nat, ok: bool)
    requires SerialRun(actions) && Enabled(Run(actions), StartWorkers(task, ok))
    ensures task >= Run(actions).fenced
  {
    hide Invariant, SerialRun, Run, TaskAt;
    RunKeepsInvariant(actions);
    PassedIsBeyondFence(Run(actions), task);
  }

  lemma FenceMoves(s: State, a: Action)
    requires Invariant(s)
    ensures s.fenced <= Next(s, a).fenced
  {
  }

  /** The fence only moves forward. */
  lemma {:induction false} FenceIsKept(actions: seq<Action>, n: nat)
    requires SerialRun(actions) && n <= |actions|
    ensures Run(actions[..n]).fenced <= Run(actions).fenced
  {
    hide Next, Invariant;
    if n == |actions| {
      assert actions[..n] == actions;
    } else {
      var before := actions[..|actions| - 1];
      PrefixIsSerial(actions);
      assert before[..n] == actions[..n];
      FenceIsKept(before, n);
      RunKeepsInvariant(before);
      FenceMoves(Run(before), actions[|actions| - 1]);
    }
  }
}
