/** `cleanup_committed_delete` and `retry_committed_delete`. */
module DeleteCleanup {
  import opened DeleteMachine
  import opened DeletePlan
  import opened DeleteRecovery
  import opened DeleteRollback
  import opened DeleteSteps
  import opened DeleteWorld

  // ---------------------------------------------------------------- cleanup_committed_delete

  /** `validate_intent_paths`, `validate_cleanup_marker` and `validate_cleanup_payload`. */
  predicate CleanupAllowed(fs: Files, op: string, path: StagedPath) {
    && SafeIdentifier(op) && ValidSource(fs, path.sourcePath) && ValidTrash(fs, op, path.trashPath)
    && (path.markerPath in fs ==>
          fs[path.markerPath] == MarkerFile(TrashMarker(op, path.entryKey, path.sourcePath, path.trashPath)))
    && (path.trashPath in fs ==> fs[path.trashPath].IsDir())
  }

  predicate AllAllowed(fs: Files, op: string, staged: seq<StagedPath>) {
    forall path :: path in staged ==> CleanupAllowed(fs, op, path)
  }

  method ValidateCleanup(m: Machine, op: string, staged: seq<StagedPath>) returns (ok: bool)
    ensures ok ==> AllAllowed(m.fs, op, staged)
    ensures !m.faulty && AllAllowed(m.fs, op, staged) ==> ok
  {
    ok := true;
    var i := 0;
    while i < |staged| && ok
      invariant 0 <= i <= |staged|
      invariant ok ==> forall j :: 0 <= j < i ==> CleanupAllowed(m.fs, op, staged[j])
      invariant !ok ==> m.faulty || exists j :: 0 <= j < i && !CleanupAllowed(m.fs, op, staged[j])
    {
      var unreadable := m.Fault();
      ok := !unreadable && CleanupAllowed(m.fs, op, staged[i]);
      i := i + 1;
    }
  }

  /** Nothing the operation itself did makes validation refuse. */
  lemma OwnPathsAllowed(plan: Plan, w: World)
    requires plan.Sane() && plan.Admits({Cleaning}, w)
    ensures AllAllowed(w.fs, plan.op, plan.StagedPaths())
  {
    hide LibraryLayout, Plan.ContentKept, ValidIntent;
    IntendedShape(plan, Cleaning, w);
    forall i | plan.InRange(i) ensures CleanupAllowed(w.fs, plan.op, plan.StagedAt(i)) {
      IntentsAreValid(plan, w.fs, i);
      OwnPathAllowed(plan, w.fs, i);
    }
  }

  lemma OwnPathAllowed(plan: Plan, fs: Files, i: int)
    requires plan.Shape(fs) && plan.NoTornMarker(fs) && plan.InRange(i) && ValidIntent(fs, plan.Intents()[i])
    ensures CleanupAllowed(fs, plan.op, plan.StagedAt(i))
  {
    if PayloadPath(plan.op, i) in fs {
      PayloadIsAway(plan, fs, i);
    }
    hide ValidSource, ValidTrash;
  }

  /** Marker and payload lie side by side in the operation directory. */
  predicate InOperationDir(op: string, path: StagedPath) {
    && path.trashPath.Child? && path.trashPath.parent == OperationDir(op)
    && path.markerPath.Child? && path.markerPath.parent == OperationDir(op)
  }

  predicate StagedGone(fs: Files, path: StagedPath) {
    path.markerPath !in fs && path.trashPath !in fs
  }

  lemma {:induction false} WithinChild(p: Path, child: Path, dir: Path)
    requires child.Child? && child.parent == dir && Within(p, child)
    ensures Within(p, dir)
    decreases p
  {
    if p != child {
      WithinChild(p.parent, child, dir);
    }
  }

  lemma ConfinedToParent(start: World, already: set<World>, now: World, visited: set<World>, child: Path, dir: Path)
    requires child.Child? && child.parent == dir && Confined(start, already, now, visited, child)
    ensures Confined(start, already, now, visited, dir)
  {
    forall p | !Within(p, dir) ensures !Within(p, child) {
      if Within(p, child) {
        WithinChild(p, child, dir);
      }
    }
  }

  lemma ConfinedFurther(start: World, already: set<World>, mid: World, reached: set<World>, now: World,
                        visited: set<World>, dir: Path)
    requires Confined(start, already, mid, reached, dir) && Confined(mid, reached, now, visited, dir)
    ensures Confined(start, already, now, visited, dir)
  {
    hide Within;
  }

  /** The marker of one staged path, and then its payload. */
  method RemoveStagedPath(m: Machine, op: string, path: StagedPath, ghost own: bool, ghost i: nat, ghost plan: Plan,
                          ghost phases: set<Phase>)
    returns (ok: bool)
    requires InOperationDir(op, path)
    requires own ==> Intended(m, plan, Cleaning, phases) && plan.InRange(i) && path == plan.StagedAt(i)
    modifies m
    ensures Confined(old(m.Now()), old(m.visited), m.Now(), m.visited, OperationDir(op))
    ensures own ==> Intended(m, plan, Cleaning, phases)
    ensures forall p :: p in m.fs ==> p in old(m.fs)
    ensures ok ==> StagedGone(m.fs, path) && OnlyRemoved(old(m.fs), m.fs)
    ensures !m.faulty && (own || CleanupAllowed(old(m.fs), op, path)) ==> ok
  {
    hide Intended, Within, Confined, ValidSource, ValidTrash;
    ghost var start, already := m.Now(), m.visited;
    ok := RemoveMarker(m, path.markerPath, own, i, plan, phases);
    ConfinedToParent(start, already, m.Now(), m.visited, path.markerPath, OperationDir(op));
    if ok {
      ghost var mid, reached := m.Now(), m.visited;
      ok := RemovePayload(m, path.trashPath, own, i, plan, phases);
      ConfinedToParent(mid, reached, m.Now(), m.visited, path.trashPath, OperationDir(op));
      ConfinedFurther(start, already, mid, reached, m.Now(), m.visited, OperationDir(op));
    }
  }

  lemma StillAllowed(before: Files, after: Files, op: string, path: StagedPath)
    requires CleanupAllowed(before, op, path) && OnlyRemoved(before, after)
    ensures CleanupAllowed(after, op, path)
  {
    ClearWayStays(before, after, path.sourcePath);
    ClearWayStays(before, after, path.trashPath);
  }

  lemma {:induction false} ClearWayStays(before: Files, after: Files, p: Path)
    requires ClearWay(before, p) && OnlyRemoved(before, after)
    ensures ClearWay(after, p)
    decreases p
  {
    if p.Child? {
      ClearWayStays(before, after, p.parent);
    }
  }

  method RemoveStagedPaths(m: Machine, op: string, staged: seq<StagedPath>, ghost own: bool, ghost plan: Plan,
                           ghost phases: set<Phase>)
    returns (ok: bool)
    requires forall path :: path in staged ==> InOperationDir(op, path)
    requires own ==> Intended(m, plan, Cleaning, phases) && op == plan.op && staged == plan.StagedPaths()
    modifies m
    ensures Confined(old(m.Now()), old(m.visited), m.Now(), m.visited, OperationDir(op))
    ensures own ==> Intended(m, plan, Cleaning, phases)
    ensures ok ==> OnlyRemoved(old(m.fs), m.fs) && forall path :: path in staged ==> StagedGone(m.fs, path)
    ensures !m.faulty && (own || AllAllowed(old(m.fs), op, staged)) ==> ok
  {
    hide Intended, Confined, InOperationDir, CleanupAllowed, Plan.StagedAt;
    ok := true;
    var i := 0;
    ConfinedAtFirst(m.Now(), m.visited, OperationDir(op));
    while i < |staged| && ok
      invariant 0 <= i <= |staged|
      invariant Confined(old(m.Now()), old(m.visited), m.Now(), m.visited, OperationDir(op))
      invariant own ==> Intended(m, plan, Cleaning, phases)
      invariant ok ==> OnlyRemoved(old(m.fs), m.fs) && forall j :: 0 <= j < i ==> StagedGone(m.fs, staged[j])
      invariant !m.faulty && (own || AllAllowed(old(m.fs), op, staged)) ==> ok
    {
      ghost var mid, reached := m.Now(), m.visited;
      assert staged[i] in staged;
      if AllAllowed(old(m.fs), op, staged) {
        StillAllowed(old(m.fs), m.fs, op, staged[i]);
      }
      ok := RemoveStagedPath(m, op, staged[i], own, i, plan, phases);
      ConfinedFurther(old(m.Now()), old(m.visited), mid, reached, m.Now(), m.visited, OperationDir(op));
      i := i + 1;
    }
  }

  lemma ConfinedAtFirst(start: World, visited: set<World>, dir: Path)
    ensures Confined(start, visited, start, visited, dir)
  {
  }

  /** The empty operation directory goes. */
  method RemoveOperationDir(m: Machine, op: string, dir: Path, ghost own: bool, ghost plan: Plan,
                            ghost phases: set<Phase>)
    returns (ok: bool)
    requires dir == OperationDir(op)
    requires own ==> Intended(m, plan, Cleaning, phases) && op == plan.op
                     && forall i :: plan.InRange(i) ==> PathGone(m.fs, plan.op, i)
    modifies m
    ensures Confined(old(m.Now()), old(m.visited), m.Now(), m.visited, dir) && OnlyRemoved(old(m.fs), m.fs)
    ensures own ==> Intended(m, plan, Cleaning, phases)
    ensures own && ok ==> plan.TrashIsEmpty(m.fs)
    ensures !m.faulty && (own || (dir in old(m.fs) ==> old(m.fs)[dir].IsDir())) ==> ok
  {
    hide Plan.Sane, Plan.Shape, Plan.Admits;
    if own {
      EmptyOperationDir(plan, phases, m.Now());
    }
    ok := RemoveEmptyTree(m, dir, op);
  }

  /** The removals of a validated cleanup: markers and payloads, the directory, the intents. */
  method RemoveStaged(m: Machine, op: string, staged: seq<StagedPath>, ghost own: bool, ghost plan: Plan,
                      ghost phases: set<Phase>)
    returns (ok: bool)
    requires staged != [] && AllAllowed(m.fs, op, staged)
    requires forall path :: path in staged ==> InOperationDir(op, path)
    requires own ==> Intended(m, plan, Cleaning, phases) && Closed in phases
                     && op == plan.op && staged == plan.StagedPaths()
    modifies m
    ensures OnlyBelow(old(m.fs), m.fs, OperationDir(op)) && old(m.visited) <= m.visited
    ensures forall w :: w in m.visited && w !in old(m.visited) ==> OnlyBelow(old(m.fs), w.fs, OperationDir(op))
    ensures m.store == if ok then old(m.store).CloseDelete(op) else old(m.store)
    ensures ok ==> forall path :: path in staged ==> StagedGone(m.fs, path)
    ensures own ==> plan.AllIn(phases, m.visited)
    ensures own ==> if ok then m.Now() == plan.DeletedWorld() else Intended(m, plan, Cleaning, phases)
    ensures !m.faulty ==> ok
  {
    hide Plan.Sane, Plan.Shape, Plan.Admits, Plan.DeletedWorld, Plan.TrashIsEmpty, Within, CleanupAllowed, OnlyBelow;
    ghost var start, already := m.Now(), m.visited;
    OperationDirIsClear(m.fs, op, staged[0]);
    var dir := staged[0].trashPath.parent;
    ok := RemoveStagedPaths(m, op, staged, own, plan, phases);
    if ok {
      ghost var mid, reached := m.Now(), m.visited;
      if own {
        OwnPathsGone(plan, m.fs);
      }
      ok := RemoveOperationDir(m, op, dir, own, plan, phases);
      ConfinedFurther(start, already, mid, reached, m.Now(), m.visited, dir);
    }
    if ok {
      if own {
        StepFinalized(plan, phases, m.Now());
        AdmittedByMore(plan, Cleaning, phases, m.Now());
      }
      ok := m.CloseDelete(op);
    }
  }

  lemma OperationDirIsClear(fs: Files, op: string, path: StagedPath)
    requires CleanupAllowed(fs, op, path)
    ensures path.trashPath.Child? && path.trashPath.parent == OperationDir(op)
    ensures OperationDir(op) in fs ==> fs[OperationDir(op)].IsDir()
  {
  }

  lemma OwnPathsGone(plan: Plan, fs: Files)
    requires forall path :: path in plan.StagedPaths() ==> StagedGone(fs, path)
    ensures forall i :: plan.InRange(i) ==> PathGone(fs, plan.op, i)
  {
    forall i | plan.InRange(i) ensures PathGone(fs, plan.op, i) {
      assert plan.StagedPaths()[i] in plan.StagedPaths();
    }
  }

  lemma EmptyOperationDir(plan: Plan, phases: set<Phase>, w: World)
    requires plan.Sane() && Cleaning in phases && plan.Admits({Cleaning}, w)
    requires forall i :: plan.InRange(i) ==> PathGone(w.fs, plan.op, i)
    ensures OperationDir(plan.op) in w.fs ==> w.fs[OperationDir(plan.op)].IsDir()
    ensures Children(w.fs, OperationDir(plan.op)) == {}
    ensures var after := World(w.fs - {OperationDir(plan.op)}, w.store);
            plan.Admits({Cleaning}, after) && plan.Admits(phases, after)
    ensures OperationDir(plan.op) !in w.fs ==> plan.TrashIsEmpty(w.fs)
    ensures plan.TrashIsEmpty(w.fs - {OperationDir(plan.op)})
    ensures plan.Admits(phases, w)
  {
    hide Plan.Sane, Plan.Shape, Plan.Admits;
    AdmittedShape(plan, Cleaning, w);
    if OperationDir(plan.op) in w.fs {
      OperationDirIsDirectory(plan, w.fs);
    }
    NothingInOperationDir(plan, w.fs);
    StepDirectoryRemoved(plan, Cleaning, w);
    AdmittedByMore(plan, Cleaning, phases, w);
    AdmittedByMore(plan, Cleaning, phases, World(w.fs - {OperationDir(plan.op)}, w.store));
  }

  lemma StepFinalized(plan: Plan, phases: set<Phase>, w: World)
    requires plan.Sane() && plan.Admits({Cleaning}, w) && plan.TrashIsEmpty(w.fs) && Closed in phases
    ensures World(w.fs, w.store.CloseDelete(plan.op)) == plan.DeletedWorld()
    ensures plan.Admits(phases, World(w.fs, w.store.CloseDelete(plan.op)))
  {
    hide LibraryLayout, Plan.Shape, Plan.AllAway, Plan.Sane;
    NothingLeftIsDeleted(plan, w.fs);
  }

  /** Validates every path before it removes any, and removes nothing outside the operation
      directory. In the operation's own state success is the deleted world. */
  method CleanupCommittedDelete(m: Machine, op: string, staged: seq<StagedPath>, ghost own: bool, ghost plan: Plan,
                                ghost phases: set<Phase>)
    returns (ok: bool)
    requires staged != []
    requires forall path :: path in staged ==>
               path.trashPath.Child? && path.markerPath.Child? && path.markerPath.parent == path.trashPath.parent
    requires own ==> Intended(m, plan, Cleaning, phases) && Closed in phases
                     && op == plan.op && staged == plan.StagedPaths()
    modifies m
    ensures OnlyBelow(old(m.fs), m.fs, OperationDir(op)) && old(m.visited) <= m.visited
    ensures forall w :: w in m.visited && w !in old(m.visited) ==> OnlyBelow(old(m.fs), w.fs, OperationDir(op))
    ensures m.store == if ok then old(m.store).CloseDelete(op) else old(m.store)
    ensures ok ==> AllAllowed(old(m.fs), op, staged) && forall path :: path in staged ==> StagedGone(m.fs, path)
    ensures !AllAllowed(old(m.fs), op, staged) ==> m.Now() == old(m.Now()) && m.visited == old(m.visited)
    ensures own ==> plan.AllIn(phases, m.visited)
    ensures own ==> if ok then m.Now() == plan.DeletedWorld() else Intended(m, plan, Cleaning, phases)
    ensures !m.faulty ==> (ok <==> AllAllowed(old(m.fs), op, staged))
  {
    hide Plan.Sane, Plan.Admits, Plan.StagedPaths, Plan.DeletedWorld, Within;
    ok := ValidateCleanup(m, op, staged);
    if ok {
      AllowedInOperationDir(m.fs, op, staged);
      hide CleanupAllowed, AllAllowed, InOperationDir;
      ok := RemoveStaged(m, op, staged, own, plan, phases);
    }
  }

  lemma AllowedInOperationDir(fs: Files, op: string, staged: seq<StagedPath>)
    requires AllAllowed(fs, op, staged)
    requires forall path :: path in staged ==>
               path.trashPath.Child? && path.markerPath.Child? && path.markerPath.parent == path.trashPath.parent
    ensures forall path :: path in staged ==> InOperationDir(op, path)
  {
    forall path | path in staged ensures InOperationDir(op, path) {
      OperationDirIsClear(fs, op, path);
    }
  }

  // ---------------------------------------------------------------- retry_committed_delete

  /** Success, a permanent failure that says whether a rollback failed, or a commit whose cleanup
      did not finish. */
  datatype DeleteResult = Done(revision: nat) | Permanent(restored: bool) | Incomplete(revision: nat)

  function StagedFromIntent(intent: Intent): StagedPath
    requires intent.trashPath.Child? && intent.trashPath.name.PayloadOf?
  {
    StagedPath(intent.entryKey, intent.sourcePath, intent.trashPath,
               Child(intent.trashPath.parent, MarkerOf(intent.trashPath.name.index)))
  }

  predicate Retryable(store: Store, op: string) {
    && SafeIdentifier(op) && OfOperation(store.intents, op) != []
    && forall intent :: intent in OfOperation(store.intents, op) ==> intent.state.Committed?
  }

  /** In the operation's own state, the retry rebuilds exactly the paths that were staged. */
  lemma RebuiltPaths(plan: Plan, w: World)
    requires plan.Sane() && plan.Admits({Cleaning}, w)
    ensures OfOperation(w.store.intents, plan.op) == plan.CommittedIntents() && Retryable(w.store, plan.op)
    ensures forall intent :: intent in plan.CommittedIntents() ==> IntentAllowed(w.fs, plan.op, intent)
  {
    hide LibraryLayout, ValidIntent, Plan.Shape, Plan.Admits, CleanupAllowed;
    IntendedShape(plan, Cleaning, w);
    AllOfOperation(w.store.intents, plan.op);
    OwnPathsAllowed(plan, w);
    forall i | plan.InRange(i) ensures IntentAllowed(w.fs, plan.op, plan.CommittedIntents()[i]) {
      assert StagedFromIntent(plan.CommittedIntents()[i]) == plan.StagedPaths()[i];
    }
  }

  /** An intent whose paths, marker and payload are still the ones it was recorded with. */
  predicate IntentAllowed(fs: Files, op: string, intent: Intent) {
    ValidIntent(fs, intent) && CleanupAllowed(fs, op, StagedFromIntent(intent))
  }

  predicate AllIntentsAllowed(fs: Files, op: string, intents: seq<Intent>) {
    forall intent :: intent in intents ==> IntentAllowed(fs, op, intent)
  }

  /** The state is the operation's own after its commit. */
  ghost predicate Own(m: Machine, op: string, plan: Plan, phases: set<Phase>)
    reads m
  {
    Intended(m, plan, Cleaning, phases) && Closed in phases && op == plan.op
  }

  /** The marker and payload of an intent, as a retry derives them. */
  predicate IntentGone(fs: Files, intent: Intent) {
    intent.trashPath.Child? && intent.trashPath.name.PayloadOf? && StagedGone(fs, StagedFromIntent(intent))
  }

  function StagedFromIntents(intents: seq<Intent>): seq<StagedPath>
    requires forall i :: 0 <= i < |intents| ==> intents[i].trashPath.Child? && intents[i].trashPath.name.PayloadOf?
  {
    seq(|intents|, i requires 0 <= i < |intents| => StagedFromIntent(intents[i]))
  }

  lemma RebuiltPathsStandForIntents(fs: Files, op: string, intents: seq<Intent>, after: Files)
    requires forall i :: 0 <= i < |intents| ==> ValidIntent(fs, intents[i])
    requires forall i :: 0 <= i < |intents| ==> intents[i].trashPath.Child? && intents[i].trashPath.name.PayloadOf?
    ensures
      var staged := StagedFromIntents(intents);
      && (AllAllowed(fs, op, staged) <==> AllIntentsAllowed(fs, op, intents))
      && (forall path :: path in staged ==>
            path.trashPath.Child? && path.markerPath.Child? && path.markerPath.parent == path.trashPath.parent)
      && ((forall path :: path in staged ==> StagedGone(after, path)) ==>
            forall intent :: intent in intents ==> IntentGone(after, intent))
  {
    hide ValidSource, ValidChain, CleanupAllowed;
    var staged := StagedFromIntents(intents);
    assert forall i :: 0 <= i < |intents| ==> intents[i] in intents && staged[i] in staged;
  }

  method CleanupIntents(m: Machine, op: string, intents: seq<Intent>, ghost own: bool, ghost plan: Plan,
                        ghost phases: set<Phase>)
    returns (ok: bool)
    requires intents != []
    requires own ==> Own(m, op, plan, phases) && intents == plan.CommittedIntents()
    modifies m
    ensures OnlyBelow(old(m.fs), m.fs, OperationDir(op)) && old(m.visited) <= m.visited
    ensures forall w :: w in m.visited && w !in old(m.visited) ==> OnlyBelow(old(m.fs), w.fs, OperationDir(op))
    ensures m.store == if ok then old(m.store).CloseDelete(op) else old(m.store)
    ensures ok ==> AllIntentsAllowed(old(m.fs), op, intents) && forall i :: i in intents ==> IntentGone(m.fs, i)
    ensures !AllIntentsAllowed(old(m.fs), op, intents) ==> m.Now() == old(m.Now()) && m.visited == old(m.visited)
    ensures own ==> plan.AllIn(phases, m.visited)
    ensures own ==> if ok then m.Now() == plan.DeletedWorld() else Own(m, op, plan, phases)
    ensures !m.faulty ==> (ok <==> AllIntentsAllowed(old(m.fs), op, intents))
  {
    assert OnlyBelow(m.fs, m.fs, OperationDir(op));
    hide Plan.Sane, Plan.Admits, Plan.DeletedWorld, ValidSource, ValidChain, CleanupAllowed, Plan.Intents, Within;
    hide AllAllowed, StagedGone, OnlyBelow;
    var unreadable := m.Fault();
    if unreadable || exists intent :: intent in intents && !ValidIntent(m.fs, intent) {
      return false;
    }
    assert forall i :: 0 <= i < |intents| ==> ValidIntent(m.fs, intents[i]);
    var staged := StagedFromIntents(intents);
    RebuiltPathsStandForIntents(m.fs, op, intents, m.fs);
    if own {
      OwnPathsRebuilt(plan);
      assert staged == plan.StagedPaths();
    }
    ghost var before := m.fs;
    ok := CleanupCommittedDelete(m, op, staged, own, plan, phases);
    RebuiltPathsStandForIntents(before, op, intents, m.fs);
  }

  lemma OwnPathsRebuilt(plan: Plan)
    ensures |plan.CommittedIntents()| == |plan.StagedPaths()|
    ensures forall i :: plan.InRange(i) ==> StagedFromIntent(plan.CommittedIntents()[i]) == plan.StagedPaths()[i]
  {
  }

  /** The intent is committed, and its paths, marker and payload are as the delete recorded them. */
  ghost predicate AsRecorded(fs: Files, op: string, intent: Intent) {
    var payload := intent.trashPath;
    && PathsAreGenuine(fs, op, intent.sourcePath, payload)
    && (payload in fs ==> fs[payload].IsDir())
    && var marker := Child(payload.parent, MarkerOf(payload.name.index));
       marker in fs ==> fs[marker] == MarkerFile(TrashMarker(op, intent.entryKey, intent.sourcePath, payload))
  }

  lemma AllowedIff(fs: Files, op: string, intent: Intent)
    requires SafeIdentifier(op) && intent.operationId == op
    ensures IntentAllowed(fs, op, intent) <==> AsRecorded(fs, op, intent)
  {
    ValidPathsIff(fs, op, intent.sourcePath, intent.trashPath);
    hide PathsAreGenuine, ValidSource, ValidTrash;
  }

  /** When a retry is allowed, intent by intent and file by file. */
  lemma RetryAllowedIff(w: World, op: string)
    ensures Retryable(w.store, op) && AllIntentsAllowed(w.fs, op, OfOperation(w.store.intents, op)) <==>
            && PlainName(op)
            && (exists i :: i in w.store.intents && i.operationId == op)
            && forall i :: i in w.store.intents && i.operationId == op ==> i.state.Committed? && AsRecorded(w.fs, op, i)
  {
    hide AsRecorded, IntentAllowed;
    if SafeIdentifier(op) {
      forall i | i in w.store.intents && i.operationId == op
        ensures IntentAllowed(w.fs, op, i) <==> AsRecorded(w.fs, op, i)
      {
        AllowedIff(w.fs, op, i);
      }
    }
    if i :| i in w.store.intents && i.operationId == op {
      assert i in OfOperation(w.store.intents, op);
    } else if OfOperation(w.store.intents, op) != [] {
      assert OfOperation(w.store.intents, op)[0] in OfOperation(w.store.intents, op);
    }
  }

  /** Completes a committed delete whose cleanup failed, in whatever library it finds: it refuses an
      operation without committed intents, touches nothing when a path is no longer as recorded, and
      otherwise closes exactly this operation. */
  method RetryCommittedDelete(m: Machine, op: string, ghost plan: Plan, ghost phases: set<Phase>)
    returns (result: DeleteResult)
    modifies m
    ensures OnlyBelow(old(m.fs), m.fs, OperationDir(op)) && old(m.visited) <= m.visited
    ensures forall w :: w in m.visited && w !in old(m.visited) ==> OnlyBelow(old(m.fs), w.fs, OperationDir(op))
    ensures m.store == if result.Done? then old(m.store).CloseDelete(op) else old(m.store)
    ensures result.Done? ==> result.revision == m.store.revision && LeasesReleased(old(m.store), m.store, op)
    ensures result.Done? ==>
              forall i :: i in m.store.intents <==> i in old(m.store).intents && i.operationId != op
    ensures !Retryable(old(m.store), op) ==> result == Permanent(true)
    ensures var intents := OfOperation(old(m.store).intents, op);
            && (result.Done? ==> forall i :: i in intents ==> IntentGone(m.fs, i))
            && (!Retryable(old(m.store), op) || !AllIntentsAllowed(old(m.fs), op, intents) ==>
                  !result.Done? && m.Now() == old(m.Now()) && m.visited == old(m.visited))
            && (!m.faulty ==>
                  (result.Done? <==> Retryable(old(m.store), op) && AllIntentsAllowed(old(m.fs), op, intents)))
    ensures old(Own(m, op, plan, phases)) ==>
              && plan.AllIn(phases, m.visited)
              && (result.Done? ==> m.Now() == plan.DeletedWorld() && result.revision == plan.CommittedStore().revision)
              && (!result.Done? ==> Own(m, op, plan, phases))
              && (!m.faulty ==> result.Done?)
  {
    hide Plan.Sane, Plan.Admits, Plan.DeletedWorld, IntentAllowed, Plan.CommittedStore, Plan.CommittedIntents;
    ghost var own := Own(m, op, plan, phases);
    if own {
      RebuiltPaths(plan, m.Now());
      CommittedRevision(plan, m.Now());
    }
    var unreadable := m.Fault();
    var intents := OfOperation(m.store.intents, op);
    if unreadable || !Retryable(m.store, op) {
      return Permanent(true);
    }
    var revision := m.store.revision;
    var ok := CleanupIntents(m, op, intents, own, plan, phases);
    result := if ok then Done(revision) else Incomplete(revision);
  }

  lemma CommittedRevision(plan: Plan, w: World)
    requires plan.Sane() && plan.Admits({Cleaning}, w)
    ensures w.store.revision == plan.CommittedStore().revision
  {
    IntendedShape(plan, Cleaning, w);
  }

  predicate MetadataKept(before: Store, after: Store) {
    after.library == before.library && after.revision == before.revision
  }

  /** The tables of every phase, row by row. */
  lemma TablesOfPlan(plan: Plan)
    requires plan.Sane()
    ensures
      var keys, before, after := set e | e in plan.entries :: e.key, plan.start.store, plan.DeletedStore();
      && plan.CommittedStore().library == after.library == before.library - keys
      && plan.CommittedStore().revision == after.revision
      && after.revision == before.revision + (if exists e :: e in plan.entries && e.key in before.library then 1 else 0)
      && after.leases == before.leases && after.intents == []
      && MetadataKept(before, plan.StagedStore()) && MetadataKept(before, plan.LeasedStore())
  {
    hide LibraryLayout;
    IntentsOfPlan(plan);
    ClosingStagedRestores(plan);
    assert plan.DeletedStore().leases == plan.StagedStore().ReleaseLeases(plan.op).leases;
    if e :| e in plan.entries && e.key in plan.start.store.library {
      assert e.key in plan.Keys() && e.key in plan.start.store.library.Keys;
    }
  }

  /** The tables after the commit, whether the cleanup has ended or not. */
  lemma CommittedTables(m: Machine, op: string, plan: Plan, phases: set<Phase>, done: bool)
    requires plan.Sane() && if done then m.Now() == plan.DeletedWorld() else Own(m, op, plan, phases)
    ensures m.store.library == plan.start.store.library - set e | e in plan.entries :: e.key
    ensures m.store.revision == plan.start.store.revision
            + if exists e :: e in plan.entries && e.key in plan.start.store.library then 1 else 0
    ensures done ==> m.store.leases == plan.start.store.leases && m.store.intents == []
  {
    TablesOfPlan(plan);
    if !done {
      IntendedShape(plan, Cleaning, m.Now());
    }
  }

  /** Any number of failed cleanups and one that succeeds end where an uninterrupted delete ends. */
  method RetryUntilDone(m: Machine, op: string, attempts: nat, ghost plan: Plan, ghost phases: set<Phase>)
    returns (done: bool)
    requires Own(m, op, plan, phases)
    modifies m
    ensures old(m.visited) <= m.visited
    ensures if done then m.Now() == plan.DeletedWorld() else Own(m, op, plan, phases)
    ensures m.store.library == plan.start.store.library - set e | e in plan.entries :: e.key
    ensures m.store.revision == plan.start.store.revision
            + if exists e :: e in plan.entries && e.key in plan.start.store.library then 1 else 0
    ensures done ==> m.store.leases == plan.start.store.leases && m.store.intents == []
    ensures !m.faulty && attempts > 0 ==> done
  {
    assert plan.Sane();
    hide Own, Plan.DeletedWorld, Retryable, Plan.Sane;
    done := false;
    var left := attempts;
    while left > 0 && !done
      invariant old(m.visited) <= m.visited
      invariant if done then m.Now() == plan.DeletedWorld() else Own(m, op, plan, phases)
      invariant !m.faulty && left < attempts ==> done
    {
      var result := RetryCommittedDelete(m, op, plan, phases);
      done := result.Done?;
      left := left - 1;
    }
    CommittedTables(m, op, plan, phases, done);
  }
}
