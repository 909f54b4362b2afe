/** `recover_pending_deletes` and `recover_orphan_markers`. */
module DeleteRecovery {
  import opened DeleteMachine
  import opened DeletePlan
  import opened DeleteRollback
  import opened DeleteSteps
  import opened DeleteWorld

  // ---------------------------------------------------------------- recover_orphan_markers

  /** A state without intents, in which markers alone say what belongs where. */
  ghost predicate Resting(m: Machine, plan: Plan, phase: Phase, phases: set<Phase>)
    reads m
  {
    && plan.Sane() && (phase == Opening || phase == Closed) && phase in phases
    && plan.Admits({phase}, m.Now()) && plan.AllIn(phases, m.visited)
  }

  lemma RestingShape(plan: Plan, phase: Phase, w: World)
    requires plan.Sane() && plan.Admits({phase}, w) && (phase == Opening || phase == Closed)
    ensures plan.Shape(w.fs) && w.store.intents == []
    ensures phase == Closed ==> forall i :: plan.InRange(i) ==> PathGone(w.fs, plan.op, i)
    ensures phase == Opening ==> plan.BeforeIntents(w)
    ensures phase == Opening ==> plan.PayloadsMarked(w.fs)
  {
    hide Plan.Shape, Plan.ContentKept, Plan.AllAway;
    IntentsOfPlan(plan);
  }

  lemma IntentsOfPlan(plan: Plan)
    requires plan.Sane()
    ensures plan.StagedStore().intents == plan.Intents()
    ensures plan.CommittedStore().intents == plan.CommittedIntents()
    ensures plan.DeletedStore().intents == []
  {
    hide LibraryLayout;
    assert plan.StagedStore().intents == [] + plan.Intents() == plan.Intents();
    AllOfOneOperation(plan.CommittedIntents(), plan.op);
  }

  /** A marker of this operation passes every check a whole marker has to pass. */
  lemma MarkerPassesChecks(plan: Plan, fs: Files, i: int)
    requires plan.Sane() && plan.Shape(fs) && plan.InRange(i)
    requires MarkerPath(plan.op, i) in fs && fs[MarkerPath(plan.op, i)].MarkerFile?
    ensures fs[MarkerPath(plan.op, i)].marker == plan.MarkerFor(i)
    ensures ValidMarker(fs, OperationDir(plan.op), plan.MarkerFor(i))
  {
    SourceValidityIsStable(plan, fs, plan.entries[i]);
    var payload := PayloadPath(plan.op, i);
    assert Root !in fs;
    assert ClearWay(fs, OperationDir(plan.op));
  }

  /** `validate_marker`. */
  predicate ValidMarker(fs: Files, dir: Path, marker: TrashMarker) {
    && dir.Child? && dir.name == Name(marker.operationId)
    && ValidSource(fs, marker.sourcePath)
    && ValidChain(fs, marker.payloadPath)
    && marker.payloadPath.Child? && marker.payloadPath.parent == dir && marker.payloadPath.name.PayloadOf?
  }

  /** The marker names this operation, a payload in its directory and a source outside the trash, and
      both can be reached. */
  ghost predicate MarkerIsGenuine(fs: Files, dir: Path, marker: TrashMarker) {
    var payload, source := marker.payloadPath, marker.sourcePath;
    && dir.Child? && dir.name == Name(marker.operationId)
    && payload.Child? && payload.parent == dir && payload.name.PayloadOf?
    && Reachable(fs, payload) && Reachable(fs, source) && !Within(source, Child(Root, Name(".ylx-library-trash")))
  }

  lemma ValidMarkerIff(fs: Files, dir: Path, marker: TrashMarker)
    ensures ValidMarker(fs, dir, marker) <==> MarkerIsGenuine(fs, dir, marker)
  {
    ValidChainIff(fs, marker.payloadPath);
    ValidChainIff(fs, marker.sourcePath);
    InTrashIff(marker.sourcePath);
    hide Reachable, ValidChain, InTrash, Within;
  }

  /** What recovering one marker makes of the files: nothing if an intent knows it, and otherwise its
      payload is home and the marker gone. */
  ghost predicate MarkerRecovered(before: Files, after: Files, path: Path, known: set<(string, string)>)
    requires path in before && before[path].MarkerFile?
  {
    var marker := before[path].marker;
    if (marker.operationId, marker.entryKey) in known then after == before
    else if marker.payloadPath !in before then after == before - {path}
    else before[marker.payloadPath].IsDir() && marker.sourcePath !in before
         && after == Moved(before, marker.payloadPath, marker.sourcePath) - {path}
  }

  ghost predicate NothingInTheWay(fs: Files, marker: TrashMarker, known: set<(string, string)>) {
    || (marker.operationId, marker.entryKey) in known
    || marker.payloadPath !in fs
    || (fs[marker.payloadPath].IsDir() && marker.sourcePath !in fs)
  }

  ghost predicate OwnMarker(m: Machine, dir: Path, path: Path, known: set<(string, string)>, i: nat, plan: Plan,
                            phases: set<Phase>)
    reads m
  {
    && Resting(m, plan, Opening, phases) && known == {} && dir == OperationDir(plan.op)
    && plan.InRange(i) && path == MarkerPath(plan.op, i) && path in m.fs
  }

  /** The operation's own marker is genuine, its payload can go home, and every step of that is a state
      of the same phase. */
  lemma OwnMarkerIsHome(m: Machine, dir: Path, path: Path, known: set<(string, string)>, i: nat, plan: Plan,
                        phases: set<Phase>)
    requires OwnMarker(m, dir, path, known, i, plan, phases) && m.fs[path].MarkerFile?
    ensures
      var marker := m.fs[path].marker;
      && marker == plan.MarkerFor(i) && ValidMarker(m.fs, dir, marker)
      && plan.Admits(phases, m.Now())
      && (if marker.payloadPath in m.fs then
            && m.fs[marker.payloadPath].IsDir() && marker.sourcePath !in m.fs
            && var moved := World(Moved(m.fs, marker.payloadPath, marker.sourcePath), m.store);
               plan.Admits({Opening}, moved) && plan.Admits(phases, moved)
               && plan.Admits({Opening}, World(moved.fs - {path}, m.store))
               && plan.Admits(phases, World(moved.fs - {path}, m.store))
          else
            && plan.Admits({Opening}, World(m.fs - {path}, m.store))
            && plan.Admits(phases, World(m.fs - {path}, m.store)))
  {
    hide Plan.Sane, Plan.Shape, Plan.BeforeIntents, Plan.IntentsStaged, Plan.IntentsCommitted, Plan.Finalized;
    hide ValidMarker;
    RestingShape(plan, Opening, m.Now());
    MarkerPassesChecks(plan, m.fs, i);
    var payload := PayloadPath(plan.op, i);
    if payload in m.fs {
      PayloadIsAway(plan, m.fs, i);
      StepMovedBack(plan, Opening, m.Now(), i);
      StepMarkerRemoved(plan, Opening, World(Moved(m.fs, payload, Source(plan.entries[i])), m.store), i);
    } else {
      StepMarkerRemoved(plan, Opening, m.Now(), i);
    }
  }

  lemma GenuineMarkerPaths(fs: Files, dir: Path, path: Path, marker: TrashMarker)
    requires MarkerIsGenuine(fs, dir, marker) && InTrash(dir)
    requires path.Child? && path.parent == dir && path.name.MarkerOf?
    ensures path != marker.payloadPath && path != marker.sourcePath
  {
    InTrashIff(marker.sourcePath);
  }

  /** One marker, in any library; `own` says that it is the operation's own. A marker that is torn or
      not genuine is refused, and nothing is touched. */
  method RecoverMarker(m: Machine, dir: Path, path: Path, known: set<(string, string)>, ghost own: bool,
                       ghost i: nat, ghost plan: Plan, ghost phases: set<Phase>)
    returns (ok: bool)
    requires path in m.fs && path.Child? && path.parent == dir && path.name.MarkerOf? && InTrash(dir)
    requires own ==> OwnMarker(m, dir, path, known, i, plan, phases)
    modifies m
    ensures m.store == old(m.store) && old(m.visited) <= m.visited
    ensures own ==> Resting(m, plan, Opening, phases)
    ensures own ==> forall p: Path :: p != path && p.Child? && p.name.MarkerOf? ==>
              (p in m.fs <==> p in old(m.fs)) && (p in m.fs ==> m.fs[p] == old(m.fs)[p])
    ensures own && ok ==> path !in m.fs
    ensures own && !m.faulty ==> (ok <==> old(m.fs)[path].MarkerFile?)
    ensures var node := old(m.fs)[path];
            if node.MarkerFile? && MarkerIsGenuine(old(m.fs), dir, node.marker)
            then && (ok ==> MarkerRecovered(old(m.fs), m.fs, path, known))
                 && (!m.faulty ==> (ok <==> NothingInTheWay(old(m.fs), node.marker, known)))
            else !ok && m.fs == old(m.fs)
  {
    hide Plan.Sane, Plan.Shape, Plan.BeforeIntents, Plan.IntentsStaged, Plan.IntentsCommitted, Plan.Finalized;
    hide ValidMarker, InTrash, MarkerIsGenuine, Plan.Admits;
    ok := false;
    if m.fs[path].MarkerFile? {
      ValidMarkerIff(m.fs, dir, m.fs[path].marker);
      if own {
        OwnMarkerIsHome(m, dir, path, known, i, plan, phases);
      }
    }
    var unreadable := m.Fault();
    if unreadable || !m.fs[path].MarkerFile? || !ValidMarker(m.fs, dir, m.fs[path].marker) {
      return;
    }
    var marker := m.fs[path].marker;
    GenuineMarkerPaths(m.fs, dir, path, marker);
    if (marker.operationId, marker.entryKey) in known {
      return true;
    }
    unreadable := m.Fault();
    if unreadable || (marker.payloadPath in m.fs && !m.fs[marker.payloadPath].IsDir()) {
      return;
    }
    if marker.payloadPath in m.fs {
      var restored := false;
      var otherFileSystem := m.Fault();
      if marker.sourcePath !in m.fs && !otherFileSystem {
        restored := m.Rename(marker.payloadPath, marker.sourcePath);
      }
      var unsynced := m.Fault();
      if !restored || unsynced {
        return;
      }
    }
    ok := m.RemoveFile(path);
  }

  /** Restores what the markers of one operation directory name, in whatever order they are read. */
  method RecoverOperation(m: Machine, dir: Path, known: set<(string, string)>, ghost plan: Plan, ghost phase: Phase,
                          ghost phases: set<Phase>)
    returns (ok: bool)
    requires Resting(m, plan, phase, phases) && known == {} && dir == OperationDir(plan.op)
    modifies m
    ensures m.store == old(m.store) && old(m.visited) <= m.visited
    ensures Resting(m, plan, phase, phases)
    ensures ok ==> plan.TrashIsEmpty(m.fs) && plan.NoTornMarker(old(m.fs))
    ensures !m.faulty ==> (ok <==> plan.NoTornMarker(old(m.fs)))
  {
    hide Plan.Sane, Plan.Shape, Plan.Admits;
    var markers := set p | p in Children(m.fs, dir) && p.name.MarkerOf?;
    ok := true;
    while markers != {} && ok
      invariant m.store == old(m.store) && old(m.visited) <= m.visited
      invariant Resting(m, plan, phase, phases)
      invariant forall p :: p in markers ==> p.Child? && p.parent == dir && p.name.MarkerOf?
      invariant forall p :: p in markers ==> p in m.fs && p in old(m.fs) && m.fs[p] == old(m.fs)[p]
      invariant ok ==> forall p :: p in Children(m.fs, dir) && p.name.MarkerOf? ==> p in markers
      invariant ok ==> forall i :: plan.InRange(i) && MarkerPath(plan.op, i) in old(m.fs) ==>
                  MarkerPath(plan.op, i) in markers || old(m.fs)[MarkerPath(plan.op, i)].MarkerFile?
      invariant !m.faulty && !ok ==> !plan.NoTornMarker(old(m.fs))
      decreases |markers|
    {
      var path :| path in markers;
      MarkerIsOfPlan(plan, phase, m.Now(), path);
      markers := markers - {path};
      ok := RecoverMarker(m, dir, path, known, true, path.name.index, plan, phases);
    }
    if ok {
      NoMarkerNoPayload(plan, phase, m.Now());
      ok := RemoveTrashTree(m, dir, plan, phase, phases);
    }
  }

  lemma MarkerIsOfPlan(plan: Plan, phase: Phase, w: World, p: Path)
    requires plan.Sane() && (phase == Opening || phase == Closed) && plan.Admits({phase}, w)
    requires p in w.fs && p.Child? && p.parent == OperationDir(plan.op) && p.name.MarkerOf?
    ensures plan.InRange(p.name.index) && p == MarkerPath(plan.op, p.name.index) && phase == Opening
  {
    hide LibraryLayout;
    RestingShape(plan, phase, w);
    TrashPathCases(plan, w.fs, p);
  }

  lemma NoMarkerNoPayload(plan: Plan, phase: Phase, w: World)
    requires plan.Sane() && (phase == Opening || phase == Closed) && plan.Admits({phase}, w)
    requires forall p :: p in Children(w.fs, OperationDir(plan.op)) ==> !p.name.MarkerOf?
    ensures forall i :: plan.InRange(i) ==> PathGone(w.fs, plan.op, i)
  {
    hide LibraryLayout, Plan.Shape;
    RestingShape(plan, phase, w);
    var dir := OperationDir(plan.op);
    assert forall p :: p in w.fs && p.Child? && p.parent == dir ==> p in Children(w.fs, dir);
  }

  lemma AdmittedShape(plan: Plan, phase: Phase, w: World)
    requires plan.Admits({phase}, w)
    ensures plan.Shape(w.fs)
  {
  }

  method RemoveTrashTree(m: Machine, dir: Path, ghost plan: Plan, ghost phase: Phase, ghost phases: set<Phase>)
    returns (ok: bool)
    requires plan.Sane() && phase in phases && plan.Admits({phase}, m.Now()) && plan.AllIn(phases, m.visited)
    requires dir == OperationDir(plan.op) && forall i :: plan.InRange(i) ==> PathGone(m.fs, plan.op, i)
    modifies m
    ensures m.store == old(m.store) && old(m.visited) <= m.visited
    ensures plan.Admits({phase}, m.Now()) && plan.AllIn(phases, m.visited)
    ensures ok ==> plan.TrashIsEmpty(m.fs)
    ensures !m.faulty ==> ok
  {
    hide Plan.Sane, Plan.Shape, Plan.Admits;
    AdmittedShape(plan, phase, m.Now());
    if dir in m.fs {
      OperationDirIsDirectory(plan, m.fs);
    }
    NothingInOperationDir(plan, m.fs);
    StepDirectoryRemoved(plan, phase, m.Now());
    AdmittedByMore(plan, phase, phases, m.Now());
    AdmittedByMore(plan, phase, phases, World(m.fs - {dir}, m.store));
    ok := RemoveEmptyTree(m, dir, plan.op);
  }

  lemma TrashChildren(plan: Plan, phase: Phase, w: World)
    requires plan.Sane() && (phase == Opening || phase == Closed) && plan.Admits({phase}, w)
    ensures Children(w.fs, TRASH_ROOT) <= {OperationDir(plan.op)}
    ensures OperationDir(plan.op) in w.fs ==>
              w.fs[OperationDir(plan.op)] == Directory && OperationDir(plan.op) in Children(w.fs, TRASH_ROOT)
              && TRASH_ROOT in w.fs
    ensures OperationDir(plan.op) !in w.fs ==> plan.TrashIsEmpty(w.fs) && plan.NoTornMarker(w.fs)
  {
    hide LibraryLayout;
    RestingShape(plan, phase, w);
    forall p | p in Children(w.fs, TRASH_ROOT) ensures p == OperationDir(plan.op) {
      TrashPathCases(plan, w.fs, p);
    }
  }

  /** Scans every operation directory in the trash. */
  method RecoverOrphanMarkers(m: Machine, ghost plan: Plan, ghost phase: Phase, ghost phases: set<Phase>)
    returns (ok: bool)
    requires Resting(m, plan, phase, phases)
    modifies m
    ensures m.store == old(m.store) && old(m.visited) <= m.visited
    ensures Resting(m, plan, phase, phases)
    ensures ok ==> plan.TrashIsEmpty(m.fs) && plan.NoTornMarker(old(m.fs)) && RootUsable(old(m.fs))
    ensures !m.faulty ==> (ok <==> plan.NoTornMarker(old(m.fs)) && RootUsable(old(m.fs)))
    ensures plan.TrashIsEmpty(old(m.fs)) ==> m.fs == old(m.fs)
  {
    hide Plan.Sane, Plan.Shape, Plan.Admits, Plan.NoTornMarker;
    RestingShape(plan, phase, m.Now());
    TrashChildren(plan, phase, m.Now());
    var unreadable := m.Fault();
    if unreadable || (TRASH_ROOT in m.fs && !m.fs[TRASH_ROOT].IsDir()) {
      return false;
    }
    if TRASH_ROOT !in m.fs {
      return true;
    }
    var known := set intent | intent in m.store.intents :: (intent.operationId, intent.entryKey);
    var operations := Children(m.fs, TRASH_ROOT);
    ok := true;
    while operations != {} && ok
      invariant m.store == old(m.store) && old(m.visited) <= m.visited
      invariant Resting(m, plan, phase, phases)
      invariant operations <= {OperationDir(plan.op)}
      invariant operations != {} ==> m.fs == old(m.fs) && OperationDir(plan.op) in m.fs
      invariant operations == {} && ok ==> plan.TrashIsEmpty(m.fs) && plan.NoTornMarker(old(m.fs))
      invariant !m.faulty && !ok ==> !plan.NoTornMarker(old(m.fs))
      invariant plan.TrashIsEmpty(old(m.fs)) ==> m.fs == old(m.fs)
      decreases |operations|
    {
      var operation :| operation in operations;
      operations := operations - {operation};
      unreadable := m.Fault();
      if unreadable || m.fs[operation].Symlink? {
        return false;
      }
      if m.fs[operation].IsDir() {
        ok := RecoverOperation(m, operation, known, plan, phase, phases);
      }
    }
  }

  // ---------------------------------------------------------------- recover_pending_deletes

  function OfOperation(intents: seq<Intent>, op: string): (r: seq<Intent>)
    ensures |r| <= |intents|
    ensures forall i :: i in r <==> i in intents && i.operationId == op
    ensures (exists i :: i in intents && i.operationId == op) ==> r != []
  {
    if intents == [] then []
    else if intents[0].operationId == op then [intents[0]] + OfOperation(intents[1..], op)
    else OfOperation(intents[1..], op)
  }

  lemma {:induction false} AllOfOperation(intents: seq<Intent>, op: string)
    requires forall i :: 0 <= i < |intents| ==> intents[i].operationId == op
    ensures OfOperation(intents, op) == intents
  {
    if intents != [] {
      AllOfOperation(intents[1..], op);
    }
  }

  /** `validate_intent_paths`. */
  predicate ValidIntent(fs: Files, intent: Intent) {
    && SafeIdentifier(intent.operationId)
    && ValidSource(fs, intent.sourcePath) && ValidTrash(fs, intent.operationId, intent.trashPath)
  }

  lemma IntentsAreValid(plan: Plan, fs: Files, i: int)
    requires plan.Sane() && plan.Shape(fs) && plan.PathsValid() && plan.InRange(i)
    ensures ValidIntent(fs, plan.Intents()[i]) && ValidIntent(fs, plan.CommittedIntents()[i])
  {
    SourceValidityIsStable(plan, fs, plan.entries[i]);
    assert Root !in fs;
    assert ClearWay(fs, OperationDir(plan.op));
    assert ValidTrash(fs, plan.op, PayloadPath(plan.op, i));
  }

  /** A state whose intents say what belongs where. */
  ghost predicate Intended(m: Machine, plan: Plan, phase: Phase, phases: set<Phase>)
    reads m
  {
    && plan.Sane() && (phase == Staging || phase == Cleaning) && phase in phases
    && plan.Admits({phase}, m.Now()) && plan.AllIn(phases, m.visited)
  }

  lemma RootStaysUsable(plan: Plan, fs: Files)
    requires plan.Shape(fs) && RootUsable(plan.start.fs)
    ensures RootUsable(fs)
  {
  }

  lemma IntendedShape(plan: Plan, phase: Phase, w: World)
    requires plan.Sane() && plan.Admits({phase}, w) && (phase == Staging || phase == Cleaning)
    ensures plan.Shape(w.fs) && plan.PathsValid() && plan.NoTornMarker(w.fs)
    ensures w.store == if phase == Staging then plan.StagedStore() else plan.CommittedStore()
    ensures w.store.intents == if phase == Staging then plan.Intents() else plan.CommittedIntents()
    ensures forall intent :: intent in w.store.intents ==> ValidIntent(w.fs, intent) && intent.operationId == plan.op
    ensures w.store.intents != [] && RootUsable(w.fs)
    ensures forall intent :: intent in w.store.intents ==> intent.state.Staged? == (phase == Staging)
  {
    hide Plan.Shape, Plan.ContentKept, Plan.AllAway, ValidIntent, LibraryLayout;
    IntentsOfPlan(plan);
    RootStaysUsable(plan, w.fs);
    forall i | plan.InRange(i)
      ensures ValidIntent(w.fs, plan.Intents()[i]) && ValidIntent(w.fs, plan.CommittedIntents()[i])
    {
      IntentsAreValid(plan, w.fs, i);
    }
  }

  /** The steps of restoring one of the operation's own intents stay in its phase. */
  lemma OwnIntentIsHome(m: Machine, intent: Intent, i: nat, plan: Plan, phases: set<Phase>)
    requires Intended(m, plan, Staging, phases) && plan.InRange(i) && intent == plan.Intents()[i]
    ensures ValidIntent(m.fs, intent) && intent.trashPath == PayloadPath(plan.op, i)
    ensures plan.Admits(phases, m.Now())
    ensures intent.trashPath in m.fs ==>
              && m.fs[intent.trashPath].IsDir() && intent.sourcePath !in m.fs
              && var moved := World(Moved(m.fs, intent.trashPath, intent.sourcePath), m.store);
                 plan.Admits({Staging}, moved) && plan.Admits(phases, moved)
  {
    hide Plan.Sane, Plan.Shape, Plan.BeforeIntents, Plan.IntentsStaged, Plan.IntentsCommitted, Plan.Finalized;
    hide ValidIntent, Plan.StagedStore, Plan.CommittedStore, Plan.NoTornMarker, Plan.PathsValid;
    IntendedShape(plan, Staging, m.Now());
    if intent.trashPath in m.fs {
      PayloadIsAway(plan, m.fs, i);
      StepMovedBack(plan, Staging, m.Now(), i);
    }
  }

  /** `restore_intent`, in any library; `own` says that the intent is one of the operation's own. Paths
      that are not genuine are refused, and nothing is touched. */
  method RestoreIntent(m: Machine, intent: Intent, ghost own: bool, ghost i: nat, ghost plan: Plan,
                       ghost phases: set<Phase>)
    returns (ok: bool)
    requires own ==> Intended(m, plan, Staging, phases) && plan.InRange(i) && intent == plan.Intents()[i]
    modifies m
    ensures m.store == old(m.store) && old(m.visited) <= m.visited
    ensures own ==> Intended(m, plan, Staging, phases)
    ensures forall p :: p in m.fs ==> p in old(m.fs) || p == intent.sourcePath
    ensures own && ok ==> PayloadPath(plan.op, i) !in m.fs
    ensures own && !m.faulty ==> ok
    ensures var payload, source := intent.trashPath, intent.sourcePath;
            if PlainName(intent.operationId) && PathsAreGenuine(old(m.fs), intent.operationId, source, payload)
            then && (ok ==> if payload !in old(m.fs) then m.fs == old(m.fs)
                            else old(m.fs)[payload].IsDir() && source !in old(m.fs)
                                 && m.fs == Moved(old(m.fs), payload, source))
                 && (!m.faulty ==>
                       (ok <==> payload !in old(m.fs) || (old(m.fs)[payload].IsDir() && source !in old(m.fs))))
            else !ok && m.fs == old(m.fs)
  {
    hide Plan.Sane, Plan.Admits, PathsAreGenuine, PlainName, SafeIdentifier, ValidSource, ValidTrash, Plan.Intents;
    SafeIdentifierIff(intent.operationId);
    ValidPathsIff(m.fs, intent.operationId, intent.sourcePath, intent.trashPath);
    ok := false;
    if own {
      OwnIntentIsHome(m, intent, i, plan, phases);
    }
    var unreadable := m.Fault();
    if unreadable || !ValidIntent(m.fs, intent) || (intent.trashPath in m.fs && !m.fs[intent.trashPath].IsDir()) {
      return;
    }
    ok := true;
    if intent.trashPath in m.fs {
      ok := false;
      var otherFileSystem := m.Fault();
      if intent.sourcePath !in m.fs && !otherFileSystem {
        ok := m.Rename(intent.trashPath, intent.sourcePath);
      }
      var unsynced := m.Fault();
      ok := ok && !unsynced;
    }
  }

  method RestoreIntents(m: Machine, intents: seq<Intent>, ghost plan: Plan, ghost phases: set<Phase>)
    returns (ok: bool)
    requires Intended(m, plan, Staging, phases) && intents == plan.Intents()
    modifies m
    ensures m.store == old(m.store) && old(m.visited) <= m.visited
    ensures Intended(m, plan, Staging, phases)
    ensures ok ==> forall i :: plan.InRange(i) ==> PayloadPath(plan.op, i) !in m.fs
    ensures !m.faulty ==> ok
  {
    hide Intended;
    ok := true;
    var i := 0;
    while i < |intents| && ok
      invariant 0 <= i <= |intents|
      invariant m.store == old(m.store) && old(m.visited) <= m.visited
      invariant Intended(m, plan, Staging, phases)
      invariant ok ==> forall j :: 0 <= j < i ==> PayloadPath(plan.op, j) !in m.fs
      invariant !m.faulty ==> ok
    {
      ok := RestoreIntent(m, intents[i], true, i, plan, phases);
      i := i + 1;
    }
  }

  /** Nothing changes but what lies below a path. */
  ghost predicate OnlyBelow(before: Files, after: Files, dir: Path) {
    forall p :: !Within(p, dir) ==> (p in before <==> p in after) && (p in before ==> after[p] == before[p])
  }

  ghost predicate OnlyRemoved(before: Files, after: Files) {
    forall p :: p in after ==> p in before && after[p] == before[p]
  }

  /** From `start` on, in the tables nothing and among the files nothing but what lies below a path
      has changed, in the present state and in every new state visited. */
  ghost predicate Confined(start: World, already: set<World>, now: World, visited: set<World>, dir: Path) {
    && now.store == start.store && already <= visited && OnlyBelow(start.fs, now.fs, dir)
    && forall w :: w in visited && w !in already ==> OnlyBelow(start.fs, w.fs, dir) && w.store == start.store
  }

  lemma TreeRemovalIsBelow(fs: Files, path: Path)
    ensures OnlyBelow(fs, WithoutTree(fs, path), path) && OnlyRemoved(fs, WithoutTree(fs, path))
    ensures path !in WithoutTree(fs, path)
    ensures forall rest :: OnlyBelow(fs, WithoutTree(fs, path)[path := SessionTree(rest)], path)
    ensures OnlyBelow(fs, fs, path) && OnlyRemoved(fs, fs)
  {
  }

  /** A payload that is gone, or left half removed, is still a state of the committed operation. */
  lemma PayloadMayBeDamaged(plan: Plan, phases: set<Phase>, w: World, i: nat)
    requires plan.Sane() && Cleaning in phases && plan.Admits({Cleaning}, w) && plan.InRange(i)
    ensures
      var path := PayloadPath(plan.op, i);
      && plan.Admits(phases, w)
      && (path in w.fs ==>
            && w.fs[path].IsDir()
            && plan.Admits({Cleaning}, World(WithoutTree(w.fs, path), w.store))
            && plan.Admits(phases, World(WithoutTree(w.fs, path), w.store))
            && forall rest ::
                 var left := World(WithoutTree(w.fs, path)[path := SessionTree(rest)], w.store);
                 plan.Admits({Cleaning}, left) && plan.Admits(phases, left))
  {
    hide Plan.Sane, Plan.Shape, Plan.BeforeIntents, Plan.IntentsStaged, Plan.IntentsCommitted, Plan.Finalized;
    hide WithoutTree;
    var path := PayloadPath(plan.op, i);
    IntendedShape(plan, Cleaning, w);
    StepPayloadRemoved(plan, w, i);
    if path in w.fs {
      PayloadIsAway(plan, w.fs, i);
      forall rest
        ensures plan.IntentsCommitted(World(WithoutTree(w.fs, path)[path := SessionTree(rest)], w.store))
      {
        StepPayloadDamaged(plan, w, i, rest);
      }
    }
  }

  /** The body of the recovery of committed intents; also of the cleanup after a commit. `own` says
      that the state is the operation's own. */
  method RemovePayload(m: Machine, path: Path, ghost own: bool, ghost i: nat, ghost plan: Plan,
                       ghost phases: set<Phase>)
    returns (ok: bool)
    requires own ==> Intended(m, plan, Cleaning, phases) && plan.InRange(i) && path == PayloadPath(plan.op, i)
    modifies m
    ensures Confined(old(m.Now()), old(m.visited), m.Now(), m.visited, path)
    ensures own ==> Intended(m, plan, Cleaning, phases)
    ensures forall p :: p in m.fs ==> p in old(m.fs)
    ensures ok ==> path !in m.fs && OnlyRemoved(old(m.fs), m.fs)
    ensures !m.faulty && (own || (path in old(m.fs) ==> old(m.fs)[path].IsDir())) ==> ok
  {
    hide Plan.Sane, Plan.Admits, WithoutTree, OnlyBelow;
    TreeRemovalIsBelow(m.fs, path);
    if own {
      PayloadMayBeDamaged(plan, phases, m.Now(), i);
    }
    ok := m.RemoveTree(path);
  }

  method RemoveMarker(m: Machine, path: Path, ghost own: bool, ghost i: nat, ghost plan: Plan,
                      ghost phases: set<Phase>)
    returns (ok: bool)
    requires own ==> Intended(m, plan, Cleaning, phases) && plan.InRange(i) && path == MarkerPath(plan.op, i)
    modifies m
    ensures Confined(old(m.Now()), old(m.visited), m.Now(), m.visited, path)
    ensures own ==> Intended(m, plan, Cleaning, phases)
    ensures OnlyRemoved(old(m.fs), m.fs)
    ensures ok ==> path !in m.fs
    ensures !m.faulty && (own || (path in old(m.fs) ==> old(m.fs)[path].MarkerFile?)) ==> ok
  {
    hide Plan.Sane, Plan.Shape, Plan.BeforeIntents, Plan.IntentsStaged, Plan.IntentsCommitted, Plan.Finalized;
    if own {
      IntendedShape(plan, Cleaning, m.Now());
      if path in m.fs {
        MarkerIsFile(plan, m.fs, i);
      }
      StepMarkerRemoved(plan, Cleaning, m.Now(), i);
    }
    ok := m.RemoveFile(path);
  }

  method RemoveIntents(m: Machine, intents: seq<Intent>, ghost plan: Plan, ghost phases: set<Phase>)
    returns (ok: bool)
    requires Intended(m, plan, Cleaning, phases) && intents == plan.CommittedIntents()
    modifies m
    ensures m.store == old(m.store) && old(m.visited) <= m.visited
    ensures Intended(m, plan, Cleaning, phases)
    ensures ok ==> forall i :: plan.InRange(i) ==> PathGone(m.fs, plan.op, i)
    ensures !m.faulty ==> ok
  {
    hide Intended;
    ok := true;
    var i := 0;
    while i < |intents| && ok
      invariant 0 <= i <= |intents|
      invariant m.store == old(m.store) && old(m.visited) <= m.visited
      invariant Intended(m, plan, Cleaning, phases)
      invariant ok ==> forall j :: 0 <= j < i ==> MarkerPath(plan.op, j) !in m.fs && PayloadPath(plan.op, j) !in m.fs
      invariant !m.faulty ==> ok
    {
      var payload := intents[i].trashPath;
      ok := RemovePayload(m, payload, true, i, plan, phases);
      if ok {
        ok := RemoveMarker(m, Child(payload.parent, MarkerOf(payload.name.index)), true, i, plan, phases);
      }
      i := i + 1;
    }
  }

  ghost predicate NoDeleteLease(store: Store) {
    forall k :: k in store.leases ==> store.leases[k].kind.UploadLease?
  }

  /** Delete leases here belong to the operation; without them the tables are final. */
  lemma RestingLeases(plan: Plan, phase: Phase, w: World)
    requires plan.Sane() && plan.Admits({phase}, w) && (phase == Opening || phase == Closed)
    ensures forall k :: k in w.store.leases && w.store.leases[k].kind.DeleteLease? ==>
              w.store.leases[k].operationId == plan.op && phase == Opening
    ensures phase == Opening ==> w.store.ReleaseLeases(plan.op) == plan.start.store
    ensures phase == Opening && NoDeleteLease(w.store) ==> w.store == plan.start.store
    ensures NoDeleteLease(plan.start.store)
  {
    hide LibraryLayout, Plan.Shape, Plan.AllAway, Plan.ContentKept, Plan.PayloadsMarked;
    ClosingStagedRestores(plan);
    assert plan.DeletedStore().leases == plan.LeasedStore().ReleaseLeases(plan.op).leases == plan.start.store.leases;
    if plan.Keys() !! plan.start.store.leases.Keys {
      assert plan.entries[0].key in plan.Keys();
      assert plan.entries[0].key in plan.LeasedStore().leases;
    }
  }

  lemma StepLeasesReleased(plan: Plan, w: World)
    requires plan.BeforeIntents(w)
    ensures plan.BeforeIntents(World(w.fs, plan.start.store))
  {
  }

  /** Releases delete leases that no intent refers to. */
  method ReleaseOrphanLeases(m: Machine, ghost plan: Plan, ghost phase: Phase, ghost phases: set<Phase>)
    returns (ok: bool)
    requires Resting(m, plan, phase, phases)
    modifies m
    ensures m.fs == old(m.fs) && old(m.visited) <= m.visited
    ensures Resting(m, plan, phase, phases)
    ensures ok ==> NoDeleteLease(m.store)
    ensures NoDeleteLease(old(m.store)) ==> m.store == old(m.store)
    ensures !m.faulty ==> ok
  {
    hide Plan.Sane, Plan.Shape, Plan.BeforeIntents, Plan.IntentsStaged, Plan.IntentsCommitted, Plan.Finalized;
    RestingShape(plan, phase, m.Now());
    RestingLeases(plan, phase, m.Now());
    var referenced := set intent | intent in m.store.intents :: intent.operationId;
    var listed := m.store.leases;
    var keys := listed.Keys;
    ok := true;
    while keys != {} && ok
      invariant m.fs == old(m.fs) && old(m.visited) <= m.visited
      invariant Resting(m, plan, phase, phases)
      invariant keys <= listed.Keys
      invariant m.store == old(m.store) || (phase == Opening && m.store == plan.start.store)
      invariant ok ==> forall k :: k in m.store.leases && m.store.leases[k].kind.DeleteLease? ==> k in keys
      invariant NoDeleteLease(old(m.store)) ==> m.store == old(m.store)
      invariant !m.faulty ==> ok
      decreases |keys|
    {
      var key :| key in keys;
      keys := keys - {key};
      if listed[key].kind.DeleteLease? && listed[key].operationId !in referenced {
        RestingShape(plan, phase, m.Now());
        RestingLeases(plan, phase, m.Now());
        StepLeasesReleased(plan, m.Now());
        ok := m.ReleaseLeases(listed[key].operationId);
      }
    }
  }

  function Side(phase: Phase): set<Phase> {
    if phase in BEFORE_COMMIT then BEFORE_COMMIT else AFTER_COMMIT
  }

  function Rest(phase: Phase): Phase {
    if phase in BEFORE_COMMIT then Opening else Closed
  }

  ghost predicate NothingToRestore(plan: Plan, phase: Phase, fs: Files) {
    forall i :: plan.InRange(i) ==>
      PayloadPath(plan.op, i) !in fs && (phase == Cleaning ==> MarkerPath(plan.op, i) !in fs)
  }

  lemma StepIntentsClosed(plan: Plan, phase: Phase, w: World)
    requires plan.Sane() && (phase == Staging || phase == Cleaning) && plan.Admits({phase}, w)
    requires NothingToRestore(plan, phase, w.fs)
    ensures plan.Admits({Rest(phase)}, World(w.fs, w.store.CloseDelete(plan.op)))
  {
    hide LibraryLayout, Plan.Shape, Plan.ContentKept, Plan.AllAway;
    ClosingStagedRestores(plan);
  }

  /** Undoes or finishes the operation according to the state of its intents. */
  method RecoverIntents(m: Machine, intents: seq<Intent>, ghost plan: Plan, ghost phase: Phase,
                        ghost phases: set<Phase>)
    returns (ok: bool)
    requires Intended(m, plan, phase, phases) && intents == m.store.intents
    modifies m
    ensures old(m.visited) <= m.visited && m.store == old(m.store)
    ensures Intended(m, plan, phase, phases)
    ensures ok ==> NothingToRestore(plan, phase, m.fs)
    ensures !m.faulty ==> ok
  {
    hide Plan.Sane, Plan.Shape, Plan.BeforeIntents, Plan.IntentsStaged, Plan.IntentsCommitted, Plan.Finalized;
    hide ValidIntent, Plan.NoTornMarker, RootUsable, Plan.PathsValid, Plan.StagedStore, Plan.CommittedStore;
    IntendedShape(plan, phase, m.Now());
    var mixed := exists intent :: intent in intents && intent.state != intents[0].state;
    ok := |intents| > 0 && !mixed;
    if ok && intents[0].state.Staged? {
      ok := RestoreIntents(m, intents, plan, phases);
    } else if ok {
      ok := RemoveIntents(m, intents, plan, phases);
    }
  }

  /** `abort_library_delete` after a rollback, `finalize_library_delete` after a cleanup. */
  method CloseRecovered(m: Machine, operation: string, ghost plan: Plan, ghost phase: Phase, ghost phases: set<Phase>)
    returns (ok: bool)
    requires Intended(m, plan, phase, phases) && NothingToRestore(plan, phase, m.fs)
    requires operation == plan.op && Rest(phase) in phases
    modifies m
    ensures old(m.visited) <= m.visited && m.fs == old(m.fs)
    ensures if ok then Resting(m, plan, Rest(phase), phases) else Intended(m, plan, phase, phases)
    ensures !m.faulty ==> ok
  {
    hide Plan.Sane, Plan.BeforeIntents, Plan.IntentsStaged, Plan.IntentsCommitted, Plan.Finalized;
    StepIntentsClosed(plan, phase, m.Now());
    ok := m.CloseDelete(operation);
  }

  method RecoverOperationIntents(m: Machine, operation: string, intents: seq<Intent>, ghost plan: Plan,
                                 ghost phase: Phase, ghost phases: set<Phase>)
    returns (ok: bool)
    requires Intended(m, plan, phase, phases) && operation == plan.op && intents == m.store.intents
    requires Rest(phase) in phases
    modifies m
    ensures old(m.visited) <= m.visited
    ensures if ok then Resting(m, plan, Rest(phase), phases) else Intended(m, plan, phase, phases)
    ensures !m.faulty ==> ok && plan.NoTornMarker(m.fs) && RootUsable(m.fs)
  {
    hide Plan.Sane, Plan.Shape, Plan.Admits, Plan.NoTornMarker, RootUsable, ValidIntent, NothingToRestore;
    hide Plan.PathsValid, Plan.StagedStore, Plan.CommittedStore, Resting, Plan.Intents, Plan.CommittedIntents;
    ok := RecoverIntents(m, intents, plan, phase, phases);
    IntendedShape(plan, phase, m.Now());
    if ok {
      ok := CloseRecovered(m, operation, plan, phase, phases);
    }
  }

  /** The operations that left intents, each on its own. */
  method RecoverRecordedOperations(m: Machine, intents: seq<Intent>, ghost plan: Plan, ghost phase: Phase,
                                   ghost phases: set<Phase>)
    returns (ok: bool)
    requires plan.Sane() && plan.Admits({phase}, m.Now()) && Side(phase) <= phases && plan.AllIn(phases, m.visited)
    requires intents == m.store.intents
    modifies m
    ensures old(m.visited) <= m.visited
    ensures if ok then Resting(m, plan, Rest(phase), phases) else m.faulty && Intended(m, plan, phase, phases)
    ensures intents == [] ==> ok && m.Now() == old(m.Now())
    ensures !m.faulty && intents != [] ==> plan.NoTornMarker(m.fs) && RootUsable(m.fs)
  {
    hide Plan.Sane, Plan.Shape, Plan.BeforeIntents, Plan.IntentsStaged, Plan.IntentsCommitted, Plan.Finalized;
    hide Plan.NoTornMarker, RootUsable, ValidIntent;
    PhaseShape(plan, phase, m.Now());
    var operations := set intent | intent in intents :: intent.operationId;
    ok := true;
    assert intents != [] ==> intents[0].operationId in operations;
    while operations != {} && ok
      invariant old(m.visited) <= m.visited
      invariant plan.AllIn(phases, m.visited)
      invariant (operations == {} && ok && Resting(m, plan, Rest(phase), phases))
             || (m.Now() == old(m.Now()) && ok && operations != {})
             || (!ok && Intended(m, plan, phase, phases))
      invariant operations != {} ==> operations == {plan.op}
      invariant intents == [] ==> m.Now() == old(m.Now())
      invariant !m.faulty ==> ok
      invariant !m.faulty && intents != [] ==> plan.NoTornMarker(m.fs) && RootUsable(m.fs)
      decreases |operations|
    {
      var operation :| operation in operations;
      operations := operations - {operation};
      AllOfOperation(intents, operation);
      ok := RecoverOperationIntents(m, operation, OfOperation(intents, operation), plan, phase, phases);
    }
  }

  method RecoverPendingDeletes(m: Machine, ghost plan: Plan, ghost phase: Phase, ghost phases: set<Phase>)
    returns (ok: bool)
    requires plan.Sane() && plan.Admits({phase}, m.Now()) && Side(phase) <= phases && plan.AllIn(phases, m.visited)
    modifies m
    ensures old(m.visited) <= m.visited
    ensures plan.AllIn(phases, m.visited) && plan.Admits(Side(phase), m.Now())
    ensures ok && phase in BEFORE_COMMIT ==> plan.Kept(m.Now())
    ensures ok && phase in AFTER_COMMIT ==> m.Now() == plan.DeletedWorld()
    ensures ok ==> plan.NoTornMarker(old(m.fs)) && RootUsable(old(m.fs))
    ensures !m.faulty ==> (ok <==> plan.NoTornMarker(old(m.fs)) && RootUsable(old(m.fs)))
    ensures plan.Kept(old(m.Now())) || old(m.Now()) == plan.DeletedWorld() ==> m.Now() == old(m.Now())
  {
    hide Plan.Sane, Plan.Shape, Plan.BeforeIntents, Plan.IntentsStaged, Plan.IntentsCommitted, Plan.Finalized;
    hide Plan.NoTornMarker, Plan.TrashIsEmpty, RootUsable, ValidIntent, Plan.Kept, Plan.DeletedWorld, NoDeleteLease;
    PhaseShape(plan, phase, m.Now());
    if plan.Kept(m.Now()) {
      KeptRests(plan, m.Now());
    }
    DeletedRests(plan);
    ok := false;
    var unreadable := m.Fault();
    var intents := m.store.intents;
    if unreadable || exists intent :: intent in intents && !ValidIntent(m.fs, intent) {
      return;
    }
    ok := RecoverRecordedOperations(m, intents, plan, phase, phases);
    if ok {
      ok := RecoverOrphanMarkers(m, plan, Rest(phase), phases);
    }
    if ok {
      ok := ReleaseOrphanLeases(m, plan, Rest(phase), phases);
    }
    if ok {
      RestingIsFinal(plan, Rest(phase), m.Now());
    }
  }

  /** What the intents of a crash state look like. */
  lemma PhaseShape(plan: Plan, phase: Phase, w: World)
    requires plan.Sane() && plan.Admits({phase}, w)
    ensures phase in {Opening, Closed} ==> w.store.intents == []
    ensures phase in {Staging, Cleaning} ==>
              && w.store.intents != [] && plan.NoTornMarker(w.fs) && RootUsable(w.fs)
              && forall intent :: intent in w.store.intents ==>
                   ValidIntent(w.fs, intent) && intent.operationId == plan.op
  {
    hide Plan.Sane, Plan.Admits, ValidIntent;
    if phase in {Opening, Closed} {
      RestingShape(plan, phase, w);
    } else {
      IntendedShape(plan, phase, w);
    }
  }

  /** Recovery has nothing to do in a state it can end in. */
  lemma KeptRests(plan: Plan, w: World)
    requires plan.Sane() && plan.Kept(w)
    ensures w.store.intents == [] && NoDeleteLease(w.store) && plan.TrashIsEmpty(w.fs)
  {
    NoTrashAtStart(plan);
    hide LibraryLayout;
  }

  lemma DeletedRests(plan: Plan)
    requires plan.Sane()
    ensures plan.DeletedWorld().store.intents == [] && NoDeleteLease(plan.DeletedWorld().store)
    ensures plan.TrashIsEmpty(plan.DeletedWorld().fs)
  {
    NoTrashAtStart(plan);
    hide LibraryLayout;
    IntentsOfPlan(plan);
    ClosingStagedRestores(plan);
    assert plan.DeletedStore().leases == plan.LeasedStore().ReleaseLeases(plan.op).leases == plan.start.store.leases;
  }

  lemma RestingIsFinal(plan: Plan, phase: Phase, w: World)
    requires plan.Sane() && plan.Admits({phase}, w) && (phase == Opening || phase == Closed)
    requires plan.TrashIsEmpty(w.fs) && NoDeleteLease(w.store)
    ensures phase == Opening ==> plan.Kept(w)
    ensures phase == Closed ==> w == plan.DeletedWorld()
  {
    hide LibraryLayout, Plan.Shape, Plan.AllAway, Plan.ContentKept, Plan.PayloadsMarked, Plan.Sane;
    RestingLeases(plan, phase, w);
    if phase == Opening {
      NothingLeftIsKept(plan, w.fs);
    } else {
      NothingLeftIsDeleted(plan, w.fs);
    }
  }
}
