/** `rollback_staged` and `remove_empty_tree`. */
module DeleteRollback {
  import opened DeleteMachine
  import opened DeletePlan
  import opened DeleteSteps
  import opened DeleteWorld

  // ---------------------------------------------------------------- remove_empty_tree

  /** Removes empty directories from the operation directory up to the trash root. */
  method RemoveEmptyTree(m: Machine, path: Path, ghost op: string) returns (ok: bool)
    requires path == OperationDir(op)
    modifies m
    ensures m.store == old(m.store) && old(m.visited) <= m.visited
    ensures forall w :: w in m.visited ==> w in old(m.visited) || w == old(m.Now()) || w == m.Now()
    ensures || m.fs == old(m.fs)
            || (Children(old(m.fs), OperationDir(op)) == {} && m.fs == old(m.fs) - {OperationDir(op)})
    ensures ok && Children(old(m.fs), OperationDir(op)) == {} ==> OperationDir(op) !in m.fs
    ensures !m.faulty && (OperationDir(op) in old(m.fs) ==> old(m.fs)[OperationDir(op)].IsDir()) ==> ok
  {
    var dir := path;
    assert Within(dir.parent, TRASH_ROOT);
    while dir != TRASH_ROOT && Within(dir, TRASH_ROOT)
      invariant m.store == old(m.store) && old(m.visited) <= m.visited
      invariant forall w :: w in m.visited ==> w in old(m.visited) || w == old(m.Now()) || w == m.Now()
      invariant dir == OperationDir(op) || dir == TRASH_ROOT
      invariant dir == OperationDir(op) ==> m.Now() == old(m.Now())
      invariant dir == TRASH_ROOT ==> OperationDir(op) !in m.fs
      invariant || m.fs == old(m.fs)
                || (Children(old(m.fs), OperationDir(op)) == {} && m.fs == old(m.fs) - {OperationDir(op)})
      decreases dir
    {
      var unreadable := m.Fault();
      if unreadable || (dir in m.fs && m.fs[dir].Symlink?) {
        return false;
      }
      if dir in m.fs {
        var outcome := m.RemoveEmptyDirectory(dir);
        if outcome.Failed? {
          return false;
        }
        if outcome.NotEmpty? {
          break;
        }
      }
      dir := dir.parent;
    }
    return true;
  }

  // ---------------------------------------------------------------- rollback_staged

  /** What a rollback can rely on: in phase Staging the intents are the recovery record, before
      that the markers are, so there a stranded payload breaks the phase. */
  ghost predicate RollingBack(m: Machine, plan: Plan, phase: Phase, phases: set<Phase>, stranded: bool)
    reads m
  {
    && plan.Sane() && phase in BEFORE_COMMIT && phase in phases
    && plan.Shape(m.fs) && plan.ContentKept(m.fs) && plan.NoTornMarker(m.fs)
    && (phase == Staging || !stranded ==> plan.Admits({phase}, m.Now()) && plan.AllIn(phases, m.visited))
  }

  predicate PathGone(fs: Files, op: string, i: nat) {
    MarkerPath(op, i) !in fs && PayloadPath(op, i) !in fs
  }

  lemma PayloadIsAway(plan: Plan, fs: Files, i: int)
    requires plan.Shape(fs) && plan.InRange(i) && PayloadPath(plan.op, i) in fs
    ensures fs[PayloadPath(plan.op, i)].IsDir() && Source(plan.entries[i]) !in fs
  {
  }

  lemma MarkerIsFile(plan: Plan, fs: Files, i: int)
    requires plan.Shape(fs) && plan.InRange(i) && MarkerPath(plan.op, i) in fs
    ensures !fs[MarkerPath(plan.op, i)].IsDir() && !fs[MarkerPath(plan.op, i)].Symlink?
  {
  }

  method RollbackRename(m: Machine, path: StagedPath, ghost plan: Plan, ghost i: nat, ghost phase: Phase,
                        ghost phases: set<Phase>, ghost stranded: bool)
    returns (ok: bool)
    requires plan.InRange(i) && path == plan.StagedAt(i)
    requires RollingBack(m, plan, phase, phases, stranded)
    requires path.trashPath in m.fs && path.sourcePath !in m.fs
    modifies m
    ensures m.store == old(m.store) && old(m.visited) <= m.visited
    ensures RollingBack(m, plan, phase, phases, stranded)
    ensures m.fs == if ok then Moved(old(m.fs), path.trashPath, path.sourcePath) else old(m.fs)
    ensures !m.faulty ==> ok
  {
    hide Plan.Shape, Plan.ContentKept, Plan.PayloadsMarked, Plan.Sane, Plan.Admits;
    MovedBack(plan, m.fs, i);
    MovedBackKeeps(plan, m.fs, i);
    if phase == Staging || !stranded {
      StepMovedBack(plan, phase, m.Now(), i);
      AdmittedByMore(plan, phase, phases, m.Now());
      AdmittedByMore(plan, phase, phases, World(Moved(m.fs, path.trashPath, path.sourcePath), m.store));
    }
    ok := m.Rename(path.trashPath, path.sourcePath);
  }

  method RollbackMarker(m: Machine, path: StagedPath, ghost plan: Plan, ghost i: nat, ghost phase: Phase,
                        ghost phases: set<Phase>, ghost stranded: bool)
    returns (ok: bool)
    requires plan.InRange(i) && path == plan.StagedAt(i)
    requires RollingBack(m, plan, phase, phases, stranded) && (path.trashPath in m.fs ==> stranded)
    modifies m
    ensures m.store == old(m.store) && old(m.visited) <= m.visited
    ensures RollingBack(m, plan, phase, phases, stranded)
    ensures m.fs == if ok then old(m.fs) - {path.markerPath} else old(m.fs)
    ensures !m.faulty ==> ok
  {
    hide Plan.Shape, Plan.ContentKept, Plan.PayloadsMarked, Plan.Sane, Plan.Admits;
    MarkerRemoved(plan, m.fs, i);
    if path.markerPath in m.fs {
      MarkerIsFile(plan, m.fs, i);
    }
    if phase == Staging || !stranded {
      StepMarkerRemoved(plan, phase, m.Now(), i);
      AdmittedByMore(plan, phase, phases, m.Now());
      AdmittedByMore(plan, phase, phases, World(m.fs - {MarkerPath(plan.op, i)}, m.store));
    }
    ok := m.RemoveFile(path.markerPath);
  }

  function Touched(path: StagedPath): set<Path> {
    {path.sourcePath, path.trashPath, path.markerPath}
  }

  /** One iteration: move the directory back, then drop its marker. */
  method RollbackPath(m: Machine, path: StagedPath, ghost plan: Plan, ghost i: nat, ghost phase: Phase,
                      ghost phases: set<Phase>, ghost stranded: bool)
    returns (ok: bool, ghost stranded': bool)
    requires plan.InRange(i) && path == plan.StagedAt(i)
    requires RollingBack(m, plan, phase, phases, stranded)
    modifies m
    ensures m.store == old(m.store) && old(m.visited) <= m.visited
    ensures RollingBack(m, plan, phase, phases, stranded')
    ensures stranded' == (stranded || path.trashPath in m.fs)
    ensures ok ==> PathGone(m.fs, plan.op, i)
    ensures ok && path.trashPath in old(m.fs) ==>
              path.sourcePath in m.fs && m.fs[path.sourcePath] == old(m.fs)[path.trashPath]
    ensures m.fs - Touched(path) == old(m.fs) - Touched(path)
    ensures forall p :: p in m.fs ==> p in old(m.fs) || p == path.sourcePath
    ensures !m.faulty ==> ok
  {
    hide Plan.Shape, Plan.ContentKept, Plan.PayloadsMarked, Plan.Sane, Plan.Admits;
    if path.trashPath in m.fs {
      PayloadIsAway(plan, m.fs, i);
    }
    ok := true;
    var unreadable := m.Fault();
    if unreadable || (path.trashPath in m.fs && !m.fs[path.trashPath].IsDir()) {
      ok := false;
    } else if path.trashPath in m.fs {
      var restored := false;
      if path.sourcePath !in m.fs {
        restored := RollbackRename(m, path, plan, i, phase, phases, stranded);
      }
      var unsynced := m.Fault();
      ok := restored && !unsynced;
    }
    stranded' := stranded || path.trashPath in m.fs;
    var removed := RollbackMarker(m, path, plan, i, phase, phases, stranded');
    ok := ok && removed;
  }

  method RollbackDirectory(m: Machine, dir: Path, ghost plan: Plan, ghost phase: Phase,
                           ghost phases: set<Phase>, ghost stranded: bool)
    returns (ok: bool)
    requires dir == OperationDir(plan.op) && RollingBack(m, plan, phase, phases, stranded)
    modifies m
    ensures m.store == old(m.store) && old(m.visited) <= m.visited
    ensures RollingBack(m, plan, phase, phases, stranded)
    ensures ok && (forall i :: plan.InRange(i) ==> PathGone(old(m.fs), plan.op, i)) ==> plan.TrashIsEmpty(m.fs)
    ensures !m.faulty ==> ok
  {
    hide Plan.Shape, Plan.ContentKept, Plan.PayloadsMarked, Plan.Sane, Plan.Admits;
    if dir in m.fs {
      OperationDirIsDirectory(plan, m.fs);
    }
    if phase == Staging || !stranded {
      AdmittedByMore(plan, phase, phases, m.Now());
    }
    if Children(m.fs, dir) == {} {
      ChildlessDirectory(plan, m.fs);
      if phase == Staging || !stranded {
        StepDirectoryRemoved(plan, phase, m.Now());
        AdmittedByMore(plan, phase, phases, World(m.fs - {dir}, m.store));
      }
    }
    if forall i :: plan.InRange(i) ==> PathGone(m.fs, plan.op, i) {
      NothingInOperationDir(plan, m.fs);
    }
    ok := RemoveEmptyTree(m, dir, plan.op);
  }

  /** Moves staged directories back, last first, and drops their markers. `stranded` says that a
      directory was left in the trash although its marker may be gone. */
  method RollbackStaged(m: Machine, staged: seq<StagedPath>, ghost plan: Plan, ghost phase: Phase,
                        ghost phases: set<Phase>)
    returns (ok: bool, ghost stranded: bool)
    requires staged == plan.StagedPaths() && RollingBack(m, plan, phase, phases, false)
    modifies m
    ensures m.store == old(m.store) && old(m.visited) <= m.visited
    ensures RollingBack(m, plan, phase, phases, stranded)
    ensures ok ==> !stranded && plan.TrashIsEmpty(m.fs)
    ensures !m.faulty ==> ok
  {
    hide Plan.Shape, Plan.ContentKept, Plan.PayloadsMarked, Plan.NoTornMarker, Plan.Admits, LibraryLayout, DistinctKeys;
    assert staged != [];
    ok, stranded := true, false;
    var i := |staged|;
    while i > 0
      invariant 0 <= i <= |staged|
      invariant m.store == old(m.store) && old(m.visited) <= m.visited
      invariant RollingBack(m, plan, phase, phases, stranded)
      invariant ok ==> !stranded && forall j :: i <= j < |staged| ==> PathGone(m.fs, plan.op, j)
      invariant !m.faulty ==> ok
    {
      i := i - 1;
      ghost var before := m.fs;
      var done;
      done, stranded := RollbackPath(m, staged[i], plan, i, phase, phases, stranded);
      forall j: nat | PathGone(before, plan.op, j) ensures PathGone(m.fs, plan.op, j) {
      }
      ok := ok && done;
    }
    if |staged| > 0 {
      var removed := RollbackDirectory(m, staged[0].trashPath.parent, plan, phase, phases, stranded);
      ok := ok && removed;
    }
  }
}
