/** `stage_entries`: markers first, then one rename per session directory. */
module DeleteStaging {
  import opened DeleteMachine
  import opened DeletePlan
  import opened DeleteRollback
  import opened DeleteSteps
  import opened DeleteWorld

  /** The first i entries are staged, the others untouched. */
  ghost predicate StagedUpTo(m: Machine, plan: Plan, i: int, phases: set<Phase>)
    reads m
  {
    && plan.Sane() && 0 <= i <= |plan.entries|
    && plan.BeforeIntents(m.Now()) && Opening in phases && plan.AllIn(phases, m.visited)
    && OperationDir(plan.op) in m.fs && plan.NoTornMarker(m.fs)
    && (forall j :: 0 <= j < i ==>
          plan.EntryStageable(j) && Source(plan.entries[j]) !in m.fs && plan.WholeMarker(m.fs, j))
    && (forall j :: i <= j < |plan.entries| ==> PathGone(m.fs, plan.op, j))
  }

  /** A crash here leaves a marker that cannot be read. */
  ghost predicate TornOnTheWay(plan: Plan, visited: set<World>) {
    exists w :: w in visited && plan.BeforeIntents(w) && !plan.NoTornMarker(w.fs)
  }

  method MoveToTrash(m: Machine, source: Path, trashPath: Path, ghost i: nat, ghost plan: Plan,
                     ghost phases: set<Phase>)
    returns (ok: bool)
    requires plan.Sane() && plan.BeforeIntents(m.Now()) && Opening in phases && plan.AllIn(phases, m.visited)
    requires plan.InRange(i) && source == Source(plan.entries[i]) && trashPath == PayloadPath(plan.op, i)
    requires OperationDir(plan.op) in m.fs && plan.WholeMarker(m.fs, i) && trashPath !in m.fs
    requires source in m.fs && m.fs[source].IsDir() && ValidSource(plan.start.fs, source) && !InTrash(source)
    requires forall j :: 0 <= j < i ==> Source(plan.entries[j]) !in m.fs
    modifies m
    ensures m.store == old(m.store) && old(m.visited) <= m.visited
    ensures plan.BeforeIntents(m.Now()) && plan.AllIn(phases, m.visited)
    ensures m.fs == Moved(old(m.fs), source, trashPath) || (!ok && m.fs == old(m.fs))
    ensures !m.faulty ==> ok
  {
    hide Plan.Sane, Plan.BeforeIntents, Plan.IntentsStaged, Plan.IntentsCommitted, Plan.Finalized, Plan.Carrier;
    hide ValidSource, InTrash;
    ok := false;
    var otherFileSystem := m.Fault();
    if otherFileSystem {
      return;
    }
    NextCarrier(plan, m.Now(), i);
    StepMovedToTrash(plan, m.Now(), i);
    var moved := m.Rename(source, trashPath);
    var unsynced := m.Fault();
    ok := moved && !unsynced;
  }

  method StageEntry(m: Machine, op: string, entry: Entry, index: nat, ghost plan: Plan, ghost phases: set<Phase>)
    returns (ok: bool, path: StagedPath)
    requires StagedUpTo(m, plan, index, phases)
    requires plan.InRange(index) && entry == plan.entries[index] && op == plan.op
    modifies m
    ensures m.store == old(m.store) && old(m.visited) <= m.visited
    ensures plan.BeforeIntents(m.Now()) && plan.AllIn(phases, m.visited)
    ensures ok ==> StagedUpTo(m, plan, index + 1, phases) && path == plan.StagedAt(index)
    ensures ok ==> TornOnTheWay(plan, m.visited) && plan.EntryStageable(index)
    ensures !m.faulty ==> (ok <==> plan.EntryStageable(index)) && plan.NoTornMarker(m.fs)
  {
    hide Plan.Sane, Plan.BeforeIntents, Plan.IntentsStaged, Plan.IntentsCommitted, Plan.Finalized;
    hide Plan.EntryStageable, ValidSource, SafeEntry, InTrash, Plan.Carrier;
    var source, trashPath, markerPath := Source(entry), PayloadPath(op, index), MarkerPath(op, index);
    path := StagedPath(entry.key, source, trashPath, markerPath);
    ok := false;
    StageableNow(plan, m.Now(), index);
    assert PathGone(m.fs, op, index);
    if !SafeEntry(entry) || !ValidSource(m.fs, source) {
      return;
    }
    var marker := TrashMarker(op, entry.key, source, trashPath);
    StepMarkerWritten(plan, m.Now(), index, TornFile);
    StepMarkerWritten(plan, m.Now(), index, MarkerFile(marker));
    ghost var torn := World(m.fs[markerPath := TornFile], m.store);
    var written := m.WriteMarker(markerPath, marker);
    if !written {
      return;
    }
    assert torn in m.visited && torn.fs[markerPath] == TornFile;
    var unsynced := m.Fault();
    var unreadable := m.Fault();
    if unsynced || unreadable || (source in m.fs && !m.fs[source].IsDir()) {
      return;
    }
    if source in m.fs {
      var moved := MoveToTrash(m, source, trashPath, index, plan, phases);
      if !moved {
        return;
      }
    }
    forall j | index < j < |plan.entries| ensures PathGone(m.fs, op, j) {
      assert PathGone(old(m.fs), op, j);
    }
    ok := true;
  }

  method StageRoot(m: Machine, op: string, ghost plan: Plan, ghost phases: set<Phase>) returns (ok: bool)
    requires plan.Sane() && m.fs == plan.start.fs && plan.BeforeIntents(m.Now()) && op == plan.op
    requires Opening in phases && plan.AllIn(phases, m.visited)
    modifies m
    ensures m.store == old(m.store) && old(m.visited) <= m.visited
    ensures plan.BeforeIntents(m.Now()) && plan.AllIn(phases, m.visited) && plan.NoTornMarker(m.fs)
    ensures ok ==> StagedUpTo(m, plan, 0, phases) && RootUsable(plan.start.fs)
    ensures !RootUsable(plan.start.fs) ==> m.fs == old(m.fs)
    ensures !m.faulty ==> (ok <==> RootUsable(plan.start.fs))
  {
    hide Plan.BeforeIntents, Plan.IntentsStaged, Plan.IntentsCommitted, Plan.Finalized;
    NoTrashAtStart(plan);
    ok := false;
    var unreadable := m.Fault();
    if unreadable || (TRASH_ROOT in m.fs && !m.fs[TRASH_ROOT].IsDir()) {
      return;
    }
    if TRASH_ROOT !in m.fs {
      StepTrashRootCreated(plan, m.Now());
      var created := m.CreateDirectory(TRASH_ROOT);
      if !created {
        return;
      }
    }
    StepOperationDirCreated(plan, m.Now());
    var created := m.CreateDirectory(OperationDir(op));
    var unsynced := m.Fault();
    ok := created && !unsynced;
  }

  method StageEntries(m: Machine, op: string, entries: seq<Entry>, ghost plan: Plan, ghost phases: set<Phase>)
    returns (ok: bool, staged: seq<StagedPath>)
    requires plan.Sane() && m.fs == plan.start.fs && plan.BeforeIntents(m.Now())
    requires op == plan.op && entries == plan.entries && entries != []
    requires Opening in phases && plan.AllIn(phases, m.visited)
    modifies m
    ensures m.store == old(m.store) && old(m.visited) <= m.visited
    ensures plan.BeforeIntents(m.Now()) && plan.AllIn(phases, m.visited)
    ensures ok ==> StagedUpTo(m, plan, |entries|, phases) && staged == plan.StagedPaths() && plan.Stageable()
    ensures ok ==> TornOnTheWay(plan, m.visited)
    ensures !m.faulty ==> (ok <==> plan.Stageable()) && plan.NoTornMarker(m.fs)
    ensures !RootUsable(plan.start.fs) ==> m.fs == old(m.fs)
  {
    hide StagedUpTo, Plan.Sane, Plan.BeforeIntents, Plan.AllIn, Plan.EntryStageable, TornOnTheWay, Plan.NoTornMarker;
    staged := [];
    ok := StageRoot(m, op, plan, phases);
    var i := 0;
    while i < |entries| && ok
      invariant 0 <= i <= |entries|
      invariant m.store == old(m.store) && old(m.visited) <= m.visited
      invariant plan.BeforeIntents(m.Now()) && plan.AllIn(phases, m.visited)
      invariant ok ==> StagedUpTo(m, plan, i, phases) && |staged| == i
      invariant ok ==> forall j :: 0 <= j < i ==> staged[j] == plan.StagedAt(j)
      invariant ok ==> RootUsable(plan.start.fs) && forall j :: 0 <= j < i ==> plan.EntryStageable(j)
      invariant ok && i > 0 ==> TornOnTheWay(plan, m.visited)
      invariant !m.faulty ==> plan.NoTornMarker(m.fs) && (plan.Stageable() ==> ok)
      invariant !RootUsable(plan.start.fs) ==> m.fs == old(m.fs)
    {
      var path;
      ok, path := StageEntry(m, op, entries[i], i, plan, phases);
      if ok {
        staged := staged + [path];
      }
      i := i + 1;
    }
  }
}
