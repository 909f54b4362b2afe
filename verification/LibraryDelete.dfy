/** The delete transaction of src-tauri/src/library_delete.rs, over a machine that may fail and
    may stop after any durable step. */
module LibraryDelete {
  import opened DeleteCleanup
  import opened DeleteMachine
  import opened DeletePlan
  import opened DeleteRecovery
  import opened DeleteRollback
  import opened DeleteStaging
  import opened DeleteSteps
  import opened DeleteWorld

  // ---------------------------------------------------------------- the batch

  /** Entries that share a key are the same entry. */
  predicate KeysAgree(entries: seq<Entry>) {
    forall e, f :: e in entries && f in entries && e.key == f.key ==> e == f
  }

  predicate FreshKey(entries: seq<Entry>, key: string) {
    forall e :: e in entries ==> e.key != key
  }

  function FirstOfEachKey(entries: seq<Entry>): (unique: seq<Entry>)
    ensures DistinctKeys(unique)
    ensures forall e :: e in unique ==> e in entries
    ensures entries != [] ==> unique != []
  {
    if entries == [] then [] else
      var before, last := entries[..|entries| - 1], entries[|entries| - 1];
      if FreshKey(before, last.key) then FirstOfEachKey(before) + [last] else FirstOfEachKey(before)
  }

  /** Without conflicting keys nothing the caller named is lost. */
  lemma {:induction false} AgreeingKeysLoseNothing(entries: seq<Entry>)
    requires KeysAgree(entries)
    ensures forall e :: e in entries <==> e in FirstOfEachKey(entries)
  {
    if entries != [] {
      var before, last := entries[..|entries| - 1], entries[|entries| - 1];
      AgreeingKeysLoseNothing(before);
      assert entries == before + [last];
      if !FreshKey(before, last.key) {
        var e :| e in before && e.key == last.key;
        assert e == last;
      }
    }
  }

  lemma {:induction false} OneMoreEntry(entries: seq<Entry>, i: nat)
    requires i < |entries| && KeysAgree(entries[..i])
    ensures FreshKey(FirstOfEachKey(entries[..i]), entries[i].key) ==>
              && KeysAgree(entries[..i + 1])
              && FirstOfEachKey(entries[..i + 1]) == FirstOfEachKey(entries[..i]) + [entries[i]]
    ensures entries[i] in FirstOfEachKey(entries[..i]) ==>
              && KeysAgree(entries[..i + 1])
              && FirstOfEachKey(entries[..i + 1]) == FirstOfEachKey(entries[..i])
  {
    AgreeingKeysLoseNothing(entries[..i]);
    assert entries[..i + 1] == entries[..i] + [entries[i]];
    assert entries[..i + 1][..i] == entries[..i];
  }

  lemma Conflict(entries: seq<Entry>, e: Entry, f: Entry)
    requires e in entries && f in entries && e.key == f.key && e != f
    ensures !KeysAgree(entries)
  {
  }

  lemma NoEntries()
    ensures KeysAgree([]) && FirstOfEachKey([]) == []
  {
  }

  method UniqueEntries(entries: seq<Entry>) returns (ok: bool, unique: seq<Entry>)
    ensures ok <==> KeysAgree(entries)
    ensures ok ==> unique == FirstOfEachKey(entries)
  {
    hide KeysAgree, FirstOfEachKey;
    NoEntries();
    unique := [];
    var i := 0;
    while i < |entries|
      invariant 0 <= i <= |entries|
      invariant KeysAgree(entries[..i]) && unique == FirstOfEachKey(entries[..i])
    {
      OneMoreEntry(entries, i);
      var j := FindKey(unique, entries[i].key);
      if j < |unique| && unique[j] != entries[i] {
        assert unique[j] in entries[..i];
        Conflict(entries, unique[j], entries[i]);
        return false, [];
      }
      if j == |unique| {
        assert unique[..j] == unique;
        unique := unique + [entries[i]];
      }
      i := i + 1;
    }
    assert entries[..i] == entries;
    ok := true;
  }

  method FindKey(entries: seq<Entry>, key: string) returns (j: nat)
    ensures j <= |entries| && FreshKey(entries[..j], key)
    ensures j < |entries| ==> entries[j].key == key
  {
    j := 0;
    while j < |entries| && entries[j].key != key
      invariant j <= |entries| && FreshKey(entries[..j], key)
    {
      j := j + 1;
    }
  }

  // ---------------------------------------------------------------- delete_entries

  /** What a result says about the machine it is returned from. A directory is `stranded` only
      when recording the intents failed and moving it back failed as well. */
  ghost predicate Truthful(m: Machine, plan: Plan, result: DeleteResult, stranded: bool)
    reads m
  {
    && (stranded ==> m.faulty)
    && (!stranded ==> plan.AllIn(ALL_PHASES, m.visited))
    && match result {
      case Done(revision) =>
        m.Now() == plan.DeletedWorld() && revision == plan.CommittedStore().revision
      case Incomplete(revision) =>
        m.faulty && Own(m, plan.op, plan, ALL_PHASES) && revision == plan.CommittedStore().revision
      case Permanent(restored) =>
        && (!stranded ==> plan.Admits(BEFORE_COMMIT, m.Now()))
        && MetadataKept(plan.start.store, m.store)
        && (restored ==> !stranded && plan.FilesKept(m.fs))
        && (!m.faulty ==> plan.Kept(m.Now()))
    }
  }

  ghost predicate Begun(m: Machine, plan: Plan)
    reads m
  {
    plan.Sane() && plan.BeforeIntents(m.Now()) && plan.AllIn(ALL_PHASES, m.visited)
  }

  /** The failed staging is undone from its markers, and the leases are given back. */
  method AbandonStaging(m: Machine, op: string, ghost plan: Plan) returns (result: DeleteResult)
    requires Begun(m, plan) && op == plan.op
    requires !m.faulty ==> plan.NoTornMarker(m.fs)
    requires !RootUsable(plan.start.fs) ==> m.fs == plan.start.fs
    modifies m
    ensures old(m.visited) <= m.visited
    ensures result.Permanent? && Truthful(m, plan, result, false)
  {
    hide Plan.Sane, Plan.BeforeIntents, Plan.IntentsStaged, Plan.IntentsCommitted, Plan.Finalized;
    hide Plan.NoTornMarker, Plan.TrashIsEmpty, Plan.FilesKept;
    RootStaysAsIs(plan, m.Now());
    NoTrashAtStart(plan);
    var restored := RecoverOrphanMarkers(m, plan, Opening, ALL_PHASES);
    if restored {
      NothingLeftOpening(plan, m.Now());
    }
    StepLeasesReleased(plan, m.Now());
    RestingLeases(plan, Opening, m.Now());
    UntouchedFilesKept(plan);
    var released := m.ReleaseLeases(op);
    result := Permanent(restored);
  }

  lemma RootStaysAsIs(plan: Plan, w: World)
    requires plan.BeforeIntents(w)
    ensures RootUsable(plan.start.fs) ==> RootUsable(w.fs)
  {
    hide Plan.ContentKept, Plan.PayloadsMarked;
    if RootUsable(plan.start.fs) {
      RootStaysUsable(plan, w.fs);
    }
  }

  lemma UntouchedFilesKept(plan: Plan)
    ensures plan.FilesKept(plan.start.fs)
  {
  }

  lemma NothingLeftOpening(plan: Plan, w: World)
    requires plan.Sane() && plan.BeforeIntents(w) && plan.TrashIsEmpty(w.fs)
    ensures plan.FilesKept(w.fs)
  {
    NothingLeftIsKept(plan, w.fs);
  }

  /** Recording failed: the files go back, and the operation is aborted whatever came of that. */
  method UndoUnrecorded(m: Machine, op: string, staged: seq<StagedPath>, ghost plan: Plan)
    returns (result: DeleteResult, ghost stranded: bool)
    requires Begun(m, plan) && plan.NoTornMarker(m.fs) && op == plan.op && staged == plan.StagedPaths()
    modifies m
    ensures old(m.visited) <= m.visited
    ensures result.Permanent? && Truthful(m, plan, result, stranded)
  {
    hide Plan.Sane, Plan.BeforeIntents, Plan.IntentsStaged, Plan.IntentsCommitted, Plan.Finalized;
    hide Plan.NoTornMarker, Plan.TrashIsEmpty, Plan.FilesKept, Plan.Shape, Plan.ContentKept;
    OpeningShape(plan, m.Now());
    var restored;
    restored, stranded := RollbackStaged(m, staged, plan, Opening, ALL_PHASES);
    if restored {
      NothingLeftIsKept(plan, m.fs);
    }
    if !stranded {
      StepLeasesReleased(plan, m.Now());
      ClosingOpening(plan, m.Now());
    }
    var aborted := m.CloseDelete(op);
    result := Permanent(restored);
  }

  lemma OpeningShape(plan: Plan, w: World)
    requires plan.BeforeIntents(w)
    ensures plan.Shape(w.fs) && plan.ContentKept(w.fs) && MetadataKept(plan.start.store, w.store)
  {
  }

  lemma ClosingOpening(plan: Plan, w: World)
    requires plan.Sane() && plan.BeforeIntents(w)
    ensures w.store.CloseDelete(plan.op) == plan.start.store
  {
    hide LibraryLayout, Plan.Shape;
    ClosingStagedRestores(plan);
  }

  /** The compare-and-set failed: the files go back, and only then the intents are dropped. */
  method UndoUncommitted(m: Machine, op: string, staged: seq<StagedPath>, ghost plan: Plan)
    returns (result: DeleteResult)
    requires Intended(m, plan, Staging, ALL_PHASES) && op == plan.op && staged == plan.StagedPaths()
    modifies m
    ensures old(m.visited) <= m.visited
    ensures result.Permanent? && Truthful(m, plan, result, false)
  {
    hide Plan.Sane, Plan.BeforeIntents, Plan.IntentsStaged, Plan.IntentsCommitted, Plan.Finalized;
    hide Plan.NoTornMarker, Plan.FilesKept, Plan.Shape, Plan.ContentKept;
    StagingShape(plan, m.Now());
    ghost var stranded;
    var restored;
    restored, stranded := RollbackStaged(m, staged, plan, Staging, ALL_PHASES);
    if restored {
      NothingLeftIsKept(plan, m.fs);
      StepIntentsClosed(plan, Staging, m.Now());
      ClosingStaged(plan, m.Now());
      var aborted := m.CloseDelete(op);
    }
    result := Permanent(restored);
  }

  lemma StagingShape(plan: Plan, w: World)
    requires plan.IntentsStaged(w)
    ensures plan.Shape(w.fs) && plan.ContentKept(w.fs) && plan.NoTornMarker(w.fs)
    ensures MetadataKept(plan.start.store, w.store)
  {
  }

  lemma ClosingStaged(plan: Plan, w: World)
    requires plan.Sane() && plan.IntentsStaged(w)
    ensures w.store.CloseDelete(plan.op) == plan.start.store
  {
    hide LibraryLayout, Plan.Shape;
    ClosingStagedRestores(plan);
  }

  /** Everything staged: recording the intents and committing them keep to the phases. */
  lemma StepRecordedAndCommitted(m: Machine, plan: Plan)
    requires StagedUpTo(m, plan, |plan.entries|, ALL_PHASES) && plan.Stageable()
    ensures plan.NoTornMarker(m.fs)
    ensures plan.IntentsStaged(World(m.fs, plan.StagedStore()))
    ensures plan.start.store.revision == plan.expected ==> plan.IntentsCommitted(World(m.fs, plan.CommittedStore()))
  {
    hide LibraryLayout, Plan.ContentKept, Plan.PayloadsMarked, Plan.StagedStore, Plan.CommittedStore;
    assert plan.PathsValid();
    assert plan.AllAway(m.fs);
    OperationDirIsDirectory(plan, m.fs);
  }

  /** The conditions that a delete needs besides a working machine. */
  ghost predicate Deletable(plan: Plan) {
    plan.Keys() !! plan.start.store.leases.Keys && plan.Stageable() && plan.start.store.revision == plan.expected
  }

  method DeleteUnique(m: Machine, op: string, expected: nat, entries: seq<Entry>, ghost plan: Plan)
    returns (result: DeleteResult, ghost stranded: bool)
    requires plan == Plan(m.Now(), op, entries, expected) && plan.Sane() && entries != []
    requires m.visited == {m.Now()}
    modifies m
    ensures Truthful(m, plan, result, stranded)
    ensures result.Done? ==> TornOnTheWay(plan, m.visited)
    ensures !m.faulty ==> (result.Done? <==> Deletable(plan))
    ensures !result.Permanent? ==> Deletable(plan)
    ensures !(plan.Keys() !! plan.start.store.leases.Keys) ==>
              result == Permanent(true) && m.Now() == plan.start && m.visited == {plan.start} && !stranded
  {
    hide Plan.Sane, Plan.BeforeIntents, Plan.IntentsStaged, Plan.IntentsCommitted, Plan.Finalized;
    hide Plan.NoTornMarker, Plan.FilesKept, Plan.Shape, Plan.Stageable, StagedUpTo;
    stranded := false;
    StartIsOpening(plan, m.store);
    StartIsOpening(plan, plan.LeasedStore());
    UntouchedFilesKept(plan);
    var keys := set e | e in entries :: e.key;
    var acquired := m.AcquireLeases(op, keys);
    if !acquired.Acquired? {
      return Permanent(true), false;
    }
    var ok, staged := StageEntries(m, op, entries, plan, ALL_PHASES);
    if !ok {
      result := AbandonStaging(m, op, plan);
      return;
    }
    StepRecordedAndCommitted(m, plan);
    var intents := seq(|entries|, i requires 0 <= i < |entries| =>
      Intent(op, entries[i].key, Source(entries[i]), PayloadPath(op, i), expected, Staged));
    assert intents == plan.Intents();
    var recorded := m.RecordIntents(intents);
    if !recorded {
      result, stranded := UndoUnrecorded(m, op, staged, plan);
      return;
    }
    var committed := m.CommitDelete(expected, op, keys);
    if !committed {
      result := UndoUncommitted(m, op, staged, plan);
      return;
    }
    var revision := m.store.revision;
    OwnPathsAllowed(plan, m.Now());
    var cleaned := CleanupCommittedDelete(m, op, staged, true, plan, ALL_PHASES);
    result := if cleaned then Done(revision) else Incomplete(revision);
  }

  // ---------------------------------------------------------------- what the caller finds

  /** Every key of the batch is held by a delete lease of the operation. */
  ghost predicate AllLeased(store: Store, op: string, entries: seq<Entry>) {
    forall e :: e in entries ==> e.key in store.leases && store.leases[e.key] == Lease(op, DeleteLease)
  }

  lemma LeasesOfPlan(plan: Plan)
    requires plan.Keys() !! plan.start.store.leases.Keys
    ensures AllLeased(plan.LeasedStore(), plan.op, plan.entries)
    ensures plan.LeasedStore().leases == plan.StagedStore().leases == plan.CommittedStore().leases
  {
  }

  lemma LeasedUntilClosed(plan: Plan, w: World)
    requires plan.Sane() && plan.Admits(ALL_PHASES, w) && plan.Keys() !! plan.start.store.leases.Keys
    ensures w.store == plan.start.store || w.store == plan.DeletedStore() || AllLeased(w.store, plan.op, plan.entries)
  {
    hide Plan.Shape, Plan.ContentKept, Plan.PayloadsMarked, Plan.AllAway, LibraryLayout;
    LeasesOfPlan(plan);
  }

  /** The session directory of some entry of the batch. */
  ghost predicate NamedByBatch(entries: seq<Entry>, p: Path) {
    exists e :: e in entries && p == Child(Child(Root, Name(e.deviceId)), Name(e.sessionId))
  }

  ghost predicate SameNode(before: Files, after: Files, p: Path) {
    (p in after <==> p in before) && (p in after ==> after[p] == before[p])
  }

  /** Committed: the named sessions are gone from the library and everything else is there. */
  ghost predicate SessionsGone(before: Files, after: Files, entries: seq<Entry>) {
    && (forall p :: NamedByBatch(entries, p) ==> p !in after)
    && (forall p :: !InTrash(p) && !NamedByBatch(entries, p) ==> SameNode(before, after, p))
  }

  /** Given up: every session is where it was, or somewhere in the trash with its contents. */
  ghost predicate NoContentLost(before: Files, after: Files, entries: seq<Entry>) {
    && (forall p :: !InTrash(p) && p in after ==> SameNode(before, after, p))
    && (forall p :: !InTrash(p) && p in before && p !in after ==>
          NamedByBatch(entries, p) && exists q :: InTrash(q) && q in after && after[q] == before[p])
  }

  /** Each session of the batch has a committed intent, from which the cleanup can be retried. */
  ghost predicate AllIntended(store: Store, op: string, entries: seq<Entry>, expected: nat) {
    forall e :: e in entries ==> exists i ::
      && i in store.intents && i.operationId == op && i.entryKey == e.key && i.state.Committed?
      && i.sourcePath == Child(Child(Root, Name(e.deviceId)), Name(e.sessionId)) && i.expectedRevision == expected
  }

  lemma CommittedIntended(plan: Plan)
    requires plan.Sane()
    ensures AllIntended(plan.CommittedStore(), plan.op, plan.entries, plan.expected)
  {
    hide LibraryLayout;
    IntentsOfPlan(plan);
    forall e | e in plan.entries
      ensures exists i ::
        && i in plan.CommittedStore().intents && i.operationId == plan.op && i.entryKey == e.key && i.state.Committed?
        && i.sourcePath == Child(Child(Root, Name(e.deviceId)), Name(e.sessionId))
        && i.expectedRevision == plan.expected
    {
      var k :| 0 <= k < |plan.entries| && plan.entries[k] == e;
      assert plan.CommittedIntents()[k] in plan.CommittedIntents();
    }
  }

  lemma BatchNames(plan: Plan, p: Path)
    ensures NamedByBatch(plan.entries, p) <==> exists i :: plan.InRange(i) && Source(plan.entries[i]) == p
  {
    if e :| e in plan.entries && p == Child(Child(Root, Name(e.deviceId)), Name(e.sessionId)) {
      var i :| 0 <= i < |plan.entries| && plan.entries[i] == e;
      assert plan.InRange(i) && Source(plan.entries[i]) == p;
    }
  }

  lemma CommittedFiles(plan: Plan, fs: Files)
    requires plan.Sane() && plan.Stageable() && plan.Shape(fs) && plan.AllAway(fs)
    ensures SessionsGone(plan.start.fs, fs, plan.entries)
  {
    hide Plan.TrashHolds;
    forall p | NamedByBatch(plan.entries, p) ensures p !in fs {
      BatchNames(plan, p);
      var i :| plan.InRange(i) && Source(plan.entries[i]) == p;
      assert plan.EntryStageable(i);
      if p in fs {
        AwayMeansUnnamed(plan, fs, p);
      }
    }
    forall p | !InTrash(p) && !NamedByBatch(plan.entries, p) ensures SameNode(plan.start.fs, fs, p) {
      BatchNames(plan, p);
    }
  }

  lemma AbandonedFiles(plan: Plan, fs: Files)
    requires plan.Sane() && plan.Shape(fs) && plan.ContentKept(fs)
    ensures NoContentLost(plan.start.fs, fs, plan.entries)
  {
    hide Plan.TrashHolds;
    forall p | !InTrash(p) && p in plan.start.fs && p !in fs
      ensures NamedByBatch(plan.entries, p) && exists q :: InTrash(q) && q in fs && fs[q] == plan.start.fs[p]
    {
      BatchNames(plan, p);
      var i :| plan.InRange(i) && Source(plan.entries[i]) == p;
      var k := FirstNamed(plan, i);
      assert InTrash(PayloadPath(plan.op, k));
    }
  }

  lemma DeletedFiles(plan: Plan)
    requires plan.Sane() && plan.Stageable()
    ensures SessionsGone(plan.start.fs, plan.DeletedWorld().fs, plan.entries)
    ensures forall p :: p in plan.DeletedWorld().fs && InTrash(p) ==> p == TRASH_ROOT
  {
    var after := plan.DeletedWorld().fs;
    forall p | NamedByBatch(plan.entries, p) ensures p !in after {
      BatchNames(plan, p);
      var i :| plan.InRange(i) && Source(plan.entries[i]) == p;
      assert plan.EntryStageable(i);
      assert p != TRASH_ROOT;
    }
    forall p | !InTrash(p) && !NamedByBatch(plan.entries, p) ensures SameNode(plan.start.fs, after, p) {
      BatchNames(plan, p);
    }
  }

  lemma KeptFiles(plan: Plan, fs: Files)
    requires plan.FilesKept(fs)
    ensures forall p :: p != Child(Root, Name(".ylx-library-trash")) ==> SameNode(plan.start.fs, fs, p)
  {
  }

  ghost function PlanOf(w: World, op: string, entries: seq<Entry>, expected: nat): Plan {
    Plan(w, op, FirstOfEachKey(entries), expected)
  }

  /** No other delete is in flight or left over, and the operation id is new. */
  ghost predicate NothingInFlight(w: World, op: string) {
    && LibraryLayout(w.fs) && SafeIdentifier(op) && w.store.intents == []
    && forall k :: k in w.store.leases ==> w.store.leases[k].kind.UploadLease? && w.store.leases[k].operationId != op
  }

  predicate Acceptable(entries: seq<Entry>) {
    entries != [] && KeysAgree(entries)
  }

  /** The rows that a result leaves: the named ones are gone exactly after a commit. */
  ghost predicate RowsTell(before: Store, after: Store, op: string, entries: seq<Entry>, result: DeleteResult) {
    match result
    case Permanent(_) => after.library == before.library && after.revision == before.revision
    case _ =>
      && after.library == before.library - (set e | e in entries :: e.key)
      && after.revision == before.revision + (if exists e :: e in entries && e.key in before.library then 1 else 0)
      && result.revision == after.revision
      && (result.Done? ==> after.leases == before.leases && after.intents == [])
      && (result.Incomplete? ==> AllLeased(after, op, entries) && AllIntended(after, op, entries, before.revision))
  }

  ghost predicate FilesTell(before: Files, after: Files, entries: seq<Entry>, result: DeleteResult, stranded: bool) {
    match result
    case Done(_) =>
      SessionsGone(before, after, entries) && forall p :: p in after && InTrash(p) ==> p == TRASH_ROOT
    case Incomplete(_) => SessionsGone(before, after, entries)
    case Permanent(restored) =>
      && (!stranded ==> NoContentLost(before, after, entries))
      && (restored ==> forall p :: p != TRASH_ROOT ==> SameNode(before, after, p))
  }

  /** Each state on the way has the tables as they were, or every key under a delete lease, or the
      rows gone and the operation closed. */
  ghost predicate LeasedOnTheWay(before: Store, visited: set<World>, op: string, entries: seq<Entry>) {
    forall w :: w in visited ==>
      || w.store == before
      || AllLeased(w.store, op, entries)
      || (w.store.library == before.library - (set e | e in entries :: e.key) && w.store.leases == before.leases
          && w.store.intents == [])
  }

  lemma RowsOfResult(m: Machine, plan: Plan, result: DeleteResult, stranded: bool)
    requires plan.Sane() && Truthful(m, plan, result, stranded) && plan.Keys() !! plan.start.store.leases.Keys
    requires !result.Permanent? ==> plan.start.store.revision == plan.expected
    ensures RowsTell(plan.start.store, m.store, plan.op, plan.entries, result)
  {
    hide Plan.Shape, Plan.AllAway, LibraryLayout, AllLeased, AllIntended, Plan.AllIn;
    hide Plan.Stageable, Plan.CommittedStore, Plan.DeletedStore, Plan.StagedStore, Plan.LeasedStore;
    TablesOfPlan(plan);
    LeasesOfPlan(plan);
    CommittedIntended(plan);
    LeasesOnly(plan.LeasedStore(), plan.CommittedStore(), plan.op, plan.entries);
  }

  lemma LeasesOnly(store: Store, other: Store, op: string, entries: seq<Entry>)
    requires AllLeased(store, op, entries) && other.leases == store.leases
    ensures AllLeased(other, op, entries)
  {
  }

  lemma FilesOfResult(m: Machine, plan: Plan, result: DeleteResult, stranded: bool)
    requires plan.Sane() && Truthful(m, plan, result, stranded)
    requires !result.Permanent? ==> plan.Stageable()
    ensures FilesTell(plan.start.fs, m.fs, plan.entries, result, stranded)
  {
    hide Plan.Shape, Plan.ContentKept, Plan.AllAway, LibraryLayout, SessionsGone, NoContentLost, Plan.AllIn;
    hide Plan.Stageable, Plan.CommittedStore, Plan.DeletedStore, Plan.StagedStore, Plan.LeasedStore, SameNode;
    match result {
      case Done(_) =>
        DeletedFiles(plan);
      case Incomplete(_) =>
        CommittedFiles(plan, m.fs);
      case Permanent(restored) =>
        if !stranded {
          AbandonedFiles(plan, m.fs);
        }
        if restored {
          KeptFiles(plan, m.fs);
        }
    }
  }

  lemma LeasesOfVisited(plan: Plan, visited: set<World>)
    requires plan.Sane() && plan.AllIn(ALL_PHASES, visited) && plan.Keys() !! plan.start.store.leases.Keys
    ensures LeasedOnTheWay(plan.start.store, visited, plan.op, plan.entries)
  {
    hide LibraryLayout, AllLeased, Plan.Admits, Plan.DeletedStore, Plan.CommittedStore;
    TablesOfPlan(plan);
    forall w | w in visited
      ensures w.store == plan.start.store || w.store == plan.DeletedStore()
              || AllLeased(w.store, plan.op, plan.entries)
    {
      LeasedUntilClosed(plan, w);
    }
  }

  lemma SameBatch(plan: Plan, before: World, m: Machine, entries: seq<Entry>, result: DeleteResult, stranded: bool)
    requires forall e :: e in entries <==> e in plan.entries
    ensures RowsTell(before.store, m.store, plan.op, plan.entries, result) ==>
              RowsTell(before.store, m.store, plan.op, entries, result)
    ensures FilesTell(before.fs, m.fs, plan.entries, result, stranded) ==>
              FilesTell(before.fs, m.fs, entries, result, stranded)
    ensures LeasedOnTheWay(before.store, m.visited, plan.op, plan.entries) ==>
              LeasedOnTheWay(before.store, m.visited, plan.op, entries)
  {
    assert (set e | e in entries :: e.key) == (set e | e in plan.entries :: e.key);
    assert forall p :: NamedByBatch(entries, p) <==> NamedByBatch(plan.entries, p);
    hide SameNode;
    assert forall store: Store :: AllLeased(store, plan.op, entries) <==> AllLeased(store, plan.op, plan.entries);
  }

  lemma NothingDone(w: World, op: string, entries: seq<Entry>)
    ensures RowsTell(w.store, w.store, op, entries, Permanent(true))
    ensures FilesTell(w.fs, w.fs, entries, Permanent(true), false)
    ensures LeasedOnTheWay(w.store, {w}, op, entries)
  {
  }

  /** What a working machine needs, in the words of the caller. */
  ghost predicate CanBeDeleted(w: World, entries: seq<Entry>, expected: nat) {
    && w.store.revision == expected
    && (TRASH_ROOT in w.fs ==> w.fs[TRASH_ROOT].Directory?)
    && forall e :: e in entries ==>
         var device := Child(Root, Name(e.deviceId));
         && e.key !in w.store.leases
         && PlainName(e.deviceId) && PlainName(e.sessionId) && e.deviceId != ".ylx-library-trash"
         && (device in w.fs ==> w.fs[device].Directory?)
         && (Child(device, Name(e.sessionId)) in w.fs ==> w.fs[Child(device, Name(e.sessionId))].SessionTree?)
  }

  lemma DeletableIff(plan: Plan)
    requires plan.Sane()
    ensures Deletable(plan) <==> CanBeDeleted(plan.start, plan.entries, plan.expected)
  {
    assert Root !in plan.start.fs;
    forall i | plan.InRange(i)
      ensures plan.EntryStageable(i) <==>
              var e := plan.entries[i]; var device := Child(Root, Name(e.deviceId));
              && PlainName(e.deviceId) && PlainName(e.sessionId) && e.deviceId != ".ylx-library-trash"
              && (device in plan.start.fs ==> plan.start.fs[device].Directory?)
              && (Child(device, Name(e.sessionId)) in plan.start.fs ==>
                    plan.start.fs[Child(device, Name(e.sessionId))].SessionTree?)
    {
      var e := plan.entries[i];
      assert ClearWay(plan.start.fs, Child(Root, Name(e.deviceId)));
    }
    hide Plan.EntryStageable, LibraryLayout, PlainName;
    assert forall e :: e in plan.entries ==> e.key in plan.Keys();
    if CanBeDeleted(plan.start, plan.entries, plan.expected) {
      assert forall i :: plan.InRange(i) ==> plan.entries[i] in plan.entries;
    }
  }

  /** In every result but `Permanent` the metadata rows of the batch are gone, and the revision
      has moved if there were any; a permanent failure leaves all rows, also when stranded. */
  method DeleteEntries(m: Machine, op: string, expected: nat, entries: seq<Entry>)
    returns (result: DeleteResult, ghost stranded: bool)
    requires NothingInFlight(m.Now(), op) && m.visited == {m.Now()}
    modifies m
    ensures m.store.library ==
            if result.Permanent? then old(m.store).library
            else old(m.store).library - set e | e in entries :: e.key
    ensures m.store.revision == old(m.store).revision
            + if !result.Permanent? && exists e :: e in entries && e.key in old(m.store).library then 1 else 0
    ensures !result.Permanent? ==> old(m.store).revision == expected
    ensures RowsTell(old(m.store), m.store, op, entries, result)
    ensures FilesTell(old(m.fs), m.fs, entries, result, stranded)
    ensures !stranded ==> LeasedOnTheWay(old(m.store), m.visited, op, entries)
    ensures !m.faulty ==>
              (result.Done? <==> Acceptable(entries) && CanBeDeleted(old(m.Now()), entries, expected))
              && (!result.Done? ==> result.Permanent? && m.store == old(m.store) && !stranded)
    ensures !Acceptable(entries) ==>
              result == Permanent(true) && m.Now() == old(m.Now()) && m.visited == old(m.visited) && !stranded
    ensures Acceptable(entries) ==>
              var plan := PlanOf(old(m.Now()), op, entries, expected);
              && plan.Sane() && plan.Keys() == (set e | e in entries :: e.key)
              && Truthful(m, plan, result, stranded)
              && (result.Done? ==> Deletable(plan) && TornOnTheWay(plan, m.visited))
              && (!m.faulty && Deletable(plan) ==> result.Done?)
  {
    hide Truthful, Deletable, TornOnTheWay, RowsTell, FilesTell, LeasedOnTheWay, Plan.Stageable, CanBeDeleted;
    ghost var start := m.Now();
    NothingDone(start, op, entries);
    RowsOfMetadata(start.store, start.store, op, entries, Permanent(true));
    if entries == [] {
      return Permanent(true), false;
    }
    var ok, unique := UniqueEntries(entries);
    if !ok {
      return Permanent(true), false;
    }
    AgreeingKeysLoseNothing(entries);
    ghost var plan := PlanOf(m.Now(), op, entries, expected);
    assert plan.Keys() == set e | e in entries :: e.key;
    result, stranded := DeleteUnique(m, op, expected, unique, plan);
    ResultIsTold(m, plan, entries, result, stranded);
    RowsOfMetadata(start.store, m.store, op, entries, result);
    assert Deletable(plan) ==> start.store.revision == expected by {
      DeletableMeansExpected(plan);
    }
    hide Plan.Sane, KeysAgree;
    SameConditions(plan, entries);
  }

  lemma RowsOfMetadata(before: Store, after: Store, op: string, entries: seq<Entry>, result: DeleteResult)
    requires RowsTell(before, after, op, entries, result)
    ensures after.library ==
            if result.Permanent? then before.library else before.library - set e | e in entries :: e.key
    ensures after.revision == before.revision
            + if !result.Permanent? && exists e :: e in entries && e.key in before.library then 1 else 0
  {
  }

  lemma DeletableMeansExpected(plan: Plan)
    ensures Deletable(plan) ==> plan.start.store.revision == plan.expected
  {
  }

  lemma SameConditions(plan: Plan, entries: seq<Entry>)
    requires plan.Sane() && forall e :: e in entries <==> e in plan.entries
    ensures Deletable(plan) <==> CanBeDeleted(plan.start, entries, plan.expected)
  {
    DeletableIff(plan);
  }

  lemma ResultIsTold(m: Machine, plan: Plan, entries: seq<Entry>, result: DeleteResult, stranded: bool)
    requires plan.Sane() && Truthful(m, plan, result, stranded)
    requires forall e :: e in entries <==> e in plan.entries
    requires !result.Permanent? ==> Deletable(plan)
    requires !(plan.Keys() !! plan.start.store.leases.Keys) ==>
               result == Permanent(true) && m.Now() == plan.start && m.visited == {plan.start} && !stranded
    ensures RowsTell(plan.start.store, m.store, plan.op, entries, result)
    ensures FilesTell(plan.start.fs, m.fs, entries, result, stranded)
    ensures !stranded ==> LeasedOnTheWay(plan.start.store, m.visited, plan.op, entries)
    ensures !m.faulty && !result.Done? ==> result.Permanent? && m.store == plan.start.store && !stranded
  {
    if plan.Keys() !! plan.start.store.leases.Keys {
      RowsOfResult(m, plan, result, stranded);
      FilesOfResult(m, plan, result, stranded);
      if !stranded {
        LeasesOfVisited(plan, m.visited);
      }
      SameBatch(plan, plan.start, m, entries, result, stranded);
    } else {
      NothingDone(plan.start, plan.op, entries);
    }
  }

  // ---------------------------------------------------------------- crashes

  lemma SomePhase(plan: Plan, phases: set<Phase>, w: World) returns (phase: Phase)
    requires plan.Admits(phases, w)
    ensures phase in phases && plan.Admits({phase}, w)
  {
    phase :|
      phase in phases && (
        || (phase == Opening && plan.BeforeIntents(w))
        || (phase == Staging && plan.IntentsStaged(w))
        || (phase == Cleaning && plan.IntentsCommitted(w))
        || (phase == Closed && plan.Finalized(w)));
  }

  function SideOf(committed: bool): set<Phase> {
    if committed then AFTER_COMMIT else BEFORE_COMMIT
  }

  /** One start of a process that died in w. */
  method Restart(w: World, faulty: bool, ghost plan: Plan, ghost committed: bool) returns (m: Machine, ok: bool)
    requires plan.Sane() && plan.Admits(SideOf(committed), w)
    ensures fresh(m) && m.faulty == faulty && w in m.visited && plan.AllIn(SideOf(committed), m.visited)
    ensures ok ==> if committed then m.Now() == plan.DeletedWorld() else plan.Kept(m.Now())
    ensures !faulty ==> (ok <==> plan.NoTornMarker(w.fs) && RootUsable(w.fs))
  {
    hide Plan.Sane, Plan.BeforeIntents, Plan.IntentsStaged, Plan.IntentsCommitted, Plan.Finalized;
    hide Plan.Kept, Plan.DeletedWorld, Plan.NoTornMarker, RootUsable;
    ghost var phase := SomePhase(plan, SideOf(committed), w);
    m := new Machine(w, faulty);
    ok := RecoverPendingDeletes(m, plan, phase, SideOf(committed));
  }

  /** The process dies in any durable state of a delete; recovery is then started over and over,
      and dies `crashes` times in any durable state of its own, before a run gets to its end. */
  method CrashAndRecover(m: Machine, crashes: nat, faulty: bool, ghost plan: Plan)
    returns (crashed: World, ghost committed: bool, last: Machine, ok: bool)
    requires plan.Sane() && m.visited != {} && plan.AllIn(ALL_PHASES, m.visited)
    ensures crashed in m.visited
    ensures committed <==> plan.Admits(AFTER_COMMIT, crashed)
    ensures plan.AllIn(SideOf(committed), last.visited)
    ensures ok ==> if committed then last.Now() == plan.DeletedWorld() else plan.Kept(last.Now())
    ensures ok ==>
              var before, after := plan.start.store, last.store;
              var keys := set e | e in plan.entries :: e.key;
              && after.library == before.library - (if committed then keys else {})
              && after.revision == before.revision
                 + (if committed && exists e :: e in plan.entries && e.key in before.library then 1 else 0)
              && after.leases == before.leases && after.intents == before.intents
  {
    TablesOfPlan(plan);
    assert plan.start.store.intents == [];
    hide Plan.Sane, Plan.BeforeIntents, Plan.IntentsStaged, Plan.IntentsCommitted, Plan.Finalized;
    assert plan.DeletedWorld().store == plan.DeletedStore();
    assert forall w :: plan.Kept(w) ==> w.store == plan.start.store;
    hide Plan.Kept, Plan.DeletedWorld, Plan.DeletedStore, Plan.CommittedStore;
    crashed :| crashed in m.visited;
    committed := plan.Admits(AFTER_COMMIT, crashed);
    last, ok := Restart(crashed, faulty, plan, committed);
    var left := crashes;
    while left > 0
      invariant last.visited != {} && plan.AllIn(SideOf(committed), last.visited)
      invariant ok ==> if committed then last.Now() == plan.DeletedWorld() else plan.Kept(last.Now())
    {
      var w :| w in last.visited;
      last, ok := Restart(w, faulty, plan, committed);
      left := left - 1;
    }
  }
}
