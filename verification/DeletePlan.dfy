/** Every durable state one delete operation can be in, described from the state it began in. */
module DeletePlan {
  import opened DeleteMachine
  import opened DeleteWorld

  predicate DistinctKeys(entries: seq<Entry>) {
    forall i, j :: 0 <= i < j < |entries| ==> entries[i].key != entries[j].key
  }

  /** The library as the model sees it: device directories holding session nodes, and a trash
      without any leftover operation. */
  ghost predicate LibraryLayout(fs: Files) {
    forall p :: p in fs ==>
      && p.Child?
      && (if p.parent.Root? then !fs[p].SessionTree?
          else p.parent.parent.Root? && !InTrash(p) && !fs[p].Directory?
               && p.parent in fs && fs[p.parent].Directory?)
  }

  datatype StagedPath = StagedPath(entryKey: string, sourcePath: Path, trashPath: Path, markerPath: Path)

  /** How far a delete has come, as its durable state shows it. */
  datatype Phase = Opening | Staging | Cleaning | Closed

  const BEFORE_COMMIT: set<Phase> := {Opening, Staging}

  const AFTER_COMMIT: set<Phase> := {Cleaning, Closed}

  const ALL_PHASES: set<Phase> := BEFORE_COMMIT + AFTER_COMMIT

  datatype Plan = Plan(start: World, op: string, entries: seq<Entry>, expected: nat)
  {
    /** One operation in flight, over distinct keys, with an operation id of its own. */
    ghost predicate Sane() {
      && LibraryLayout(start.fs)
      && start.store.intents == []
      && (forall k :: k in start.store.leases ==>
            start.store.leases[k].kind.UploadLease? && start.store.leases[k].operationId != op)
      && DistinctKeys(entries) && entries != []
      && SafeIdentifier(op)
    }

    function Keys(): set<string> {
      set e | e in entries :: e.key
    }

    // -------------------------------------------------------------- files

    predicate InRange(i: int) {
      0 <= i < |entries|
    }

    /** Entry i is the one whose staging moves its directory. */
    predicate Carrier(i: int) {
      && InRange(i)
      && Source(entries[i]) in start.fs
      && start.fs[Source(entries[i])].SessionTree?
      && forall j :: 0 <= j < i ==> Source(entries[j]) != Source(entries[i])
    }

    /** A session directory that the batch names. */
    ghost predicate Named(p: Path) {
      && p in start.fs
      && start.fs[p].SessionTree?
      && exists i :: InRange(i) && Source(entries[i]) == p
    }

    function MarkerFor(i: nat): TrashMarker
      requires InRange(i)
    {
      TrashMarker(op, entries[i].key, Source(entries[i]), PayloadPath(op, i))
    }

    /** Outside the trash nothing changes except that named directories may be away. */
    ghost predicate OutsideHolds(fs: Files) {
      && (forall p: Path :: p in fs && !InTrash(p) ==> p in start.fs && fs[p] == start.fs[p])
      && (forall p: Path :: p in start.fs && !InTrash(p) && p !in fs ==> Named(p))
    }

    /** In the trash there is only the root, this operation's directory, markers and payloads. */
    ghost predicate TrashPathsHold(fs: Files) {
      forall p: Path :: p in fs && InTrash(p) ==>
        p == TRASH_ROOT || p == OperationDir(op)
        || (p.parent == OperationDir(op) && !p.name.Name? && InRange(p.name.index))
    }

    ghost predicate DirectoriesHold(fs: Files) {
      && (TRASH_ROOT in start.fs ==> TRASH_ROOT in fs && fs[TRASH_ROOT] == start.fs[TRASH_ROOT])
      && (TRASH_ROOT in fs && TRASH_ROOT !in start.fs ==> fs[TRASH_ROOT] == Directory)
      && (OperationDir(op) in fs ==>
            fs[OperationDir(op)] == Directory && TRASH_ROOT in fs && fs[TRASH_ROOT] == Directory)
      && (forall i :: InRange(i) && (MarkerPath(op, i) in fs || PayloadPath(op, i) in fs) ==> OperationDir(op) in fs)
    }

    ghost predicate PayloadsHold(fs: Files) {
      forall i :: InRange(i) && PayloadPath(op, i) in fs ==>
        Carrier(i) && Source(entries[i]) !in fs && fs[PayloadPath(op, i)].SessionTree?
        && ValidSource(start.fs, Source(entries[i]))
    }

    ghost predicate MarkersHold(fs: Files) {
      forall i :: InRange(i) && MarkerPath(op, i) in fs ==>
        ValidSource(start.fs, Source(entries[i]))
        && (fs[MarkerPath(op, i)] == TornFile || fs[MarkerPath(op, i)] == MarkerFile(MarkerFor(i)))
    }

    ghost predicate TrashHolds(fs: Files) {
      TrashPathsHold(fs) && DirectoriesHold(fs) && PayloadsHold(fs) && MarkersHold(fs)
    }

    ghost predicate Shape(fs: Files) {
      OutsideHolds(fs) && TrashHolds(fs)
    }

    /** Every named directory is where it was, or in the trash with its contents. */
    ghost predicate ContentKept(fs: Files) {
      forall i :: Carrier(i) && Source(entries[i]) !in fs ==>
        PayloadPath(op, i) in fs && fs[PayloadPath(op, i)] == start.fs[Source(entries[i])]
    }

    ghost predicate AllAway(fs: Files) {
      forall i :: Carrier(i) ==> Source(entries[i]) !in fs
    }

    predicate WholeMarker(fs: Files, i: nat) {
      MarkerPath(op, i) in fs && fs[MarkerPath(op, i)].MarkerFile?
    }

    /** A payload away from home has the marker that recovery without intents needs. */
    ghost predicate PayloadsMarked(fs: Files) {
      forall i :: InRange(i) && PayloadPath(op, i) in fs ==> WholeMarker(fs, i)
    }

    ghost predicate NoTornMarker(fs: Files) {
      forall i :: InRange(i) && MarkerPath(op, i) in fs ==> fs[MarkerPath(op, i)].MarkerFile?
    }

    /** What staging has checked, and recovery checks again. */
    ghost predicate PathsValid() {
      RootUsable(start.fs) && forall i :: InRange(i) ==> ValidSource(start.fs, Source(entries[i]))
    }

    ghost predicate TrashIsEmpty(fs: Files) {
      && OperationDir(op) !in fs
      && forall i :: InRange(i) ==> MarkerPath(op, i) !in fs && PayloadPath(op, i) !in fs
    }

    // -------------------------------------------------------------- store

    function Intents(): seq<Intent> {
      seq(|entries|, i requires 0 <= i < |entries| =>
        Intent(op, entries[i].key, Source(entries[i]), PayloadPath(op, i), expected, Staged))
    }

    function CommittedIntents(): seq<Intent> {
      seq(|entries|, i requires 0 <= i < |entries| => Intents()[i].(state := Committed))
    }

    function LeasedStore(): Store {
      start.store.AcquireLeases(op, Keys())
    }

    function StagedStore(): Store {
      LeasedStore().RecordIntents(Intents())
    }

    function CommittedStore(): Store {
      StagedStore().CommitDelete(op, Keys())
    }

    function DeletedStore(): Store {
      CommittedStore().CloseDelete(op)
    }

    // -------------------------------------------------------------- worlds

    ghost predicate BeforeIntents(w: World) {
      && Shape(w.fs) && ContentKept(w.fs) && PayloadsMarked(w.fs)
      && (w.store == start.store || w.store == LeasedStore())
    }

    ghost predicate IntentsStaged(w: World) {
      && Shape(w.fs) && ContentKept(w.fs) && NoTornMarker(w.fs) && PathsValid()
      && w.store == StagedStore()
    }

    ghost predicate IntentsCommitted(w: World) {
      && Shape(w.fs) && AllAway(w.fs) && NoTornMarker(w.fs) && PathsValid()
      && w.store == CommittedStore() && start.store.revision == expected
      && TRASH_ROOT in w.fs && w.fs[TRASH_ROOT] == Directory
    }

    /** Metadata and tables are final; at most an empty operation directory is left. */
    ghost predicate Finalized(w: World) {
      && Shape(w.fs) && AllAway(w.fs)
      && (forall i :: InRange(i) ==> MarkerPath(op, i) !in w.fs && PayloadPath(op, i) !in w.fs)
      && w.store == DeletedStore() && start.store.revision == expected
      && TRASH_ROOT in w.fs && w.fs[TRASH_ROOT] == Directory
    }

    /** The files the operation began with, and perhaps a trash root. */
    ghost predicate FilesKept(fs: Files) {
      fs == start.fs || (TRASH_ROOT !in start.fs && fs == start.fs[TRASH_ROOT := Directory])
    }

    /** Everything kept. */
    ghost predicate Kept(w: World) {
      w.store == start.store && FilesKept(w.fs)
    }

    /** Everything deleted: the one world an uninterrupted delete ends in. */
    ghost function DeletedWorld(): World {
      World((map p | p in start.fs && !Named(p) :: start.fs[p])[TRASH_ROOT := Directory], DeletedStore())
    }

    /** w is a state of one of these phases. */
    ghost predicate Admits(phases: set<Phase>, w: World) {
      || (Opening in phases && BeforeIntents(w))
      || (Staging in phases && IntentsStaged(w))
      || (Cleaning in phases && IntentsCommitted(w))
      || (Closed in phases && Finalized(w))
    }

    ghost predicate AllIn(phases: set<Phase>, ws: set<World>) {
      forall w :: w in ws ==> Admits(phases, w)
    }

    // -------------------------------------------------------------- conditions a caller can check

    function StagedAt(i: int): StagedPath
      requires InRange(i)
    {
      StagedPath(entries[i].key, Source(entries[i]), PayloadPath(op, i), MarkerPath(op, i))
    }

    function StagedPaths(): seq<StagedPath> {
      seq(|entries|, i requires 0 <= i < |entries| => StagedAt(i))
    }

    predicate EntryStageable(i: int)
      requires InRange(i)
    {
      var source := Source(entries[i]);
      SafeEntry(entries[i]) && ValidSource(start.fs, source) && (source in start.fs ==> start.fs[source].IsDir())
    }

    /** Nothing but an I/O fault can stop the staging. */
    ghost predicate Stageable() {
      RootUsable(start.fs) && forall i :: InRange(i) ==> EntryStageable(i)
    }
  }

  /** The trash root is absent or a directory. */
  predicate RootUsable(fs: Files) {
    TRASH_ROOT in fs ==> fs[TRASH_ROOT].IsDir()
  }

  // ---------------------------------------------------------------- facts about the phases

  /** What a path in the trash can be. */
  lemma TrashPathCases(plan: Plan, fs: Files, p: Path)
    requires plan.TrashHolds(fs) && p in fs && InTrash(p)
    ensures p == TRASH_ROOT || p == OperationDir(plan.op)
            || exists i :: plan.InRange(i) && (p == MarkerPath(plan.op, i) || p == PayloadPath(plan.op, i))
  {
    if p != TRASH_ROOT && p != OperationDir(plan.op) {
      var i := p.name.index;
      assert plan.InRange(i);
      if p.name.MarkerOf? {
        assert p == MarkerPath(plan.op, i);
      } else {
        assert p == PayloadPath(plan.op, i);
      }
    }
  }

  lemma OnlyTrashRoot(plan: Plan, fs: Files)
    requires plan.TrashHolds(fs) && plan.TrashIsEmpty(fs)
    ensures forall p :: p in fs && InTrash(p) ==> p == TRASH_ROOT
  {
    forall p | p in fs && InTrash(p) ensures p == TRASH_ROOT {
      TrashPathCases(plan, fs, p);
    }
  }

  /** The first entry naming a path carries it. */
  lemma {:induction false} FirstNamed(plan: Plan, i: nat) returns (k: nat)
    requires plan.InRange(i) && plan.Named(Source(plan.entries[i]))
    ensures plan.Carrier(k) && Source(plan.entries[k]) == Source(plan.entries[i])
    decreases i
  {
    if j :| 0 <= j < i && Source(plan.entries[j]) == Source(plan.entries[i]) {
      k := FirstNamed(plan, j);
    } else {
      k := i;
    }
  }

  /** With no payload left, every kept directory is back. */
  lemma KeptDirectoriesAreHome(plan: Plan, fs: Files)
    requires plan.OutsideHolds(fs) && plan.ContentKept(fs) && plan.TrashIsEmpty(fs)
    ensures forall p :: p in plan.start.fs && !InTrash(p) ==> p in fs && fs[p] == plan.start.fs[p]
  {
    forall p | p in plan.start.fs && !InTrash(p) ensures p in fs {
      if plan.Named(p) {
        var i :| plan.InRange(i) && Source(plan.entries[i]) == p;
        var k := FirstNamed(plan, i);
      }
    }
  }

  /** Files kept and nothing of the operation left: the original tree. */
  lemma NothingLeftIsKept(plan: Plan, fs: Files)
    requires plan.Sane() && plan.Shape(fs) && plan.ContentKept(fs) && plan.TrashIsEmpty(fs)
    ensures plan.FilesKept(fs)
  {
    KeptDirectoriesAreHome(plan, fs);
    OnlyTrashRoot(plan, fs);
    assert forall p :: p in plan.start.fs && InTrash(p) ==> p == TRASH_ROOT;
    if TRASH_ROOT in fs && TRASH_ROOT !in plan.start.fs {
      assert fs == plan.start.fs[TRASH_ROOT := Directory];
    } else {
      assert fs == plan.start.fs;
    }
  }

  lemma AwayMeansUnnamed(plan: Plan, fs: Files, p: Path)
    requires plan.AllAway(fs) && p in fs && !InTrash(p) && plan.OutsideHolds(fs)
    ensures !plan.Named(p)
  {
    if plan.Named(p) {
      var i :| plan.InRange(i) && Source(plan.entries[i]) == p;
      var k := FirstNamed(plan, i);
      assert false;
    }
  }

  /** All named directories gone and nothing left in the trash: the deleted tree. */
  lemma NothingLeftIsDeleted(plan: Plan, fs: Files)
    requires plan.Sane() && plan.Shape(fs) && plan.AllAway(fs) && plan.TrashIsEmpty(fs)
    requires TRASH_ROOT in fs && fs[TRASH_ROOT] == Directory
    ensures fs == plan.DeletedWorld().fs
  {
    OnlyTrashRoot(plan, fs);
    var remaining := map p | p in plan.start.fs && !plan.Named(p) :: plan.start.fs[p];
    forall p | p in fs && !InTrash(p) ensures p in remaining && remaining[p] == fs[p] {
      AwayMeansUnnamed(plan, fs, p);
    }
    assert forall p :: p in remaining && !InTrash(p) ==> p in fs;
    assert forall p :: p in remaining && InTrash(p) ==> p == TRASH_ROOT;
    assert fs == remaining[TRASH_ROOT := Directory];
  }

  // ---------------------------------------------------------------- single file steps

  lemma TrashRootCreated(plan: Plan, fs: Files)
    requires plan.Shape(fs) && TRASH_ROOT !in fs
    ensures plan.Shape(fs[TRASH_ROOT := Directory])
  {
    assert forall i :: plan.InRange(i) ==>
             MarkerPath(plan.op, i) != TRASH_ROOT && PayloadPath(plan.op, i) != TRASH_ROOT;
  }

  lemma OperationDirCreated(plan: Plan, fs: Files)
    requires plan.Shape(fs) && TRASH_ROOT in fs && fs[TRASH_ROOT] == Directory && OperationDir(plan.op) !in fs
    ensures plan.Shape(fs[OperationDir(plan.op) := Directory])
  {
  }

  lemma MarkerWritten(plan: Plan, fs: Files, i: int, node: Node)
    requires plan.Shape(fs) && plan.InRange(i) && OperationDir(plan.op) in fs
    requires ValidSource(plan.start.fs, Source(plan.entries[i]))
    requires node == TornFile || node == MarkerFile(plan.MarkerFor(i))
    ensures plan.Shape(fs[MarkerPath(plan.op, i) := node])
    ensures plan.ContentKept(fs) ==> plan.ContentKept(fs[MarkerPath(plan.op, i) := node])
    ensures plan.PayloadsMarked(fs) && (node.MarkerFile? || PayloadPath(plan.op, i) !in fs) ==>
              plan.PayloadsMarked(fs[MarkerPath(plan.op, i) := node])
  {
  }

  lemma CarriersAreUnique(plan: Plan, i: int, j: int)
    requires plan.Carrier(i) && plan.Carrier(j) && Source(plan.entries[i]) == Source(plan.entries[j])
    ensures i == j
  {
  }

  lemma MovedToTrash(plan: Plan, fs: Files, i: int)
    requires plan.Shape(fs) && plan.Carrier(i) && OperationDir(plan.op) in fs
    requires ValidSource(plan.start.fs, Source(plan.entries[i])) && Source(plan.entries[i]) in fs
    ensures plan.Shape(Moved(fs, Source(plan.entries[i]), PayloadPath(plan.op, i)))
  {
    var source, payload := Source(plan.entries[i]), PayloadPath(plan.op, i);
    var fs' := Moved(fs, source, payload);
    assert plan.OutsideHolds(fs') by {
      assert plan.InRange(i) && Source(plan.entries[i]) == source;
    }
    assert plan.PayloadsHold(fs');
  }

  lemma MovedToTrashKeeps(plan: Plan, fs: Files, i: int)
    requires plan.OutsideHolds(fs) && plan.ContentKept(fs) && plan.PayloadsMarked(fs) && plan.Carrier(i)
    requires plan.WholeMarker(fs, i) && Source(plan.entries[i]) in fs && !InTrash(Source(plan.entries[i]))
    ensures plan.ContentKept(Moved(fs, Source(plan.entries[i]), PayloadPath(plan.op, i)))
    ensures plan.PayloadsMarked(Moved(fs, Source(plan.entries[i]), PayloadPath(plan.op, i)))
  {
    var fs' := Moved(fs, Source(plan.entries[i]), PayloadPath(plan.op, i));
    forall j | plan.Carrier(j) && Source(plan.entries[j]) !in fs'
      ensures PayloadPath(plan.op, j) in fs' && fs'[PayloadPath(plan.op, j)] == plan.start.fs[Source(plan.entries[j])]
    {
      if Source(plan.entries[j]) == Source(plan.entries[i]) {
        CarriersAreUnique(plan, i, j);
      }
    }
  }

  lemma MovedBack(plan: Plan, fs: Files, i: int)
    requires plan.Shape(fs) && plan.ContentKept(fs) && plan.InRange(i) && PayloadPath(plan.op, i) in fs
    ensures plan.Shape(Moved(fs, PayloadPath(plan.op, i), Source(plan.entries[i])))
  {
    var fs' := Moved(fs, PayloadPath(plan.op, i), Source(plan.entries[i]));
    assert plan.OutsideHolds(fs');
    forall j | plan.InRange(j) && PayloadPath(plan.op, j) in fs'
      ensures Source(plan.entries[j]) != Source(plan.entries[i])
    {
      if Source(plan.entries[j]) == Source(plan.entries[i]) {
        CarriersAreUnique(plan, i, j);
      }
    }
  }

  lemma MovedBackKeeps(plan: Plan, fs: Files, i: int)
    requires plan.Shape(fs) && plan.ContentKept(fs) && plan.InRange(i) && PayloadPath(plan.op, i) in fs
    ensures plan.ContentKept(Moved(fs, PayloadPath(plan.op, i), Source(plan.entries[i])))
    ensures plan.PayloadsMarked(fs) ==> plan.PayloadsMarked(Moved(fs, PayloadPath(plan.op, i), Source(plan.entries[i])))
  {
    hide Plan.DirectoriesHold, Plan.MarkersHold;
  }

  /** Dropping a marker keeps the shape; it leaves payloads recoverable if its own is gone. */
  lemma MarkerRemoved(plan: Plan, fs: Files, i: int)
    requires plan.Shape(fs) && plan.InRange(i)
    ensures plan.Shape(fs - {MarkerPath(plan.op, i)})
    ensures plan.ContentKept(fs) ==> plan.ContentKept(fs - {MarkerPath(plan.op, i)})
    ensures plan.PayloadsMarked(fs) && PayloadPath(plan.op, i) !in fs ==>
              plan.PayloadsMarked(fs - {MarkerPath(plan.op, i)})
  {
    var fs' := fs - {MarkerPath(plan.op, i)};
    forall j | plan.InRange(j)
      ensures PayloadPath(plan.op, j) in fs' <==> PayloadPath(plan.op, j) in fs
      ensures MarkerPath(plan.op, j) in fs' <==> j != i && MarkerPath(plan.op, j) in fs
    {
    }
  }

  /** Nothing lies below a payload node. */
  lemma PayloadIsLeaf(plan: Plan, fs: Files, i: int)
    requires plan.Sane() && plan.Shape(fs) && plan.InRange(i)
    ensures WithoutTree(fs, PayloadPath(plan.op, i)) == fs - {PayloadPath(plan.op, i)}
  {
    var payload := PayloadPath(plan.op, i);
    assert !Within(Root, payload) && !Within(TRASH_ROOT, payload) && !Within(OperationDir(plan.op), payload);
    forall p | p in fs && Within(p, payload) ensures p == payload {
      if p != payload {
        WithinTrash(p.parent, payload);
        TrashPathCases(plan, fs, p);
      }
    }
  }

  lemma {:induction false} WithinTrash(p: Path, dir: Path)
    requires Within(p, dir) && InTrash(dir)
    ensures InTrash(p)
  {
    if p != dir {
      WithinTrash(p.parent, dir);
    }
  }

  lemma PayloadRemoved(plan: Plan, fs: Files, i: int)
    requires plan.Shape(fs) && plan.InRange(i)
    ensures plan.Shape(fs - {PayloadPath(plan.op, i)})
    ensures plan.AllAway(fs) ==> plan.AllAway(fs - {PayloadPath(plan.op, i)})
  {
  }

  /** A removal cut short leaves some other tree in place of the payload. */
  lemma PayloadDamaged(plan: Plan, fs: Files, i: int, content: Content)
    requires plan.Shape(fs) && plan.InRange(i) && PayloadPath(plan.op, i) in fs
    ensures plan.Shape((fs - {PayloadPath(plan.op, i)})[PayloadPath(plan.op, i) := SessionTree(content)])
    ensures plan.AllAway(fs) ==>
              plan.AllAway((fs - {PayloadPath(plan.op, i)})[PayloadPath(plan.op, i) := SessionTree(content)])
  {
  }

  lemma OperationDirRemoved(plan: Plan, fs: Files)
    requires plan.Sane() && plan.Shape(fs)
    requires forall i :: plan.InRange(i) ==> MarkerPath(plan.op, i) !in fs && PayloadPath(plan.op, i) !in fs
    ensures plan.Shape(fs - {OperationDir(plan.op)})
    ensures plan.ContentKept(fs) ==> plan.ContentKept(fs - {OperationDir(plan.op)})
    ensures plan.AllAway(fs) ==> plan.AllAway(fs - {OperationDir(plan.op)})
  {
    assert plan.ContentKept(fs) ==> forall i :: plan.Carrier(i) ==> Source(plan.entries[i]) in fs;
    assert plan.ContentKept(fs) ==> forall i :: plan.Carrier(i) ==> !InTrash(Source(plan.entries[i]));
  }

  /** The way to a source looks as it did at the start. */
  lemma SourceValidityIsStable(plan: Plan, fs: Files, e: Entry)
    requires plan.OutsideHolds(fs)
    ensures ValidSource(fs, Source(e)) <==> ValidSource(plan.start.fs, Source(e))
  {
    var p := Source(e);
    var device := p.parent;
    if !InTrash(p) {
      assert !InTrash(device);
      assert !plan.Named(device);
      assert ClearWay(fs, device) <==> ClearWay(plan.start.fs, device);
    }
  }

  /** Closing the operation without a commit restores the tables exactly. */
  lemma ClosingStagedRestores(plan: Plan)
    requires plan.Sane()
    ensures plan.StagedStore().CloseDelete(plan.op) == plan.start.store
    ensures plan.LeasedStore().CloseDelete(plan.op) == plan.start.store
    ensures plan.LeasedStore().ReleaseLeases(plan.op) == plan.start.store
    ensures plan.start.store.ReleaseLeases(plan.op) == plan.start.store
    ensures plan.start.store.CloseDelete(plan.op) == plan.start.store
  {
    assert plan.LeasedStore().ReleaseLeases(plan.op).leases == plan.start.store.leases;
    AllOfOneOperation(plan.Intents(), plan.op);
    assert [] + plan.Intents() == plan.Intents();
  }

  lemma {:induction false} AllOfOneOperation(intents: seq<Intent>, op: string)
    requires forall i :: 0 <= i < |intents| ==> intents[i].operationId == op
    ensures WithoutOperation(intents, op) == []
  {
    if intents != [] {
      AllOfOneOperation(intents[1..], op);
    }
  }
}
