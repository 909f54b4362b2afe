/** Each durable step of a delete leaves a state of the phase it was taken in. */
module DeleteSteps {
  import opened DeleteMachine
  import opened DeletePlan
  import opened DeleteWorld

  lemma AdmittedByMore(plan: Plan, phase: Phase, phases: set<Phase>, w: World)
    requires plan.Admits({phase}, w) && phase in phases
    ensures plan.Admits(phases, w)
  {
  }

  lemma StepMovedBack(plan: Plan, phase: Phase, w: World, i: int)
    requires plan.Admits({phase}, w) && phase in BEFORE_COMMIT
    requires plan.InRange(i) && PayloadPath(plan.op, i) in w.fs
    ensures plan.Admits({phase}, World(Moved(w.fs, PayloadPath(plan.op, i), Source(plan.entries[i])), w.store))
  {
    hide Plan.Shape, Plan.ContentKept;
    MovedBack(plan, w.fs, i);
    MovedBackKeeps(plan, w.fs, i);
  }

  lemma StepMarkerRemoved(plan: Plan, phase: Phase, w: World, i: int)
    requires plan.Admits({phase}, w) && plan.InRange(i)
    requires phase.Opening? ==> PayloadPath(plan.op, i) !in w.fs
    ensures plan.Admits({phase}, World(w.fs - {MarkerPath(plan.op, i)}, w.store))
  {
    hide Plan.Shape, Plan.ContentKept;
    MarkerRemoved(plan, w.fs, i);
  }

  lemma StepPayloadRemoved(plan: Plan, w: World, i: int)
    requires plan.Sane() && plan.IntentsCommitted(w) && plan.InRange(i)
    ensures plan.IntentsCommitted(World(WithoutTree(w.fs, PayloadPath(plan.op, i)), w.store))
  {
    hide Plan.Shape, Plan.AllAway;
    PayloadIsLeaf(plan, w.fs, i);
    PayloadRemoved(plan, w.fs, i);
  }

  lemma StepPayloadDamaged(plan: Plan, w: World, i: int, rest: Content)
    requires plan.Sane() && plan.IntentsCommitted(w) && plan.InRange(i) && PayloadPath(plan.op, i) in w.fs
    ensures plan.IntentsCommitted(World(
              WithoutTree(w.fs, PayloadPath(plan.op, i))[PayloadPath(plan.op, i) := SessionTree(rest)], w.store))
  {
    hide Plan.Shape, Plan.AllAway;
    PayloadIsLeaf(plan, w.fs, i);
    PayloadDamaged(plan, w.fs, i, rest);
  }

  lemma OperationDirIsDirectory(plan: Plan, fs: Files)
    requires plan.Shape(fs) && OperationDir(plan.op) in fs
    ensures fs[OperationDir(plan.op)] == Directory
  {
  }

  lemma ChildlessDirectory(plan: Plan, fs: Files)
    requires plan.Sane() && plan.Shape(fs) && Children(fs, OperationDir(plan.op)) == {}
    ensures forall i :: plan.InRange(i) ==> MarkerPath(plan.op, i) !in fs && PayloadPath(plan.op, i) !in fs
    ensures plan.Shape(fs - {OperationDir(plan.op)})
    ensures plan.ContentKept(fs) ==> plan.ContentKept(fs - {OperationDir(plan.op)})
    ensures plan.AllAway(fs) ==> plan.AllAway(fs - {OperationDir(plan.op)})
  {
    assert forall p :: p in fs && p.Child? && p.parent == OperationDir(plan.op) ==>
             p in Children(fs, OperationDir(plan.op));
    OperationDirRemoved(plan, fs);
  }

  lemma StepDirectoryRemoved(plan: Plan, phase: Phase, w: World)
    requires plan.Sane() && plan.Admits({phase}, w) && Children(w.fs, OperationDir(plan.op)) == {}
    ensures plan.Admits({phase}, World(w.fs - {OperationDir(plan.op)}, w.store))
  {
    hide Plan.Shape, Plan.ContentKept, Plan.AllAway;
    ChildlessDirectory(plan, w.fs);
  }

  /** With its markers and payloads gone, the operation directory is empty. */
  lemma NothingInOperationDir(plan: Plan, fs: Files)
    requires plan.Shape(fs)
    requires forall i :: plan.InRange(i) ==> MarkerPath(plan.op, i) !in fs && PayloadPath(plan.op, i) !in fs
    ensures Children(fs, OperationDir(plan.op)) == {}
  {
    forall p | p in fs && p.Child? && p.parent == OperationDir(plan.op) ensures false {
      TrashPathCases(plan, fs, p);
    }
  }

  // ---------------------------------------------------------------- staging

  lemma NoTrashAtStart(plan: Plan)
    requires plan.Sane()
    ensures plan.TrashIsEmpty(plan.start.fs)
  {
    forall i | plan.InRange(i)
      ensures MarkerPath(plan.op, i) !in plan.start.fs && PayloadPath(plan.op, i) !in plan.start.fs
    {
      assert MarkerPath(plan.op, i).parent.parent.Child? && PayloadPath(plan.op, i).parent.parent.Child?;
    }
    assert InTrash(OperationDir(plan.op));
  }

  lemma StartIsOpening(plan: Plan, store: Store)
    requires plan.Sane() && (store == plan.start.store || store == plan.LeasedStore())
    ensures plan.BeforeIntents(World(plan.start.fs, store))
  {
    NoTrashAtStart(plan);
    forall p | p in plan.start.fs && InTrash(p) ensures p == TRASH_ROOT {
      assert p.parent.Root? ==> !InTrash(p.parent);
    }
  }

  lemma StepTrashRootCreated(plan: Plan, w: World)
    requires plan.BeforeIntents(w) && TRASH_ROOT !in w.fs
    ensures plan.BeforeIntents(World(w.fs[TRASH_ROOT := Directory], w.store))
  {
    hide Plan.Shape;
    TrashRootCreated(plan, w.fs);
  }

  lemma StepOperationDirCreated(plan: Plan, w: World)
    requires plan.Sane() && plan.BeforeIntents(w)
    requires TRASH_ROOT in w.fs && w.fs[TRASH_ROOT] == Directory && OperationDir(plan.op) !in w.fs
    ensures plan.BeforeIntents(World(w.fs[OperationDir(plan.op) := Directory], w.store))
  {
    hide Plan.Shape;
    OperationDirCreated(plan, w.fs);
    forall i | plan.Carrier(i) ensures !InTrash(Source(plan.entries[i])) {
    }
  }

  lemma StepMarkerWritten(plan: Plan, w: World, i: int, node: Node)
    requires plan.BeforeIntents(w) && plan.InRange(i) && OperationDir(plan.op) in w.fs
    requires ValidSource(plan.start.fs, Source(plan.entries[i])) && PayloadPath(plan.op, i) !in w.fs
    requires node == TornFile || node == MarkerFile(plan.MarkerFor(i))
    ensures plan.BeforeIntents(World(w.fs[MarkerPath(plan.op, i) := node], w.store))
  {
    hide Plan.Shape, Plan.ContentKept, Plan.PayloadsMarked;
    MarkerWritten(plan, w.fs, i, node);
  }

  lemma StepMovedToTrash(plan: Plan, w: World, i: int)
    requires plan.BeforeIntents(w) && plan.Carrier(i) && OperationDir(plan.op) in w.fs
    requires ValidSource(plan.start.fs, Source(plan.entries[i])) && Source(plan.entries[i]) in w.fs
    requires plan.WholeMarker(w.fs, i)
    ensures plan.BeforeIntents(World(Moved(w.fs, Source(plan.entries[i]), PayloadPath(plan.op, i)), w.store))
  {
    hide Plan.ContentKept, Plan.PayloadsMarked, Plan.TrashHolds;
    MovedToTrash(plan, w.fs, i);
    MovedToTrashKeeps(plan, w.fs, i);
  }

  /** A directory still at home is carried by the entry that is staged next. */
  lemma NextCarrier(plan: Plan, w: World, i: int)
    requires plan.Sane() && plan.BeforeIntents(w) && plan.InRange(i)
    requires Source(plan.entries[i]) in w.fs && w.fs[Source(plan.entries[i])].IsDir()
    requires !InTrash(Source(plan.entries[i]))
    requires forall j :: 0 <= j < i ==> Source(plan.entries[j]) !in w.fs
    ensures plan.Carrier(i)
  {
  }

  /** The checks of one staging turn see what they would have seen at the start. */
  lemma StageableNow(plan: Plan, w: World, i: int)
    requires plan.BeforeIntents(w) && plan.InRange(i)
    ensures plan.EntryStageable(i) <==>
              && SafeEntry(plan.entries[i]) && ValidSource(w.fs, Source(plan.entries[i]))
              && (Source(plan.entries[i]) in w.fs ==> w.fs[Source(plan.entries[i])].IsDir())
    ensures ValidSource(w.fs, Source(plan.entries[i])) ==>
              ValidSource(plan.start.fs, Source(plan.entries[i])) && !InTrash(Source(plan.entries[i]))
  {
    hide Plan.TrashHolds, Plan.ContentKept, Plan.PayloadsMarked;
    SourceValidityIsStable(plan, w.fs, plan.entries[i]);
  }
}
