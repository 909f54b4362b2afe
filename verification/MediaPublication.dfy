/** Publication of media projections (src-tauri/src/media.rs): five resources, each a value with
    the version of its source, published under one global revision. */
module MediaPublication {
  import opened Prelude

  type Value = string

  datatype Resource = Scan | Imports | Derivations | Pipelines | Library

  datatype Observed = Observed(sourceVersion: nat, value: Value)

  /** The value on display, the version it came from, and the revision that published it. */
  datatype Slot = Slot(sourceVersion: nat, revision: nat, value: Value)

  /** What one projection brings: any of the five resources. */
  datatype Delta = Delta(
    scan: Option<Observed>, imports: Option<Observed>, derivations: Option<Observed>, pipelines: Option<Observed>,
    library: Option<Observed>)
  {
    function Of(r: Resource): Option<Observed> {
      match r
      case Scan => scan
      case Imports => imports
      case Derivations => derivations
      case Pipelines => pipelines
      case Library => library
    }
  }

  datatype Published = Published(
    globalRevision: nat, scan: Slot, imports: Slot, derivations: Slot, pipelines: Slot, library: Slot)
  {
    function Of(r: Resource): Slot {
      match r
      case Scan => scan
      case Imports => imports
      case Derivations => derivations
      case Pipelines => pipelines
      case Library => library
    }

    /** Only a version newer than the one on display is news. */
    predicate Accepts(d: Delta, r: Resource) {
      d.Of(r).Some? && d.Of(r).value.sourceVersion > Of(r).sourceVersion
    }

    predicate AcceptsAny(d: Delta) {
      Accepts(d, Scan) || Accepts(d, Imports) || Accepts(d, Derivations) || Accepts(d, Pipelines) || Accepts(d, Library)
    }

    /** No resource was published under a revision beyond the global one. */
    predicate Bounded() {
      && scan.revision <= globalRevision && imports.revision <= globalRevision
      && derivations.revision <= globalRevision && pipelines.revision <= globalRevision
      && library.revision <= globalRevision
    }
  }

  /** One resource after a delta was published under a revision. */
  function Joined(slot: Slot, observed: Option<Observed>, revision: nat): Slot {
    if observed.Some? && observed.value.sourceVersion > slot.sourceVersion
    then Slot(observed.value.sourceVersion, revision, observed.value.value)
    else slot
  }

  function PublishDelta(p: Published, d: Delta): Published {
    if !p.AcceptsAny(d) then p
    else
      var revision := p.globalRevision + 1;
      Published(revision, Joined(p.scan, d.scan, revision), Joined(p.imports, d.imports, revision),
                Joined(p.derivations, d.derivations, revision), Joined(p.pipelines, d.pipelines, revision),
                Joined(p.library, d.library, revision))
  }

  function PublishAll(p: Published, deltas: seq<Delta>): Published {
    if deltas == [] then p
    else PublishDelta(PublishAll(p, deltas[..|deltas| - 1]), deltas[|deltas| - 1])
  }

  datatype Event = Event(resource: Resource, slot: Slot)

  // ---------------------------------------------------------------- the application

  class MediaApplication {
    var globalRevision: nat
    var scan: Slot
    var imports: Slot
    var derivations: Slot
    var pipelines: Slot
    var library: Slot

    function View(): Published
      reads this
    {
      Published(globalRevision, scan, imports, derivations, pipelines, library)
    }

    constructor (initial: Published)
      ensures View() == initial
    {
      globalRevision := initial.globalRevision;
      scan, imports, derivations := initial.scan, initial.imports, initial.derivations;
      pipelines, library := initial.pipelines, initial.library;
    }

    /** `publish_delta`, up to the delivery of the events it returns. */
    method Publish(d: Delta) returns (events: seq<Event>)
      modifies this
      ensures View() == PublishDelta(old(View()), d)
      ensures events == EventsOf(old(View()), d)
    {
      events := [];
      if !View().AcceptsAny(d) {
        return;
      }
      globalRevision := globalRevision + 1;
      scan, events := Accept(Scan, scan, d.scan, globalRevision, events);
      imports, events := Accept(Imports, imports, d.imports, globalRevision, events);
      derivations, events := Accept(Derivations, derivations, d.derivations, globalRevision, events);
      pipelines, events := Accept(Pipelines, pipelines, d.pipelines, globalRevision, events);
      library, events := Accept(Library, library, d.library, globalRevision, events);
    }
  }

  /** One of the five accept blocks. */
  method Accept(r: Resource, slot: Slot, observed: Option<Observed>, revision: nat, events: seq<Event>)
    returns (slot': Slot, events': seq<Event>)
    ensures slot' == Joined(slot, observed, revision)
    ensures events' == events + EventOf(r, slot, slot', observed)
  {
    if observed.Some? && observed.value.sourceVersion > slot.sourceVersion {
      slot' := Slot(observed.value.sourceVersion, revision, observed.value.value);
      events' := events + [Event(r, slot')];
    } else {
      slot', events' := slot, events;
    }
  }

  function EventOf(r: Resource, slot: Slot, slot': Slot, observed: Option<Observed>): seq<Event> {
    if observed.Some? && observed.value.sourceVersion > slot.sourceVersion then [Event(r, slot')] else []
  }

  function EventsOf(p: Published, d: Delta): seq<Event> {
    var q := PublishDelta(p, d);
    EventOf(Scan, p.scan, q.scan, d.scan) + EventOf(Imports, p.imports, q.imports, d.imports)
    + EventOf(Derivations, p.derivations, q.derivations, d.derivations)
    + EventOf(Pipelines, p.pipelines, q.pipelines, d.pipelines) + EventOf(Library, p.library, q.library, d.library)
  }

  /** One event for each accepted resource, with what a reader finds there under the new revision. */
  lemma EventsTellTheSnapshot(p: Published, d: Delta, e: Event)
    ensures e in EventsOf(p, d) <==> p.Accepts(d, e.resource) && e.slot == PublishDelta(p, d).Of(e.resource)
    ensures e in EventsOf(p, d) ==> e.slot.revision == PublishDelta(p, d).globalRevision == p.globalRevision + 1
  {
    var q := PublishDelta(p, d);
    var one, two := EventOf(Scan, p.scan, q.scan, d.scan), EventOf(Imports, p.imports, q.imports, d.imports);
    var three := EventOf(Derivations, p.derivations, q.derivations, d.derivations);
    var four := EventOf(Pipelines, p.pipelines, q.pipelines, d.pipelines);
    var five := EventOf(Library, p.library, q.library, d.library);
    assert e in EventsOf(p, d) <==> e in one || e in two || e in three || e in four || e in five;
  }

  /** Some observation of the delta is newer than what is shown. */
  ghost predicate BringsNews(p: Published, d: Delta) {
    exists r, o :: d.Of(r) == Some(o) && o.sourceVersion > p.Of(r).sourceVersion
  }

  /** A revision is spent, and an event sent, exactly if the delta brings news. */
  lemma NoNewsNoRevision(p: Published, d: Delta)
    ensures PublishDelta(p, d).globalRevision == p.globalRevision + if BringsNews(p, d) then 1 else 0
    ensures !BringsNews(p, d) ==> PublishDelta(p, d) == p
    ensures EventsOf(p, d) == [] <==> !BringsNews(p, d)
  {
    assert forall r :: p.Accepts(d, r) <==> d.Of(r).Some? && d.Of(r).value.sourceVersion > p.Of(r).sourceVersion;
    if r, o :| d.Of(r) == Some(o) && o.sourceVersion > p.Of(r).sourceVersion {
      assert p.Accepts(d, r) && p.AcceptsAny(d);
      EventsTellTheSnapshot(p, d, Event(r, PublishDelta(p, d).Of(r)));
    } else {
      assert forall r :: !p.Accepts(d, r);
    }
  }

  function Rank(r: Resource): nat {
    match r
    case Scan => 0
    case Imports => 1
    case Derivations => 2
    case Pipelines => 3
    case Library => 4
  }

  /** The events come in the one order of the resources, each at most once. */
  lemma EventsAreOrdered(p: Published, d: Delta, i: nat, j: nat)
    requires i < j < |EventsOf(p, d)|
    ensures Rank(EventsOf(p, d)[i].resource) < Rank(EventsOf(p, d)[j].resource)
  {
    hide PublishDelta;
  }

  // ---------------------------------------------------------------- a join

  lemma OneDelta(p: Published, d: Delta, r: Resource)
    ensures PublishDelta(p, d).Of(r) == Joined(p.Of(r), d.Of(r), p.globalRevision + 1)
    ensures p.globalRevision <= PublishDelta(p, d).globalRevision
  {
  }

  ghost predicate ObservedIn(deltas: seq<Delta>, r: Resource, o: Observed) {
    exists d :: d in deltas && d.Of(r) == Some(o)
  }

  /** No observation has a newer version than the one on display in the end. */
  lemma {:induction false} NothingNewer(p: Published, deltas: seq<Delta>, r: Resource)
    ensures p.Of(r).sourceVersion <= PublishAll(p, deltas).Of(r).sourceVersion
    ensures forall o :: ObservedIn(deltas, r, o) ==> o.sourceVersion <= PublishAll(p, deltas).Of(r).sourceVersion
  {
    hide Published.Of, Delta.Of, PublishDelta;
    if deltas != [] {
      var before, last := deltas[..|deltas| - 1], deltas[|deltas| - 1];
      NothingNewer(p, before, r);
      OneDelta(PublishAll(p, before), last, r);
      assert deltas == before + [last];
      forall o | ObservedIn(deltas, r, o) ensures ObservedIn(before, r, o) || last.Of(r) == Some(o) {
        var d :| d in deltas && d.Of(r) == Some(o);
        assert d in before || d == last;
      }
    }
  }

  /** Each resource ends with its highest version, and with the value that first came with it. */
  lemma {:induction false} HighestVersionWins(p: Published, deltas: seq<Delta>, r: Resource)
    ensures var slot := PublishAll(p, deltas).Of(r);
            slot == p.Of(r) || exists k :: FirstAt(deltas, r, slot, k)
  {
    hide Published.Of, Delta.Of, PublishDelta;
    if deltas != [] {
      var before, last := deltas[..|deltas| - 1], deltas[|deltas| - 1];
      var q := PublishAll(p, before);
      HighestVersionWins(p, before, r);
      NothingNewer(p, before, r);
      OneDelta(q, last, r);
      if q.Accepts(last, r) {
        forall j | 0 <= j < |before| && deltas[j].Of(r).Some?
          ensures deltas[j].Of(r).value.sourceVersion < last.Of(r).value.sourceVersion
        {
          assert before[j] in before && ObservedIn(before, r, deltas[j].Of(r).value);
        }
        assert FirstAt(deltas, r, PublishAll(p, deltas).Of(r), |before|);
      } else if q.Of(r) != p.Of(r) {
        var k :| FirstAt(before, r, q.Of(r), k);
        assert FirstAt(deltas, r, q.Of(r), k);
      }
    }
  }

  ghost predicate FirstAt(deltas: seq<Delta>, r: Resource, slot: Slot, k: int) {
    && 0 <= k < |deltas| && deltas[k].Of(r) == Some(Observed(slot.sourceVersion, slot.value))
    && forall j :: 0 <= j < k && deltas[j].Of(r).Some? ==> deltas[j].Of(r).value.sourceVersion < slot.sourceVersion
  }

  /** Every value of r that is around is the one its version stands for. */
  ghost predicate VersionsDetermine(p: Published, deltas: seq<Delta>, r: Resource, meaning: map<nat, Value>) {
    && (p.Of(r).sourceVersion in meaning && meaning[p.Of(r).sourceVersion] == p.Of(r).value)
    && forall o :: ObservedIn(deltas, r, o) ==> o.sourceVersion in meaning && meaning[o.sourceVersion] == o.value
  }

  /** Order and repetition do not matter: the same observations give the same values. */
  lemma OrderIsIrrelevant(p: Published, deltas: seq<Delta>, others: seq<Delta>, r: Resource, meaning: map<nat, Value>)
    requires VersionsDetermine(p, deltas, r, meaning)
    requires forall o :: ObservedIn(deltas, r, o) <==> ObservedIn(others, r, o)
    ensures PublishAll(p, deltas).Of(r).sourceVersion == PublishAll(p, others).Of(r).sourceVersion
    ensures PublishAll(p, deltas).Of(r).value == PublishAll(p, others).Of(r).value
  {
    NothingNewer(p, deltas, r);
    NothingNewer(p, others, r);
    ShownWasObserved(p, deltas, r);
    ShownWasObserved(p, others, r);
  }

  lemma ShownWasObserved(p: Published, deltas: seq<Delta>, r: Resource)
    ensures var slot := PublishAll(p, deltas).Of(r);
            slot == p.Of(r) || ObservedIn(deltas, r, Observed(slot.sourceVersion, slot.value))
  {
    HighestVersionWins(p, deltas, r);
    var slot := PublishAll(p, deltas).Of(r);
    if slot != p.Of(r) {
      var k :| FirstAt(deltas, r, slot, k);
      assert deltas[k] in deltas;
    }
  }

  // ---------------------------------------------------------------- revisions

  /** What one delta publishes gets one revision of its own; everything else keeps its revision. */
  lemma AcceptedTogetherShareRevision(p: Published, d: Delta, r: Resource)
    requires p.Bounded()
    ensures PublishDelta(p, d).Bounded()
    ensures p.Accepts(d, r) ==>
              PublishDelta(p, d).Of(r).revision == PublishDelta(p, d).globalRevision > p.globalRevision
    ensures !p.Accepts(d, r) ==> PublishDelta(p, d).Of(r) == p.Of(r)
  {
  }

  /** Delta k gave r the value it shows at the end. */
  ghost predicate PublishedBy(p: Published, deltas: seq<Delta>, k: int, r: Resource) {
    && 0 <= k < |deltas|
    && PublishAll(p, deltas[..k]).Accepts(deltas[k], r)
    && PublishAll(p, deltas[..k + 1]).Of(r) == PublishAll(p, deltas).Of(r)
  }

  /** No snapshot of any run shows an inner revision beyond its outer one. */
  lemma {:induction false} SnapshotsAreBounded(p: Published, deltas: seq<Delta>)
    requires p.Bounded()
    ensures PublishAll(p, deltas).Bounded() && p.globalRevision <= PublishAll(p, deltas).globalRevision
  {
    if deltas != [] {
      SnapshotsAreBounded(p, deltas[..|deltas| - 1]);
    }
  }

  lemma BoundedSlots(p: Published, r: Resource)
    requires p.Bounded()
    ensures p.Of(r).revision <= p.globalRevision
  {
  }

  /** Two resources that show the same new revision were published by the same delta. */
  lemma {:induction false} RevisionNamesItsDelta(p: Published, deltas: seq<Delta>, r: Resource, q: Resource)
    requires p.Bounded()
    requires PublishAll(p, deltas).Of(r).revision == PublishAll(p, deltas).Of(q).revision > p.globalRevision
    ensures exists k :: PublishedBy(p, deltas, k, r) && PublishedBy(p, deltas, k, q)
  {
    hide Published.Of, Published.Accepts, Published.Bounded, PublishDelta;
    BoundedSlots(p, r);
    if deltas != [] {
      var before, last := deltas[..|deltas| - 1], deltas[|deltas| - 1];
      var b := PublishAll(p, before);
      SnapshotsAreBounded(p, before);
      AcceptedTogetherShareRevision(b, last, r);
      AcceptedTogetherShareRevision(b, last, q);
      BoundedSlots(b, r);
      BoundedSlots(b, q);
      assert deltas[..|before| + 1] == deltas;
      if b.Accepts(last, r) {
        assert PublishedBy(p, deltas, |before|, r) && PublishedBy(p, deltas, |before|, q);
      } else {
        RevisionNamesItsDelta(p, before, r, q);
        var k :| PublishedBy(p, before, k, r) && PublishedBy(p, before, k, q);
        assert before[..k] == deltas[..k] && before[..k + 1] == deltas[..k + 1];
        assert PublishedBy(p, deltas, k, r) && PublishedBy(p, deltas, k, q);
      }
    }
  }
}
