/** Race-free backend start (src/runtime/start.ts): subscribe and buffer, read a snapshot or the
    four resources one by one, replay what the reads do not include, then go live. */
module Boot {
  import opened ClientCatalog
  import opened Prelude

  type Value = string

  /** What an event is about. Only the first five are resources of the store kept here. */
  datatype Name =
    | Devices | Library | Transfers | Storage | TransferJobs
    | Sessions(deviceId: string) | Pairing(deviceId: string, attemptId: string)

  /** The resources that boot reads; `TransferJobs` has an event but no read. */
  predicate IsBoot(name: Name) {
    name.Devices? || name.Library? || name.Transfers? || name.Storage?
  }

  predicate IsResource(name: Name) {
    IsBoot(name) || name.TransferJobs?
  }

  datatype Event = Event(name: Name, revision: nat, value: Value)

  datatype Read = Read(revision: nat, value: Value) | Failure(error: string, rpcError: Option<string>)

  /** What a listener does while it is told of an event. */
  datatype Callback = Callback(emits: seq<Event>, quits: bool)

  /** Everything the listener emits over these calls. */
  function Emitted(listener: seq<Callback>): seq<Event> {
    if listener == [] then [] else Emitted(listener[..|listener| - 1]) + listener[|listener| - 1].emits
  }

  predicate Quits(listener: seq<Callback>) {
    exists k :: 0 <= k < |listener| && listener[k].quits
  }

  // ---------------------------------------------------------------- what the store makes of it all

  function Deliver(current: Resource<Value>, e: Event, name: Name): Resource<Value> {
    if e.name == name then LoadResource(current, e.revision, e.value).0 else current
  }

  function DeliverAll(current: Resource<Value>, events: seq<Event>, name: Name): Resource<Value> {
    if events == [] then current
    else Deliver(DeliverAll(current, events[..|events| - 1], name), events[|events| - 1], name)
  }

  function AfterRead(current: Resource<Value>, read: Read): Resource<Value> {
    match read
    case Read(revision, value) => LoadResource(current, revision, value).0
    case Failure(error, rpcError) => FailResource(current, error, rpcError, None).0
  }

  /** A successful read that is not older replaces everything; a failed one shows its error over the
      last good value, under the revision that was there. Either ends the loading. */
  ghost predicate ShowsAnswer(before: Resource<Value>, after: Resource<Value>, answer: Read) {
    match answer
    case Read(revision, value) =>
      if before.revision <= revision
        then after == Resource(false, Some(value), None, None, revision, Some(value))
      else after == before
    case Failure(error, rpcError) =>
      && !after.loading && after.error == Some(error) && after.rpcError == rpcError
      && after.value == before.lastGood == after.lastGood && after.revision == before.revision
  }

  lemma AnswerIsShown(current: Resource<Value>, answer: Read)
    ensures ShowsAnswer(current, AfterRead(current, answer), answer)
  {
  }

  /** A resource when everything has been read and nothing replayed. */
  function Base(initial: Resource<Value>, name: Name, answers: map<Name, Read>): Resource<Value> {
    var loading := if IsBoot(name) then MarkLoading(initial).0 else initial;
    if name in answers then AfterRead(loading, answers[name]) else loading
  }

  /** `snapshotIncludesEvent`: only successful reads are a boundary. */
  predicate Included(boundary: map<Name, nat>, e: Event) {
    e.name in boundary && e.revision <= boundary[e.name]
  }

  function Boundary(answers: map<Name, Read>): map<Name, nat> {
    map n | n in answers && answers[n].Read? :: answers[n].revision
  }

  /** The events that a boundary leaves to be delivered, in order. */
  function Beyond(boundary: map<Name, nat>, events: seq<Event>): seq<Event> {
    if events == [] then []
    else
      var last := events[|events| - 1];
      Beyond(boundary, events[..|events| - 1]) + if Included(boundary, last) then [] else [last]
  }

  lemma AnsweredBase(initial: Resource<Value>, n: Name, answers: map<Name, Read>, name: Name, answer: Read)
    requires IsBoot(name) && name !in answers
    ensures DeliverAll(Base(initial, n, answers[name := answer]), [], n)
         == if n == name then AfterRead(DeliverAll(Base(initial, n, answers), [], n), answer)
            else DeliverAll(Base(initial, n, answers), [], n)
  {
  }

  lemma BeyondGrows(boundary: map<Name, nat>, events: seq<Event>, e: Event)
    ensures Beyond(boundary, events + [e]) ==
            Beyond(boundary, events) + if Included(boundary, e) then [] else [e]
  {
    assert (events + [e])[..|events|] == events;
  }

  lemma {:induction false} BeyondPrefix(boundary: map<Name, nat>, events: seq<Event>, n: nat)
    requires n <= |events|
    ensures Beyond(boundary, events[..n]) <= Beyond(boundary, events)
  {
    if n == |events| {
      assert events[..n] == events;
    } else {
      var before := events[..|events| - 1];
      assert before[..n] == events[..n];
      BeyondPrefix(boundary, before, n);
    }
  }

  lemma NothingBeyond(boundary: map<Name, nat>, events: seq<Event>)
    ensures Beyond(boundary, events[..0]) == []
  {
  }

  /** How often an event occurs. */
  function Occurrences(events: seq<Event>, e: Event): nat {
    if events == [] then 0
    else Occurrences(events[..|events| - 1], e) + if events[|events| - 1] == e then 1 else 0
  }

  lemma OneMoreOccurrence(events: seq<Event>, last: Event, e: Event)
    ensures Occurrences(events + [last], e) == Occurrences(events, e) + if last == e then 1 else 0
  {
    assert (events + [last])[..|events|] == events;
  }

  lemma {:induction false} OccurrencesAdd(events: seq<Event>, more: seq<Event>, e: Event)
    ensures Occurrences(events + more, e) == Occurrences(events, e) + Occurrences(more, e)
  {
    if more == [] {
      assert events + more == events;
    } else {
      var before, last := more[..|more| - 1], more[|more| - 1];
      OccurrencesAdd(events, before, e);
      OneMoreOccurrence(events + before, last, e);
      assert events + more == events + before + [last];
    }
  }

  lemma {:induction false} BeyondCounts(boundary: map<Name, nat>, events: seq<Event>, e: Event)
    ensures Occurrences(Beyond(boundary, events), e) == if Included(boundary, e) then 0 else Occurrences(events, e)
  {
    if events == [] {
      assert Beyond(boundary, events) == [];
    } else {
      hide Included, Beyond, Occurrences;
      var before, last := events[..|events| - 1], events[|events| - 1];
      assert events == before + [last];
      BeyondCounts(boundary, before, e);
      BeyondGrows(boundary, before, last);
      OneMoreOccurrence(before, last, e);
      OneMoreOccurrence(Beyond(boundary, before), last, e);
      if Included(boundary, last) {
        assert Beyond(boundary, before) + [] == Beyond(boundary, before);
      }
    }
  }

  lemma {:induction false} OccursIff(events: seq<Event>, e: Event)
    ensures e in events <==> Occurrences(events, e) > 0
  {
    if events != [] {
      var before, last := events[..|events| - 1], events[|events| - 1];
      OccursIff(before, e);
      assert events == before + [last];
    }
  }

  lemma BeyondMembers(boundary: map<Name, nat>, events: seq<Event>)
    ensures forall e :: e in Beyond(boundary, events) <==> e in events && !Included(boundary, e)
  {
    hide Beyond, Included, Occurrences;
    forall e ensures e in Beyond(boundary, events) <==> e in events && !Included(boundary, e) {
      BeyondCounts(boundary, events, e);
      OccursIff(events, e);
      OccursIff(Beyond(boundary, events), e);
    }
  }

  lemma DeliveredGrows(current: Resource<Value>, events: seq<Event>, e: Event, name: Name)
    ensures DeliverAll(current, events + [e], name) == Deliver(DeliverAll(current, events, name), e, name)
  {
    assert (events + [e])[..|events|] == events;
  }

  /** Whatever the order of revisions, the highest one stays: the last to arrive among equals. */
  lemma {:induction false} HighestWins(current: Resource<Value>, events: seq<Event>, name: Name)
    ensures var r := DeliverAll(current, events, name);
            && current.revision <= r.revision
            && (forall e :: e in events && e.name == name ==> e.revision <= r.revision)
            && (r == current || exists k :: LastAccepted(events, k, name, r))
            && ((exists e :: e in events && e.name == name && current.revision <= e.revision) ==>
                  exists k :: LastAccepted(events, k, name, r))
  {
    if events != [] {
      var before, last := events[..|events| - 1], events[|events| - 1];
      var r := DeliverAll(current, before, name);
      HighestWins(current, before, name);
      assert events == before + [last];
      if last.name == name && r.revision <= last.revision {
        assert LastAccepted(events, |before|, name, DeliverAll(current, events, name));
      } else if k :| LastAccepted(before, k, name, r) {
        assert LastAccepted(events, k, name, r);
      }
    }
  }

  /** Event k is what the resource shows, and every later one on it is older. */
  ghost predicate LastAccepted(events: seq<Event>, k: int, name: Name, r: Resource<Value>) {
    && 0 <= k < |events| && events[k].name == name
    && r == Resource(false, Some(events[k].value), None, None, events[k].revision, Some(events[k].value))
    && forall j :: k < j < |events| && events[j].name == name ==> events[j].revision < r.revision
  }

  // ---------------------------------------------------------------- the session

  lemma NothingHeard(listener: seq<Callback>)
    ensures Emitted(listener[..0]) == [] && !Quits(listener[..0])
  {
  }

  lemma HeardGrows(listener: seq<Callback>, n: nat)
    requires n < |listener|
    ensures Emitted(listener[..n + 1]) == Emitted(listener[..n]) + listener[n].emits
    ensures Quits(listener[..n + 1]) <==> Quits(listener[..n]) || listener[n].quits
  {
    assert listener[..n + 1][..n] == listener[..n];
    assert listener[..n + 1][n] == listener[n];
    assert forall k :: 0 <= k < n ==> listener[..n + 1][k] == listener[..n][k];
  }

  class BackendSession {
    /** Some while events are buffered; None once live or disposed. */
    var buffer: Option<seq<Event>>
    var disposed: bool
    var store: map<Name, Resource<Value>>
    /** The replay boundary, known once every read has been answered. */
    var boundary: Option<map<Name, nat>>
    ghost const initial: map<Name, Resource<Value>>
    /** The reads answered so far. */
    var answers: map<Name, Read>
    /** The events that arrived before the session went live, and those since. */
    ghost var early: seq<Event>
    ghost var late: seq<Event>
    ghost var delivered: seq<Event>

    ghost predicate StoreIsCurrent()
      reads this`store, this`answers, this`delivered
    {
      && (forall n :: n in store <==> IsResource(n)) && (forall n :: n in initial <==> IsResource(n))
      && (forall n :: n in answers ==> IsBoot(n))
      && forall n :: n in store ==> store[n] == DeliverAll(Base(initial[n], n, answers), delivered, n)
    }

    ghost predicate BoundaryIsKnown()
      reads this
    {
      if boundary.None? then delivered == []
      else (forall n :: IsBoot(n) ==> n in answers) && boundary.value == Boundary(answers)
    }

    ghost predicate Live()
      reads this
    {
      !disposed && buffer.None?
    }

    /** What holds between any two steps, in whatever order they come. */
    ghost predicate Valid()
      reads this
    {
      && StoreIsCurrent() && BoundaryIsKnown()
      && (disposed ==> buffer.None?)
      && (buffer.Some? ==> delivered == [] && buffer.value == early && late == [])
      && (Live() ==> boundary.Some? && delivered == Beyond(boundary.value, early) + late)
      && (boundary.Some? ==> delivered <= Beyond(boundary.value, early) + late)
    }

    /** Subscribed, and the boot resources marked as loading. */
    constructor (initial: map<Name, Resource<Value>>)
      requires forall n :: n in initial <==> IsResource(n)
      ensures Valid() && buffer == Some([]) && !disposed && boundary.None?
      ensures this.initial == initial && answers == map[] && early == [] && late == []
      ensures store.Keys == initial.Keys
      ensures forall n :: n in store ==>
                && store[n].value == initial[n].value && store[n].revision == initial[n].revision
                && (n in [Devices, Library, Transfers, Storage] ==> store[n].loading)
                && (n !in [Devices, Library, Transfers, Storage] ==> store[n] == initial[n])
    {
      this.initial := initial;
      buffer, disposed, boundary := Some([]), false, None;
      store := map n | n in initial :: if IsBoot(n) then MarkLoading(initial[n]).0 else initial[n];
      answers, early, late, delivered := map[], [], [], [];
    }

    method DeliverEvent(e: Event)
      requires StoreIsCurrent()
      modifies this`store, this`delivered
      ensures StoreIsCurrent() && delivered == old(delivered) + [e]
    {
      hide LoadResource, Base, DeliverAll;
      forall n | n in store
        ensures DeliverAll(Base(initial[n], n, answers), delivered + [e], n) == Deliver(store[n], e, n)
      {
        DeliveredGrows(Base(initial[n], n, answers), delivered, e, n);
      }
      if e.name in store {
        store := store[e.name := LoadResource(store[e.name], e.revision, e.value).0];
      }
      delivered := delivered + [e];
    }

    /** The subscriber: buffers, or delivers, or ignores what comes after the end. */
    method Arrive(e: Event)
      requires Valid()
      modifies this
      ensures Valid() && disposed == old(disposed) && answers == old(answers) && boundary == old(boundary)
      ensures buffer.None? == old(buffer).None?
      ensures early == if old(buffer).Some? then old(early) + [e] else old(early)
      ensures late == if old(Live()) then old(late) + [e] else old(late)
    {
      hide StoreIsCurrent, Beyond, Boundary;
      if buffer.Some? {
        buffer := Some(buffer.value + [e]);
        early := early + [e];
      } else if !disposed {
        DeliverEvent(e);
        late := late + [e];
      }
    }

    method Dispose()
      requires Valid()
      modifies this
      ensures Valid() && disposed && answers == old(answers)
      ensures early == old(early) && late == old(late) && delivered == old(delivered) && store == old(store)
    {
      hide StoreIsCurrent, Beyond, Boundary;
      buffer, disposed := None, true;
    }

    method Answer(name: Name, answer: Read)
      requires StoreIsCurrent() && delivered == [] && IsBoot(name) && name !in answers
      modifies this`store, this`answers
      ensures StoreIsCurrent() && answers == old(answers)[name := answer]
      ensures store == old(store)[name := store[name]] && ShowsAnswer(old(store)[name], store[name], answer)
    {
      AnswerIsShown(store[name], answer);
      hide Base, DeliverAll, AfterRead, ShowsAnswer;
      forall n | n in store
        ensures DeliverAll(Base(initial[n], n, answers[name := answer]), delivered, n)
             == if n == name then AfterRead(store[n], answer) else store[n]
      {
        AnsweredBase(initial[n], n, answers, name, answer);
      }
      store := store[name := AfterRead(store[name], answer)];
      answers := answers[name := answer];
    }

    /** One read is answered, before anything is replayed. */
    method Commit(name: Name, answer: Read)
      requires Valid() && IsBoot(name) && name !in answers && boundary.None?
      modifies this
      ensures Valid() && answers == old(answers)[name := answer] && boundary.None?
      ensures disposed == old(disposed) && buffer == old(buffer) && early == old(early) && late == old(late)
      ensures name in old(store) && name in store && store == old(store)[name := store[name]]
      ensures ShowsAnswer(old(store)[name], store[name], answer)
    {
      assert name in store;
      hide StoreIsCurrent, Beyond, Boundary, ShowsAnswer;
      Answer(name, answer);
    }

    /** Every answer is in: the revisions of the successful ones are the replay boundary. */
    method SetBoundary(revisions: map<Name, nat>)
      requires Valid() && boundary.None? && (forall n :: IsBoot(n) ==> n in answers) && revisions == Boundary(answers)
      modifies this
      ensures Valid() && boundary == Some(revisions)
      ensures disposed == old(disposed) && buffer == old(buffer) && early == old(early) && late == old(late)
      ensures answers == old(answers) && store == old(store)
    {
      hide StoreIsCurrent, Beyond, Boundary;
      boundary := Some(revisions);
    }

    /** The FIFO drain. Each delivery calls the listener once; what it emits joins the same queue,
        and it may dispose the session. `heard` are the calls that were made. */
    method Drain(listener: seq<Callback>) returns (ghost heard: seq<Callback>)
      requires Valid() && boundary.Some? && buffer.Some?
      modifies this
      ensures Valid() && buffer.None? && late == []
      ensures heard == listener[..if |delivered| < |listener| then |delivered| else |listener|]
      ensures early == old(early) + Emitted(heard)
      ensures disposed <==> Quits(heard)
      ensures answers == old(answers) && boundary == old(boundary)
    {
      hide StoreIsCurrent, Boundary, Beyond, Included, Emitted, Quits;
      ghost var known := boundary.value;
      NothingBeyond(known, early);
      NothingHeard(listener);
      var cursor, turn := 0, 0;
      heard := listener[..0];
      while !disposed && cursor < |buffer.value|
        invariant cursor <= |early| && StoreIsCurrent() && boundary == old(boundary) && boundary == Some(known)
        invariant disposed == buffer.None? && (buffer.Some? ==> buffer.value == early)
        invariant delivered == Beyond(known, early[..cursor]) && late == [] && turn == |delivered|
        invariant heard == listener[..if turn < |listener| then turn else |listener|]
        invariant early == old(early) + Emitted(heard)
        invariant disposed <==> Quits(heard)
        invariant answers == old(answers)
        decreases if turn < |listener| then |listener| - turn else 0, |early| - cursor
      {
        var event := buffer.value[cursor];
        assert early[..cursor + 1] == early[..cursor] + [event];
        BeyondGrows(known, early[..cursor], event);
        cursor := cursor + 1;
        if !Included(boundary.value, event) {
          DeliverEvent(event);
          if turn < |listener| {
            HeardGrows(listener, turn);
            assert (early + listener[turn].emits)[..cursor] == early[..cursor];
            buffer := Some(buffer.value + listener[turn].emits);
            early := early + listener[turn].emits;
            heard := listener[..turn + 1];
            if listener[turn].quits {
              buffer, disposed := None, true;
            }
          }
          turn := turn + 1;
        }
      }
      BeyondPrefix(known, early, cursor);
      assert !disposed ==> early[..cursor] == early;
      assert Beyond(known, early) + late == Beyond(known, early);
      buffer := None;
    }

    /** `readSnapshot` succeeded: all four resources are committed, and their revisions are the
        boundary. The snapshot listener runs between this and the drain. */
    method ReadSnapshot(devices: Read, library: Read, transfers: Read, storage: Read)
      requires Valid() && answers == map[] && boundary.None? && !disposed
      requires devices.Read? && library.Read? && transfers.Read? && storage.Read?
      modifies this
      ensures Valid() && boundary == Some(Boundary(answers)) && buffer == old(buffer) && !disposed
      ensures answers == map[Devices := devices, Library := library, Transfers := transfers, Storage := storage]
      ensures early == old(early) && late == old(late)
      ensures store.Keys == old(store).Keys
      ensures forall n :: n in answers ==> n in store && ShowsAnswer(old(store)[n], store[n], answers[n])
      ensures forall n :: n in store && n !in answers ==> store[n] == old(store)[n]
    {
      hide ShowsAnswer, Valid, StoreIsCurrent;
      Commit(Devices, devices);
      Commit(Library, library);
      Commit(Transfers, transfers);
      Commit(Storage, storage);
      SetBoundary(map[Devices := devices.revision, Library := library.revision,
                      Transfers := transfers.revision, Storage := storage.revision]);
    }

    /** A failure that names no resource is fatal: everything is marked failed, and disposed. */
    method FailSnapshot(failure: Read)
      requires Valid() && answers == map[] && boundary.None? && !disposed && failure.Failure?
      modifies this
      ensures Valid() && disposed && delivered == []
      ensures answers == map[Devices := failure, Library := failure, Transfers := failure, Storage := failure]
      ensures store.Keys == old(store).Keys
      ensures forall n :: n in answers ==> n in store && ShowsAnswer(old(store)[n], store[n], failure)
      ensures forall n :: n in store && n !in answers ==> store[n] == old(store)[n]
    {
      hide ShowsAnswer, StoreIsCurrent;
      Commit(Devices, failure);
      Commit(Library, failure);
      Commit(Transfers, failure);
      Commit(Storage, failure);
      Dispose();
    }

    /** The last fallback read has been answered. */
    method FinishFallback()
      requires Valid() && boundary.None? && forall n :: IsBoot(n) ==> n in answers
      modifies this
      ensures Valid() && boundary == Some(Boundary(answers)) && buffer == old(buffer) && disposed == old(disposed)
      ensures answers == old(answers) && early == old(early) && late == old(late)
    {
      SetBoundary(Boundary(answers));
    }
  }

  // ---------------------------------------------------------------- what boot promises

  /** A resource as boot should leave it: no source has a newer revision, and what is shown is the
      state the reads left, or the last of the delivered events of that revision. */
  ghost predicate HoldsNewest(s: BackendSession, n: Name)
    requires n in s.store && n in s.initial
    reads s
  {
    && s.initial[n].revision <= s.store[n].revision
    && (n in s.answers && s.answers[n].Read? ==> s.answers[n].revision <= s.store[n].revision)
    && (forall e :: (e in s.early || e in s.late) && e.name == n ==> e.revision <= s.store[n].revision)
    && (s.store[n] == Base(s.initial[n], n, s.answers) || exists k :: LastAccepted(s.delivered, k, n, s.store[n]))
  }

  lemma LiveHoldsNewest(s: BackendSession, n: Name)
    requires s.Valid() && s.Live() && IsResource(n)
    ensures HoldsNewest(s, n)
  {
    var base := Base(s.initial[n], n, s.answers);
    BeyondMembers(s.boundary.value, s.early);
    HighestWins(base, s.delivered, n);
    assert s.initial[n].revision <= base.revision;
    assert n in s.answers && s.answers[n].Read? ==> s.answers[n].revision <= base.revision;
  }

  /** A read that failed is made good by any event that is not older than what was there. */
  lemma FailedReadCatchesUp(s: BackendSession, n: Name, e: Event)
    requires s.Valid() && s.Live() && n in s.answers && s.answers[n].Failure?
    requires (e in s.early || e in s.late) && e.name == n && s.initial[n].revision <= e.revision
    ensures s.store[n].error.None? && s.store[n].value.Some? && e.revision <= s.store[n].revision
    ensures exists k :: LastAccepted(s.delivered, k, n, s.store[n])
  {
    assert !Included(s.boundary.value, e);
    BeyondMembers(s.boundary.value, s.early);
    assert e in s.delivered;
    assert Base(s.initial[n], n, s.answers).revision == s.initial[n].revision;
    HighestWins(Base(s.initial[n], n, s.answers), s.delivered, n);
  }

  /** The successful read of the event's resource is not older. */
  ghost predicate IncludedInRead(answers: map<Name, Read>, e: Event) {
    e.name in answers && answers[e.name].Read? && e.revision <= answers[e.name].revision
  }

  /** The events in some growing order of positions. */
  ghost predicate Selects(events: seq<Event>, positions: seq<nat>, chosen: seq<Event>) {
    && |positions| == |chosen|
    && (forall k :: 0 <= k < |chosen| ==> positions[k] < |events| && events[positions[k]] == chosen[k])
    && forall j, k :: 0 <= j < k < |chosen| ==> positions[j] < positions[k]
  }

  lemma {:induction false} BeyondSelects(boundary: map<Name, nat>, events: seq<Event>) returns (positions: seq<nat>)
    ensures Selects(events, positions, Beyond(boundary, events))
  {
    positions := [];
    if events != [] {
      var before, last := events[..|events| - 1], events[|events| - 1];
      hide Included;
      positions := BeyondSelects(boundary, before);
      if !Included(boundary, last) {
        positions := positions + [|before|];
      }
    }
  }

  lemma SelectsFurther(early: seq<Event>, late: seq<Event>, positions: seq<nat>, chosen: seq<Event>)
    requires Selects(early, positions, chosen)
    ensures Selects(early + late, positions + seq(|late|, k requires 0 <= k < |late| => |early| + k), chosen + late)
  {
  }

  /** A live session has delivered events in the order of their arrival. */
  lemma DeliveredInOrder(s: BackendSession) returns (positions: seq<nat>)
    requires s.Valid() && s.Live()
    ensures Selects(s.early + s.late, positions, s.delivered)
  {
    var boundary, early, late := s.boundary.value, s.early, s.late;
    hide Selects;
    var chosen := BeyondSelects(boundary, early);
    SelectsFurther(early, late, chosen, Beyond(boundary, early));
    positions := chosen + seq(|late|, k requires 0 <= k < |late| => |early| + k);
  }

  /** Each event that no read includes has been delivered as often as it arrived, and no other early
      one. */
  lemma DeliveredExactlyWhatReadsLack(s: BackendSession, e: Event)
    requires s.Valid() && s.Live()
    ensures Occurrences(s.delivered, e)
         == (if IncludedInRead(s.answers, e) then 0 else Occurrences(s.early, e)) + Occurrences(s.late, e)
  {
    assert Included(s.boundary.value, e) <==> IncludedInRead(s.answers, e);
    BeyondCounts(s.boundary.value, s.early, e);
    OccurrencesAdd(Beyond(s.boundary.value, s.early), s.late, e);
  }

  predicate Publishes(published: map<int, Value>, revision: nat, value: Value) {
    revision in published && published[revision] == value
  }

  /** When a revision determines its value, boot ends with the value of the highest revision seen. */
  lemma LiveShowsHighestPublished(s: BackendSession, n: Name, published: map<int, Value>)
    requires s.Valid() && s.Live() && IsResource(n) && s.initial[n].revision == -1
    requires forall e :: (e in s.early || e in s.late) && e.name == n ==> Publishes(published, e.revision, e.value)
    requires n in s.answers && s.answers[n].Read? ==> Publishes(published, s.answers[n].revision, s.answers[n].value)
    ensures HoldsNewest(s, n)
    ensures s.store[n].revision >= 0 ==>
              s.store[n].revision in published && s.store[n].value == Some(published[s.store[n].revision])
  {
    LiveHoldsNewest(s, n);
    BeyondMembers(s.boundary.value, s.early);
    if k :| LastAccepted(s.delivered, k, n, s.store[n]) {
      assert s.delivered[k] in s.delivered;
    }
  }

  datatype Step =
    | Arrives(event: Event)
    | SnapshotRead(devices: Read, library: Read, transfers: Read, storage: Read)
    | SnapshotFailed(failure: Read)
    | FallbackAnswered(name: Name, answer: Read)
    | FallbackFinished
    | QueueDrained(listener: seq<Callback>)
    | Disposed

  /** Any interleaving of publications, answers and a disposal; steps that cannot happen are skipped. */
  method RunBoot(s: BackendSession, steps: seq<Step>)
    requires s.Valid()
    modifies s
    ensures s.Valid()
    ensures s.Live() ==> forall n :: n in s.store && n in s.initial ==> HoldsNewest(s, n)
  {
    for i := 0 to |steps|
      invariant s.Valid()
    {
      var step := steps[i];
      var reading := s.boundary.None? && !s.disposed;
      match step {
        case Arrives(event) =>
          s.Arrive(event);
        case SnapshotRead(devices, library, transfers, storage) =>
          if reading && s.answers == map[] && devices.Read? && library.Read? && transfers.Read? && storage.Read? {
            s.ReadSnapshot(devices, library, transfers, storage);
          }
        case SnapshotFailed(failure) =>
          if reading && s.answers == map[] && failure.Failure? {
            s.FailSnapshot(failure);
          }
        case FallbackAnswered(name, answer) =>
          if s.boundary.None? && IsBoot(name) && name !in s.answers {
            s.Commit(name, answer);
          }
        case FallbackFinished =>
          if s.boundary.None? && Devices in s.answers && Library in s.answers && Transfers in s.answers
             && Storage in s.answers {
            s.FinishFallback();
          }
        case QueueDrained(listener) =>
          if s.boundary.Some? && s.buffer.Some? {
            ghost var heard := s.Drain(listener);
          }
        case Disposed =>
          s.Dispose();
      }
    }
    if s.Live() {
      forall n | n in s.store && n in s.initial ensures HoldsNewest(s, n) {
        LiveHoldsNewest(s, n);
      }
    }
  }
}
