/** The runner behind every user-triggered backend call (src/runtime/operations.ts): one physical
    call per intent in flight, and only the newest intent of a scope may commit. */
module OperationRunner {
  import opened Prelude

  /** How far one started call is: waiting for its promise, past its commit callback, on its way
      into the `finally` block, or done. */
  datatype Status = Pending | Committed | Finishing | Settled

  datatype Run = Run(key: string, scope: string, sequence: nat, status: Status)

  datatype Tone = Success | Danger

  /** A toast, with the number of calls that had been started when it appeared. */
  datatype Toast = Toast(id: nat, tone: Tone, at: nat)

  predicate SameIntent(a: Run, b: Run) {
    a.scope == b.scope && a.key == b.key
  }

  /** No run of the same scope and key was started after run i. */
  predicate NewestOfIntent(runs: seq<Run>, i: int) {
    0 <= i < |runs| && forall j :: i < j < |runs| ==> !SameIntent(runs[i], runs[j])
  }

  predicate Unsettled(runs: seq<Run>, i: int) {
    0 <= i < |runs| && !runs[i].status.Settled?
  }

  function UnsettledCount(runs: seq<Run>, key: string): nat {
    if runs == [] then 0
    else
      var last := runs[|runs| - 1];
      UnsettledCount(runs[..|runs| - 1], key) + if last.key == key && !last.status.Settled? then 1 else 0
  }

  type Slots = map<string, map<string, nat>>

  function SlotOf(inFlight: Slots, scope: string, key: string): Option<nat> {
    if scope in inFlight && key in inFlight[scope] then Some(inFlight[scope][key]) else None
  }

  /** No intent of its scope was started after run i. */
  predicate LatestOfScope(runs: seq<Run>, i: int) {
    0 <= i < |runs| && forall j :: i < j < |runs| ==> runs[j].scope != runs[i].scope
  }

  /** Later runs of a scope have larger sequence numbers, and none is beyond the newest. */
  ghost predicate SequencesGrow(runs: seq<Run>, newest: map<string, nat>) {
    && (forall i :: 0 <= i < |runs| ==> runs[i].scope in newest && runs[i].sequence <= newest[runs[i].scope])
    && forall i, j :: 0 <= i < j < |runs| && runs[i].scope == runs[j].scope ==> runs[i].sequence < runs[j].sequence
  }

  /** The newest sequence number of a scope is that of its latest run. */
  ghost predicate NewestIsLatest(runs: seq<Run>, newest: map<string, nat>) {
    forall i :: LatestOfScope(runs, i) ==> runs[i].scope in newest && newest[runs[i].scope] == runs[i].sequence
  }

  ghost predicate NoEmptyScope(inFlight: Slots) {
    forall scope :: scope in inFlight ==> inFlight[scope] != map[]
  }

  /** Run i has the slot of its scope and key. */
  predicate HoldsSlot(runs: seq<Run>, inFlight: Slots, i: int) {
    0 <= i < |runs| && SlotOf(inFlight, runs[i].scope, runs[i].key) == Some(i)
  }

  /** The slots are exactly the unsettled runs that are the newest of their scope and key. */
  ghost predicate SlotsMatch(runs: seq<Run>, inFlight: Slots) {
    && (forall scope, key :: SlotOf(inFlight, scope, key).Some? ==>
          var i := SlotOf(inFlight, scope, key).value;
          i < |runs| && runs[i].scope == scope && runs[i].key == key)
    && (forall i :: 0 <= i < |runs| ==>
          (HoldsSlot(runs, inFlight, i) <==> Unsettled(runs, i) && NewestOfIntent(runs, i)))
  }

  ghost predicate BusyMatches(runs: seq<Run>, busy: map<string, nat>) {
    forall key ::
      (key in busy <==> UnsettledCount(runs, key) > 0) && (key in busy ==> busy[key] == UnsettledCount(runs, key))
  }

  /** Within a scope, commits follow the order in which the intents were started. */
  ghost predicate CommitsOrdered(runs: seq<Run>, commits: seq<nat>) {
    && (forall p :: 0 <= p < |commits| ==> commits[p] < |runs| && !runs[commits[p]].status.Pending?)
    && (forall i :: 0 <= i < |runs| && runs[i].status.Committed? ==> i in commits)
    && forall p, q :: 0 <= p < q < |commits| && runs[commits[p]].scope == runs[commits[q]].scope ==>
         runs[commits[p]].sequence < runs[commits[q]].sequence
  }

  /** Of the first n runs, i is the latest of its scope. */
  predicate LatestAmong(runs: seq<Run>, i: int, n: int) {
    0 <= i < n <= |runs| && forall j :: i < j < n ==> runs[j].scope != runs[i].scope
  }

  /** A call of the same scope was started while the commit callback of run i was running, which is
      between the c-th start and the n-th. */
  predicate SupersededByCallback(runs: seq<Run>, i: int, c: int, n: int) {
    0 <= i < |runs| && exists j :: c <= j < n && 0 <= j < |runs| && runs[j].scope == runs[i].scope
  }

  /** `committedAt` tells how many calls had been started when a call committed: it was the latest. */
  ghost predicate CommitsRemembered(runs: seq<Run>, commits: seq<nat>, committedAt: map<nat, nat>) {
    && (forall i :: i in commits <==> i in committedAt)
    && forall i :: i in committedAt ==> LatestAmong(runs, i, committedAt[i])
  }

  /** A toast belongs to a call that is on its way out: an error to the latest of its scope, a success
      to one that has committed. */
  ghost predicate ToastsEarned(runs: seq<Run>, committedAt: map<nat, nat>, toasts: seq<Toast>) {
    forall t :: t in toasts ==>
      && t.id < t.at <= |runs| && (runs[t.id].status.Finishing? || runs[t.id].status.Settled?)
      && (t.tone.Danger? ==> LatestAmong(runs, t.id, t.at))
      && (t.tone.Success? ==> t.id in committedAt && committedAt[t.id] <= t.at)
  }

  ghost predicate ToastedOnce(toasts: seq<Toast>) {
    forall p, q :: 0 <= p < q < |toasts| ==> toasts[p].id != toasts[q].id
  }

  ghost predicate JournalHolds(runs: seq<Run>, commits: seq<nat>, committedAt: map<nat, nat>, toasts: seq<Toast>) {
    CommitsRemembered(runs, commits, committedAt) && ToastsEarned(runs, committedAt, toasts) && ToastedOnce(toasts)
  }

  // ---------------------------------------------------------------- counting

  lemma {:induction false} CountChanges(runs: seq<Run>, i: nat, to: Run, key: string)
    requires i < |runs|
    ensures UnsettledCount(runs[i := to], key)
         == UnsettledCount(runs, key)
            - (if runs[i].key == key && !runs[i].status.Settled? then 1 else 0)
            + (if to.key == key && !to.status.Settled? then 1 else 0)
  {
    if i == |runs| - 1 {
      assert runs[i := to][..i] == runs[..i];
    } else {
      assert runs[i := to][..|runs| - 1] == runs[..|runs| - 1][i := to];
      CountChanges(runs[..|runs| - 1], i, to, key);
    }
  }

  lemma CountGrows(runs: seq<Run>, r: Run, key: string)
    ensures UnsettledCount(runs + [r], key)
         == UnsettledCount(runs, key) + if r.key == key && !r.status.Settled? then 1 else 0
  {
    assert (runs + [r])[..|runs|] == runs;
  }

  lemma {:induction false} NothingCounted(runs: seq<Run>, key: string)
    ensures UnsettledCount(runs, key) == 0 <==> forall i :: Unsettled(runs, i) ==> runs[i].key != key
  {
    if runs != [] {
      var before := runs[..|runs| - 1];
      NothingCounted(before, key);
      assert forall i :: 0 <= i < |before| ==> (Unsettled(runs, i) <==> Unsettled(before, i));
      assert Unsettled(runs, |before|) <==> !runs[|before|].status.Settled?;
    }
  }

  // ---------------------------------------------------------------- single steps

  function WithSlot(inFlight: Slots, scope: string, key: string, id: nat): (r: Slots)
    ensures NoEmptyScope(inFlight) ==> NoEmptyScope(r)
    ensures forall s, k :: SlotOf(r, s, k) == if s == scope && k == key then Some(id) else SlotOf(inFlight, s, k)
  {
    var slots := (if scope in inFlight then inFlight[scope] else map[])[key := id];
    assert key in slots;
    inFlight[scope := slots]
  }

  function WithoutSlot(inFlight: Slots, scope: string, key: string): (r: Slots)
    requires scope in inFlight
    ensures NoEmptyScope(inFlight) ==> NoEmptyScope(r)
    ensures forall s, k :: SlotOf(r, s, k) == if s == scope && k == key then None else SlotOf(inFlight, s, k)
  {
    var slots := inFlight[scope] - {key};
    assert forall k :: k in inFlight[scope] && k != key ==> k in slots;
    if slots == map[] then inFlight - {scope} else inFlight[scope := slots]
  }

  lemma NewestAfterStart(runs: seq<Run>, r: Run, i: nat)
    requires i < |runs|
    ensures NewestOfIntent(runs + [r], i) <==> NewestOfIntent(runs, i) && !SameIntent(runs[i], r)
  {
    var runs' := runs + [r];
    assert forall j :: i < j < |runs| ==> SameIntent(runs'[i], runs'[j]) == SameIntent(runs[i], runs[j]);
    assert SameIntent(runs'[i], runs'[|runs|]) == SameIntent(runs[i], r);
    if NewestOfIntent(runs', i) {
      forall j | i < j < |runs| ensures !SameIntent(runs[i], runs[j]) {
        assert !SameIntent(runs'[i], runs'[j]);
      }
    }
  }

  lemma NewestAfterStatus(runs: seq<Run>, i: nat, status: Status, k: nat)
    requires i < |runs|
    ensures NewestOfIntent(runs[i := runs[i].(status := status)], k) <==> NewestOfIntent(runs, k)
  {
    var runs' := runs[i := runs[i].(status := status)];
    if k < |runs| {
      assert forall j :: k < j < |runs| ==> SameIntent(runs'[k], runs'[j]) == SameIntent(runs[k], runs[j]);
    }
  }

  lemma SlotsWithNewRun(runs: seq<Run>, inFlight: Slots, r: Run)
    requires SlotsMatch(runs, inFlight) && !r.status.Settled?
    ensures SlotsMatch(runs + [r], WithSlot(inFlight, r.scope, r.key, |runs|))
  {
    hide NewestOfIntent, SlotOf, WithSlot;
    var runs', inFlight' := runs + [r], WithSlot(inFlight, r.scope, r.key, |runs|);
    LastIsNewest(runs');
    forall i | 0 <= i < |runs|
      ensures HoldsSlot(runs', inFlight', i) <==> Unsettled(runs', i) && NewestOfIntent(runs', i)
    {
      NewestAfterStart(runs, r, i);
      assert HoldsSlot(runs, inFlight, i) <==> Unsettled(runs, i) && NewestOfIntent(runs, i);
    }
  }

  lemma LastIsNewest(runs: seq<Run>)
    requires runs != []
    ensures NewestOfIntent(runs, |runs| - 1)
  {
  }

  /** A change of status that settles nothing leaves the slots right. */
  lemma SlotsWithStatus(runs: seq<Run>, inFlight: Slots, i: nat, status: Status)
    requires SlotsMatch(runs, inFlight) && Unsettled(runs, i) && !status.Settled?
    ensures SlotsMatch(runs[i := runs[i].(status := status)], inFlight)
  {
    hide NewestOfIntent, SlotOf;
    var runs' := runs[i := runs[i].(status := status)];
    forall k | 0 <= k < |runs|
      ensures HoldsSlot(runs', inFlight, k) <==> Unsettled(runs', k) && NewestOfIntent(runs', k)
    {
      NewestAfterStatus(runs, i, status, k);
      assert HoldsSlot(runs, inFlight, k) <==> Unsettled(runs, k) && NewestOfIntent(runs, k);
    }
  }

  /** What the `finally` block makes of the slots when run i settles. */
  function SlotsAfter(runs: seq<Run>, inFlight: Slots, i: nat): Slots
    requires i < |runs|
  {
    if HoldsSlot(runs, inFlight, i) then WithoutSlot(inFlight, runs[i].scope, runs[i].key) else inFlight
  }

  lemma SlotsWithSettled(runs: seq<Run>, inFlight: Slots, i: nat)
    requires SlotsMatch(runs, inFlight) && Unsettled(runs, i)
    ensures SlotsMatch(runs[i := runs[i].(status := Settled)], SlotsAfter(runs, inFlight, i))
  {
    var runs', inFlight' := runs[i := runs[i].(status := Settled)], SlotsAfter(runs, inFlight, i);
    hide NewestOfIntent, SlotOf, WithoutSlot;
    forall k | 0 <= k < |runs|
      ensures HoldsSlot(runs', inFlight', k) <==> Unsettled(runs', k) && NewestOfIntent(runs', k)
    {
      NewestAfterStatus(runs, i, Settled, k);
      assert HoldsSlot(runs, inFlight, k) <==> Unsettled(runs, k) && NewestOfIntent(runs, k);
      assert HoldsSlot(runs, inFlight, i) <==> Unsettled(runs, i) && NewestOfIntent(runs, i);
    }
  }

  function BusyMore(busy: map<string, nat>, key: string): map<string, nat> {
    busy[key := (if key in busy then busy[key] else 0) + 1]
  }

  function BusyLess(busy: map<string, nat>, key: string): map<string, nat> {
    if key !in busy then busy
    else if busy[key] > 1 then busy[key := busy[key] - 1]
    else busy - {key}
  }

  lemma BusyWithNewRun(runs: seq<Run>, busy: map<string, nat>, r: Run)
    requires BusyMatches(runs, busy) && !r.status.Settled?
    ensures BusyMatches(runs + [r], BusyMore(busy, r.key))
  {
    forall k ensures UnsettledCount(runs + [r], k) == UnsettledCount(runs, k) + if k == r.key then 1 else 0 {
      CountGrows(runs, r, k);
    }
    hide UnsettledCount;
  }

  lemma BusyWithStatus(runs: seq<Run>, busy: map<string, nat>, i: nat, status: Status)
    requires BusyMatches(runs, busy) && Unsettled(runs, i)
    ensures BusyMatches(runs[i := runs[i].(status := status)],
                        if status.Settled? then BusyLess(busy, runs[i].key) else busy)
  {
    var runs' := runs[i := runs[i].(status := status)];
    forall k
      ensures UnsettledCount(runs', k)
           == UnsettledCount(runs, k) - if k == runs[i].key && status.Settled? then 1 else 0
    {
      CountChanges(runs, i, runs[i].(status := status), k);
    }
    hide UnsettledCount;
  }

  lemma LogsWithNewRun(runs: seq<Run>, newest: map<string, nat>, commits: seq<nat>, key: string, scope: string)
    requires SequencesGrow(runs, newest) && CommitsOrdered(runs, commits)
    ensures var sequence := if scope in newest then newest[scope] + 1 else 1;
            var runs' := runs + [Run(key, scope, sequence, Pending)];
            SequencesGrow(runs', newest[scope := sequence]) && CommitsOrdered(runs', commits)
  {
  }

  lemma LogsWithStatus(runs: seq<Run>, newest: map<string, nat>, commits: seq<nat>, i: nat, status: Status)
    requires SequencesGrow(runs, newest) && CommitsOrdered(runs, commits)
    requires i < |runs| && (status.Finishing? || status.Settled?)
    ensures var runs' := runs[i := runs[i].(status := status)];
            SequencesGrow(runs', newest) && CommitsOrdered(runs', commits)
  {
  }

  lemma JournalWithNewRun(runs: seq<Run>, commits: seq<nat>, committedAt: map<nat, nat>, toasts: seq<Toast>, r: Run)
    requires JournalHolds(runs, commits, committedAt, toasts)
    ensures JournalHolds(runs + [r], commits, committedAt, toasts)
  {
    hide ToastedOnce;
    forall i, n | LatestAmong(runs, i, n) ensures LatestAmong(runs + [r], i, n) {
    }
    hide LatestAmong;
  }

  lemma JournalWithStatus(runs: seq<Run>, commits: seq<nat>, committedAt: map<nat, nat>, toasts: seq<Toast>, i: nat,
                          status: Status)
    requires JournalHolds(runs, commits, committedAt, toasts) && i < |runs|
    requires status.Finishing? || status.Settled? || Unfinished(runs, i)
    ensures JournalHolds(runs[i := runs[i].(status := status)], commits, committedAt, toasts)
  {
    hide ToastedOnce;
    var runs' := runs[i := runs[i].(status := status)];
    forall k, n | LatestAmong(runs, k, n) ensures LatestAmong(runs', k, n) {
    }
    hide LatestAmong;
  }

  predicate Unfinished(runs: seq<Run>, i: int) {
    0 <= i < |runs| && (runs[i].status.Pending? || runs[i].status.Committed?)
  }

  lemma JournalWithCommit(runs: seq<Run>, commits: seq<nat>, committedAt: map<nat, nat>, toasts: seq<Toast>, i: nat)
    requires JournalHolds(runs, commits, committedAt, toasts) && i !in commits && LatestOfScope(runs, i)
    ensures JournalHolds(runs, commits + [i], committedAt[i := |runs|], toasts)
  {
    hide ToastedOnce;
    assert LatestAmong(runs, i, |runs|);
    hide LatestAmong;
  }

  /** An unfinished call has not toasted yet. */
  lemma JournalWithToast(runs: seq<Run>, commits: seq<nat>, committedAt: map<nat, nat>, toasts: seq<Toast>, i: nat,
                         tone: Tone)
    requires JournalHolds(runs, commits, committedAt, toasts) && Unfinished(runs, i)
    requires if tone.Danger? then LatestOfScope(runs, i) else i in commits
    ensures JournalHolds(runs[i := runs[i].(status := Finishing)], commits, committedAt,
                         toasts + [Toast(i, tone, |runs|)])
  {
    JournalWithStatus(runs, commits, committedAt, toasts, i, Finishing);
    var runs' := runs[i := runs[i].(status := Finishing)];
    assert tone.Danger? ==> LatestAmong(runs', i, |runs'|);
    forall t | t in toasts ensures t.id != i {
    }
    assert forall t :: t in toasts + [Toast(i, tone, |runs|)] <==> t in toasts || t == Toast(i, tone, |runs|);
    assert i in committedAt ==> committedAt[i] <= |runs|;
    hide LatestAmong;
  }

  lemma UnfinishedHasNoToast(runs: seq<Run>, commits: seq<nat>, committedAt: map<nat, nat>, toasts: seq<Toast>, i: nat)
    requires JournalHolds(runs, commits, committedAt, toasts) && CommitsOrdered(runs, commits) && Unfinished(runs, i)
    ensures forall t :: t in toasts ==> t.id != i
    ensures runs[i].status.Committed? ==> i in commits && i in committedAt
  {
    hide LatestAmong, ToastedOnce;
  }

  lemma JournalBounds(runs: seq<Run>, commits: seq<nat>, committedAt: map<nat, nat>, toasts: seq<Toast>, i: nat)
    requires JournalHolds(runs, commits, committedAt, toasts) && i in committedAt
    ensures committedAt[i] <= |runs|
  {
    hide ToastsEarned, ToastedOnce;
  }

  /** A call that committed is still the latest of its scope after n starts unless one of the starts
      since its commit was of that scope. */
  lemma CommittedWasLatest(runs: seq<Run>, commits: seq<nat>, committedAt: map<nat, nat>, toasts: seq<Toast>, i: nat,
                           n: nat)
    requires JournalHolds(runs, commits, committedAt, toasts) && i in committedAt && committedAt[i] <= n <= |runs|
    ensures i < |runs| && (LatestAmong(runs, i, n) <==> !SupersededByCallback(runs, i, committedAt[i], n))
  {
    hide ToastsEarned, ToastedOnce;
    assert LatestAmong(runs, i, committedAt[i]);
  }

  lemma SameScopes(before: seq<Run>, after: seq<Run>, i: nat, c: nat)
    requires |before| == |after| && i < |before| && forall j :: 0 <= j < |before| ==> before[j].scope == after[j].scope
    ensures LatestAmong(before, i, |before|) <==> LatestOfScope(after, i)
    ensures SupersededByCallback(before, i, c, |before|) <==> SupersededByCallback(after, i, c, |after|)
  {
  }

  lemma NoSlots()
    ensures SlotsMatch([], map[]) && NoEmptyScope(map[])
  {
  }

  lemma NothingBusy()
    ensures BusyMatches([], map[])
  {
  }

  lemma NothingStarted()
    ensures SequencesGrow([], map[]) && NewestIsLatest([], map[])
  {
  }

  lemma NothingLogged()
    ensures CommitsOrdered([], []) && JournalHolds([], [], map[], [])
  {
  }

  /** The stored slot is the only unsettled run of its intent that can still be current. */
  lemma SlotsAreUnsettled(runs: seq<Run>, inFlight: Slots, scope: string, key: string)
    requires SlotsMatch(runs, inFlight)
    ensures var slot := SlotOf(inFlight, scope, key);
            slot.Some? ==> Unsettled(runs, slot.value) && NewestOfIntent(runs, slot.value)
                           && runs[slot.value].scope == scope && runs[slot.value].key == key
  {
    var slot := SlotOf(inFlight, scope, key);
    if slot.Some? {
      assert HoldsSlot(runs, inFlight, slot.value);
    }
  }

  lemma LatestWithNewRun(runs: seq<Run>, newest: map<string, nat>, r: Run)
    requires NewestIsLatest(runs, newest)
    ensures NewestIsLatest(runs + [r], newest[r.scope := r.sequence])
  {
    var runs' := runs + [r];
    forall i | LatestOfScope(runs', i) && i < |runs| ensures LatestOfScope(runs, i) && runs[i].scope != r.scope {
      assert runs'[|runs|].scope != runs'[i].scope;
      assert forall j :: 0 <= j < |runs| ==> runs'[j] == runs[j];
    }
  }

  lemma LatestWithStatus(runs: seq<Run>, newest: map<string, nat>, i: nat, status: Status)
    requires NewestIsLatest(runs, newest) && i < |runs|
    ensures NewestIsLatest(runs[i := runs[i].(status := status)], newest)
  {
    var runs' := runs[i := runs[i].(status := status)];
    forall k | LatestOfScope(runs', k) ensures LatestOfScope(runs, k) {
      assert forall j :: 0 <= j < |runs| ==> runs'[j].scope == runs[j].scope;
    }
  }

  /** Holding the newest sequence number means exactly that no newer intent of the scope has started. */
  lemma CurrentIffLatest(runs: seq<Run>, newest: map<string, nat>, i: nat)
    requires SequencesGrow(runs, newest) && NewestIsLatest(runs, newest) && i < |runs|
    ensures runs[i].scope in newest && (newest[runs[i].scope] == runs[i].sequence <==> LatestOfScope(runs, i))
  {
    if j :| i < j < |runs| && runs[j].scope == runs[i].scope {
      assert runs[i].sequence < runs[j].sequence <= newest[runs[i].scope];
    }
  }

  /** An unsettled run that is still current has the slot of its intent. */
  lemma CurrentHoldsSlot(runs: seq<Run>, newest: map<string, nat>, inFlight: Slots, i: nat)
    requires SequencesGrow(runs, newest) && SlotsMatch(runs, inFlight) && Unsettled(runs, i)
    requires newest[runs[i].scope] == runs[i].sequence
    ensures SlotOf(inFlight, runs[i].scope, runs[i].key) == Some(i)
  {
    forall j | i < j < |runs| ensures !SameIntent(runs[i], runs[j]) {
      assert runs[j].scope == runs[i].scope ==> runs[j].sequence <= newest[runs[i].scope];
    }
    assert HoldsSlot(runs, inFlight, i);
  }

  // ---------------------------------------------------------------- the runner

  class Runner {
    /** scope -> key -> the newest physical request for that exact intent. */
    var inFlight: Slots
    var busyCountByKey: map<string, nat>
    /** scope -> sequence of the newest intent started in it. */
    var newestByScope: map<string, nat>
    /** One per call that was started; the index is its identity. */
    var runs: seq<Run>
    var commits: seq<nat>
    var toasts: seq<Toast>
    ghost var committedAt: map<nat, nat>

    ghost predicate Valid()
      reads this
    {
      && SequencesGrow(runs, newestByScope) && NewestIsLatest(runs, newestByScope)
      && NoEmptyScope(inFlight) && SlotsMatch(runs, inFlight)
      && BusyMatches(runs, busyCountByKey)
      && CommitsOrdered(runs, commits)
      && JournalHolds(runs, commits, committedAt, toasts)
    }

    constructor ()
      ensures Valid() && runs == [] && commits == [] && toasts == [] && committedAt == map[]
    {
      hide SlotsMatch, BusyMatches, SequencesGrow, NewestIsLatest, CommitsOrdered, JournalHolds, NoEmptyScope;
      NoSlots();
      NothingBusy();
      NothingStarted();
      NothingLogged();
      inFlight, busyCountByKey, newestByScope, runs, commits, toasts := map[], map[], map[], [], [], [];
      committedAt := map[];
    }

    /** `token.isCurrent()`. */
    predicate IsCurrent(i: int)
      reads this`runs, this`newestByScope
    {
      0 <= i < |runs| && runs[i].scope in newestByScope && newestByScope[runs[i].scope] == runs[i].sequence
    }

    method StartBusy(key: string)
      modifies this`busyCountByKey
      ensures busyCountByKey == BusyMore(old(busyCountByKey), key)
    {
      var count := if key in busyCountByKey then busyCountByKey[key] else 0;
      busyCountByKey := busyCountByKey[key := count + 1];
    }

    method FinishBusy(key: string)
      modifies this`busyCountByKey
      ensures busyCountByKey == BusyLess(old(busyCountByKey), key)
    {
      if key !in busyCountByKey {
        return;
      }
      var count := busyCountByKey[key];
      if count > 1 {
        busyCountByKey := busyCountByKey[key := count - 1];
        return;
      }
      busyCountByKey := busyCountByKey - {key};
    }

    /** Starts a call, or joins the one in flight for the same intent while that is current. */
    method Start(key: string, scope: string) returns (id: nat)
      requires Valid()
      modifies this
      ensures Valid() && commits == old(commits) && toasts == old(toasts) && committedAt == old(committedAt)
      ensures LatestOfScope(runs, id) && Unsettled(runs, id) && runs[id].key == key && runs[id].scope == scope
      ensures if id < |old(runs)| then runs == old(runs)
              else |runs| == id + 1 && runs[..id] == old(runs) && runs[id].status.Pending?
      ensures id == |old(runs)| <==>
              forall i :: Unsettled(old(runs), i) && LatestOfScope(old(runs), i) && old(runs)[i].scope == scope ==>
                old(runs)[i].key != key
    {
      hide SlotsMatch, BusyMatches, SequencesGrow, NewestIsLatest, CommitsOrdered, JournalHolds, NoEmptyScope;
      SlotsAreUnsettled(runs, inFlight, scope, key);
      var existing := SlotOf(inFlight, scope, key);
      if existing.Some? {
        CurrentIffLatest(runs, newestByScope, existing.value);
      }
      if existing.Some? && IsCurrent(existing.value) {
        return existing.value;
      }
      forall i: nat | Unsettled(runs, i) && LatestOfScope(runs, i) && runs[i].scope == scope
        ensures runs[i].key != key
      {
        CurrentIffLatest(runs, newestByScope, i);
        CurrentHoldsSlot(runs, newestByScope, inFlight, i);
      }
      var sequence := if scope in newestByScope then newestByScope[scope] + 1 else 1;
      id := |runs|;
      var r := Run(key, scope, sequence, Pending);
      SlotsWithNewRun(runs, inFlight, r);
      BusyWithNewRun(runs, busyCountByKey, r);
      LatestWithNewRun(runs, newestByScope, r);
      LogsWithNewRun(runs, newestByScope, commits, key, scope);
      JournalWithNewRun(runs, commits, committedAt, toasts, r);
      newestByScope := newestByScope[scope := sequence];
      runs := runs + [r];
      inFlight := WithSlot(inFlight, scope, key, id);
      StartBusy(key);
    }

    method Finish(id: nat)
      requires Valid() && Unsettled(runs, id)
      modifies this`runs
      ensures Valid() && runs == old(runs)[id := old(runs)[id].(status := Finishing)]
    {
      hide SlotsMatch, BusyMatches, SequencesGrow, NewestIsLatest, CommitsOrdered, JournalHolds, NoEmptyScope;
      SlotsWithStatus(runs, inFlight, id, Finishing);
      BusyWithStatus(runs, busyCountByKey, id, Finishing);
      LatestWithStatus(runs, newestByScope, id, Finishing);
      LogsWithStatus(runs, newestByScope, commits, id, Finishing);
      JournalWithStatus(runs, commits, committedAt, toasts, id, Finishing);
      runs := runs[id := runs[id].(status := Finishing)];
    }

    /** The promise was fulfilled: commit only while no newer intent of the scope has started. */
    method Resolve(id: nat) returns (superseded: bool)
      requires Valid() && id < |runs| && runs[id].status.Pending?
      modifies this`runs, this`commits, this`committedAt
      ensures Valid() && superseded == !LatestOfScope(old(runs), id)
      ensures commits == if superseded then old(commits) else old(commits) + [id]
      ensures committedAt == if superseded then old(committedAt) else old(committedAt)[id := |runs|]
      ensures runs == old(runs)[id := old(runs)[id].(status := if superseded then Finishing else Committed)]
    {
      hide SlotsMatch, BusyMatches, SequencesGrow, NewestIsLatest, CommitsOrdered, JournalHolds, NoEmptyScope;
      CurrentIffLatest(runs, newestByScope, id);
      superseded := !IsCurrent(id);
      if superseded {
        Finish(id);
      } else {
        SlotsWithStatus(runs, inFlight, id, Committed);
        BusyWithStatus(runs, busyCountByKey, id, Committed);
        LatestWithStatus(runs, newestByScope, id, Committed);
        CommitKeepsOrder(runs, newestByScope, commits, id);
        JournalWithCommit(runs, commits, committedAt, toasts, id);
        JournalWithStatus(runs, commits + [id], committedAt[id := |runs|], toasts, id, Committed);
        committedAt := committedAt[id := |runs|];
        runs := runs[id := runs[id].(status := Committed)];
        commits := commits + [id];
      }
    }

    method Report(id: nat, tone: Tone)
      requires Valid() && Unfinished(runs, id)
      requires if tone.Danger? then LatestOfScope(runs, id) else runs[id].status.Committed?
      modifies this`runs, this`toasts
      ensures Valid() && runs == old(runs)[id := old(runs)[id].(status := Finishing)]
      ensures toasts == old(toasts) + [Toast(id, tone, |runs|)]
      ensures forall t :: t in old(toasts) ==> t.id != id
    {
      hide SlotsMatch, BusyMatches, SequencesGrow, NewestIsLatest, CommitsOrdered, JournalHolds, NoEmptyScope;
      UnfinishedHasNoToast(runs, commits, committedAt, toasts, id);
      SlotsWithStatus(runs, inFlight, id, Finishing);
      BusyWithStatus(runs, busyCountByKey, id, Finishing);
      LatestWithStatus(runs, newestByScope, id, Finishing);
      LogsWithStatus(runs, newestByScope, commits, id, Finishing);
      JournalWithToast(runs, commits, committedAt, toasts, id, tone);
      toasts := toasts + [Toast(id, tone, |runs|)];
      runs := runs[id := runs[id].(status := Finishing)];
    }

    /** The commit callback returned; it may have started newer intents by now. */
    method Announce(id: nat, silent: bool)
      requires Valid() && id < |runs| && runs[id].status.Committed?
      modifies this`runs, this`toasts
      ensures Valid() && runs == old(runs)[id := old(runs)[id].(status := Finishing)]
      ensures toasts == if silent then old(toasts) else old(toasts) + [Toast(id, Success, |runs|)]
      ensures forall t :: t in old(toasts) ==> t.id != id
      ensures id in committedAt
      ensures LatestOfScope(runs, id) <==> !SupersededByCallback(runs, id, committedAt[id], |runs|)
    {
      hide SlotsMatch, BusyMatches, SequencesGrow, NewestIsLatest, CommitsOrdered, JournalHolds, NoEmptyScope;
      UnfinishedHasNoToast(runs, commits, committedAt, toasts, id);
      JournalBounds(runs, commits, committedAt, toasts, id);
      CommittedWasLatest(runs, commits, committedAt, toasts, id, |runs|);
      ghost var before := runs;
      if silent {
        Finish(id);
      } else {
        Report(id, Success);
      }
      SameScopes(before, runs, id, committedAt[id]);
    }

    /** The promise was rejected, or a callback threw: report it only while still current. */
    method Catch(id: nat, silent: bool)
      requires Valid() && Unfinished(runs, id)
      modifies this`runs, this`toasts
      ensures Valid() && runs == old(runs)[id := old(runs)[id].(status := Finishing)]
      ensures toasts ==
              if LatestOfScope(old(runs), id) && !silent then old(toasts) + [Toast(id, Danger, |runs|)] else old(toasts)
      ensures forall t :: t in old(toasts) ==> t.id != id
    {
      hide SlotsMatch, BusyMatches, SequencesGrow, NewestIsLatest, CommitsOrdered, JournalHolds, NoEmptyScope;
      UnfinishedHasNoToast(runs, commits, committedAt, toasts, id);
      CurrentIffLatest(runs, newestByScope, id);
      if IsCurrent(id) && !silent {
        Report(id, Danger);
      } else {
        Finish(id);
      }
    }

    /** The `finally` block: drops this run's own slot, never a newer one. */
    method Cleanup(id: nat)
      requires Valid() && id < |runs| && runs[id].status.Finishing?
      modifies this`inFlight, this`runs, this`busyCountByKey
      ensures Valid() && runs == old(runs)[id := old(runs)[id].(status := Settled)]
    {
      hide SlotsMatch, BusyMatches, SequencesGrow, NewestIsLatest, CommitsOrdered, JournalHolds, NoEmptyScope;
      hide WithoutSlot;
      SlotsWithSettled(runs, inFlight, id);
      BusyWithStatus(runs, busyCountByKey, id, Settled);
      LatestWithStatus(runs, newestByScope, id, Settled);
      LogsWithStatus(runs, newestByScope, commits, id, Settled);
      JournalWithStatus(runs, commits, committedAt, toasts, id, Settled);
      var run := runs[id];
      if run.scope in inFlight && SlotOf(inFlight, run.scope, run.key) == Some(id) {
        inFlight := WithoutSlot(inFlight, run.scope, run.key);
      }
      runs := runs[id := run.(status := Settled)];
      FinishBusy(run.key);
    }
  }

  lemma CommitKeepsOrder(runs: seq<Run>, newest: map<string, nat>, commits: seq<nat>, id: nat)
    requires SequencesGrow(runs, newest) && CommitsOrdered(runs, commits)
    requires id < |runs| && runs[id].status.Pending? && newest[runs[id].scope] == runs[id].sequence
    ensures SequencesGrow(runs[id := runs[id].(status := Committed)], newest)
    ensures CommitsOrdered(runs[id := runs[id].(status := Committed)], commits + [id]) && id !in commits
  {
    forall p | 0 <= p < |commits| && runs[commits[p]].scope == runs[id].scope
      ensures runs[commits[p]].sequence < runs[id].sequence
    {
      var earlier := commits[p];
      assert earlier < id || id < earlier;
    }
  }

  // ---------------------------------------------------------------- what the runner promises

  /** A key is busy exactly while a call with it has not settled. */
  lemma BusyIffUnsettled(r: Runner, key: string)
    requires r.Valid()
    ensures key in r.busyCountByKey <==> exists i :: Unsettled(r.runs, i) && r.runs[i].key == key
  {
    NothingCounted(r.runs, key);
  }

  /** With every call settled nothing is left behind. */
  lemma QuietRunnerIsEmpty(r: Runner)
    requires r.Valid() && forall i :: !Unsettled(r.runs, i)
    ensures r.inFlight == map[] && r.busyCountByKey == map[]
  {
    forall scope | scope in r.inFlight ensures false {
      var key :| key in r.inFlight[scope];
      SlotsAreUnsettled(r.runs, r.inFlight, scope, key);
    }
    forall key | key in r.busyCountByKey ensures false {
      BusyIffUnsettled(r, key);
    }
  }

  /** Two calls of one scope commit in the order in which they were started. */
  lemma CommitsFollowIntents(r: Runner, p: nat, q: nat)
    requires r.Valid() && p < q < |r.commits| && r.runs[r.commits[p]].scope == r.runs[r.commits[q]].scope
    ensures r.commits[p] < r.commits[q]
  {
    hide SlotsMatch, BusyMatches, NewestIsLatest, JournalHolds, NoEmptyScope;
    var first, second := r.commits[p], r.commits[q];
    assert r.runs[first].sequence < r.runs[second].sequence;
    assert first < second || second <= first;
  }

  /** Every toast of every run comes from the call that was the latest of its scope when it
      appeared, except a success whose own commit callback had started a newer call of the scope. */
  lemma ToastsComeFromLatest(r: Runner, t: Toast)
    requires r.Valid() && t in r.toasts
    ensures t.id < t.at <= |r.runs|
    ensures LatestAmong(r.runs, t.id, t.at) <==>
            || t.tone.Danger?
            || (t.id in r.committedAt && !SupersededByCallback(r.runs, t.id, r.committedAt[t.id], t.at))
  {
    hide SlotsMatch, BusyMatches, SequencesGrow, NewestIsLatest, CommitsOrdered, NoEmptyScope;
    if t.tone.Success? {
      CommittedWasLatest(r.runs, r.commits, r.committedAt, r.toasts, t.id, t.at);
    }
  }

  /** No call is toasted twice. */
  lemma ToastedAtMostOnce(r: Runner, p: nat, q: nat)
    requires r.Valid() && p < q < |r.toasts|
    ensures r.toasts[p].id != r.toasts[q].id
  {
    hide SlotsMatch, BusyMatches, SequencesGrow, NewestIsLatest, CommitsOrdered, NoEmptyScope;
  }

  /** The exception: the commit callback of a call starts another of its scope, and the success
      toast of the first comes from a call that is no longer the latest. */
  method CallbackSupersedesItself() returns (r: Runner)
    ensures fresh(r) && r.Valid() && |r.runs| == 2
    ensures r.toasts == [Toast(0, Success, 2)] && !LatestAmong(r.runs, 0, 2)
    ensures r.committedAt == map[0 := 1] && SupersededByCallback(r.runs, 0, 1, 2)
  {
    hide SlotsMatch, BusyMatches, SequencesGrow, NewestIsLatest, CommitsOrdered, JournalHolds, NoEmptyScope;
    r := new Runner();
    var first := r.Start("k", "s");
    var superseded := r.Resolve(first);
    var second := r.Start("j", "s");
    r.Announce(first, false);
    assert second == 1 && r.runs[second].scope == "s" == r.runs[first].scope;
  }

  datatype Step =
    | Started(key: string, scope: string)
    | Fulfilled(id: nat)
    | Returned(id: nat, silent: bool)
    | Threw(id: nat, silent: bool)
    | Finally(id: nat)

  /** Any interleaving of starts, settlements and callbacks; steps that cannot happen are skipped. */
  method RunCalls(steps: seq<Step>) returns (r: Runner)
    ensures fresh(r) && r.Valid()
  {
    r := new Runner();
    for i := 0 to |steps|
      invariant fresh(r) && r.Valid()
    {
      match steps[i] {
        case Started(key, scope) =>
          var id := r.Start(key, scope);
        case Fulfilled(id) =>
          if id < |r.runs| && r.runs[id].status.Pending? {
            var superseded := r.Resolve(id);
          }
        case Returned(id, silent) =>
          if id < |r.runs| && r.runs[id].status.Committed? {
            r.Announce(id, silent);
          }
        case Threw(id, silent) =>
          if Unfinished(r.runs, id) {
            r.Catch(id, silent);
          }
        case Finally(id) =>
          if id < |r.runs| && r.runs[id].status.Finishing? {
            r.Cleanup(id);
          }
      }
    }
  }
}
