/** The bounded transfer scheduler (src-tauri/src/sim.rs): at most three transfers run, the others
    wait in the list of rows, which grows at its front. */
module Scheduler {
  import opened Prelude

  const MAX_CONCURRENT_TRANSFERS := 3

  datatype TransferState = Queued | Preparing | Running | Succeeded | Failed
  {
    predicate Active() {
      Preparing? || Running?
    }
  }

  datatype Row = Row(key: string, state: TransferState, hasError: bool, retryable: bool)

  datatype Kind = Busy | Waiting

  predicate Is(r: Row, kind: Kind) {
    if kind == Busy then r.state.Active() else r.state.Queued?
  }

  function Count(rows: seq<Row>, kind: Kind): nat {
    if rows == [] then 0 else Count(rows[..|rows| - 1], kind) + if Is(rows[|rows| - 1], kind) then 1 else 0
  }

  function ActiveCount(rows: seq<Row>): nat {
    Count(rows, Busy)
  }

  function QueuedCount(rows: seq<Row>): nat {
    Count(rows, Waiting)
  }

  lemma {:induction false} CountChanges(rows: seq<Row>, kind: Kind, i: nat, r: Row)
    requires i < |rows|
    ensures Count(rows[i := r], kind)
         == Count(rows, kind) - (if Is(rows[i], kind) then 1 else 0) + if Is(r, kind) then 1 else 0
  {
    if i == |rows| - 1 {
      assert rows[i := r][..i] == rows[..i];
    } else {
      assert rows[i := r][..|rows| - 1] == rows[..|rows| - 1][i := r];
      CountChanges(rows[..|rows| - 1], kind, i, r);
    }
  }

  lemma {:induction false} CountInFront(rows: seq<Row>, kind: Kind, r: Row)
    ensures Count([r] + rows, kind) == Count(rows, kind) + if Is(r, kind) then 1 else 0
  {
    if rows == [] {
      assert [r] + rows == [r] && [r][..0] == [];
    } else {
      assert ([r] + rows)[..|rows|] == [r] + rows[..|rows| - 1];
      CountInFront(rows[..|rows| - 1], kind, r);
    }
  }

  /** The positions of rows that are being prepared or run, and of those that wait. */
  function Active(rows: seq<Row>): set<int> {
    set i | 0 <= i < |rows| && (rows[i].state.Preparing? || rows[i].state.Running?)
  }

  function Queue(rows: seq<Row>): set<int> {
    set i | 0 <= i < |rows| && rows[i].state.Queued?
  }

  lemma {:induction false} ActiveAreCounted(rows: seq<Row>)
    ensures ActiveCount(rows) == |Active(rows)|
  {
    if rows != [] {
      var before, n := rows[..|rows| - 1], |rows| - 1;
      ActiveAreCounted(before);
      assert n !in Active(before);
      assert Active(rows) == Active(before) + if rows[n].state.Preparing? || rows[n].state.Running? then {n} else {};
    }
  }

  lemma {:induction false} QueueIsCounted(rows: seq<Row>)
    ensures QueuedCount(rows) == |Queue(rows)|
  {
    if rows != [] {
      var before, n := rows[..|rows| - 1], |rows| - 1;
      QueueIsCounted(before);
      assert n !in Queue(before);
      assert Queue(rows) == Queue(before) + if rows[n].state.Queued? then {n} else {};
    }
  }

  lemma CountsAreCardinalities(rows: seq<Row>)
    ensures ActiveCount(rows) == |Active(rows)| && QueuedCount(rows) == |Queue(rows)|
  {
    ActiveAreCounted(rows);
    QueueIsCounted(rows);
  }

  /** The last queued row of the list, which is the one inserted first. */
  function LastQueued(rows: seq<Row>): (i: Option<nat>)
    ensures i.None? ==> QueuedCount(rows) == 0 && forall k :: 0 <= k < |rows| ==> !rows[k].state.Queued?
    ensures i.Some? ==> QueuedCount(rows) > 0 && i.value < |rows| && rows[i.value].state.Queued?
    ensures i.Some? ==> forall k :: i.value < k < |rows| ==> !rows[k].state.Queued?
  {
    if rows == [] then None
    else if rows[|rows| - 1].state.Queued? then Some(|rows| - 1)
    else LastQueued(rows[..|rows| - 1])
  }

  function Promoted(rows: seq<Row>, i: nat): seq<Row>
    requires i < |rows|
  {
    rows[i := rows[i].(state := Preparing)]
  }

  lemma PromotionCounts(rows: seq<Row>, i: nat)
    requires i < |rows| && rows[i].state.Queued?
    ensures ActiveCount(Promoted(rows, i)) == ActiveCount(rows) + 1
    ensures QueuedCount(Promoted(rows, i)) == QueuedCount(rows) - 1
  {
    CountChanges(rows, Busy, i, rows[i].(state := Preparing));
    CountChanges(rows, Waiting, i, rows[i].(state := Preparing));
  }

  /** What an undisturbed run of the queue loop makes of the rows. */
  function Drained(rows: seq<Row>): seq<Row>
    decreases QueuedCount(rows)
  {
    var i := LastQueued(rows);
    if ActiveCount(rows) >= MAX_CONCURRENT_TRANSFERS || i.None? then rows
    else
      PromotionCounts(rows, i.value);
      Drained(Promoted(rows, i.value))
  }

  /** The loop ends with the cap reached or nothing queued, and what it promoted was inserted before
      everything that still waits. */
  lemma {:induction false} DrainedFillsOldestFirst(rows: seq<Row>)
    requires ActiveCount(rows) <= MAX_CONCURRENT_TRANSFERS
    ensures var out := Drained(rows);
            && |out| == |rows|
            && (ActiveCount(out) == MAX_CONCURRENT_TRANSFERS || QueuedCount(out) == 0)
            && ActiveCount(out) <= MAX_CONCURRENT_TRANSFERS
            && ActiveCount(out) + QueuedCount(out) == ActiveCount(rows) + QueuedCount(rows)
            && (forall k :: 0 <= k < |rows| ==> out[k] == rows[k] || WasPromoted(rows, out, k))
            && (forall k, w :: WasPromoted(rows, out, k) && 0 <= w < |rows| && out[w].state.Queued? ==> w < k)
    decreases QueuedCount(rows)
  {
    var i := LastQueued(rows);
    if ActiveCount(rows) < MAX_CONCURRENT_TRANSFERS && i.Some? {
      PromotionCounts(rows, i.value);
      DrainedFillsOldestFirst(Promoted(rows, i.value));
      hide Count;
      var mid, out := Promoted(rows, i.value), Drained(rows);
      forall k | 0 <= k < |rows| ensures out[k] == rows[k] || WasPromoted(rows, out, k) {
        assert out[k] == mid[k] || WasPromoted(mid, out, k);
      }
      forall k, w | WasPromoted(rows, out, k) && 0 <= w < |rows| && out[w].state.Queued?
        ensures w < k
      {
        assert k != i.value ==> WasPromoted(mid, out, k);
        assert out[w] == mid[w];
      }
    }
  }

  predicate WasPromoted(rows: seq<Row>, out: seq<Row>, k: int) {
    0 <= k < |rows| == |out| && rows[k].state.Queued? && out[k] == rows[k].(state := Preparing)
  }

  // ---------------------------------------------------------------- the scheduler

  ghost predicate DistinctRows(rows: seq<Row>) {
    forall i, j :: 0 <= i < j < |rows| ==> rows[i].key != rows[j].key
  }

  function KeysOf(rows: seq<Row>): set<string> {
    set r | r in rows :: r.key
  }

  lemma KeysInFront(rows: seq<Row>, row: Row)
    ensures KeysOf([row] + rows) == KeysOf(rows) + {row.key}
  {
    assert forall r :: r in [row] + rows <==> r == row || r in rows;
  }

  lemma KeysAfterChange(rows: seq<Row>, i: nat, row: Row)
    requires i < |rows| && row.key == rows[i].key
    ensures KeysOf(rows[i := row]) == KeysOf(rows)
  {
    var rows' := rows[i := row];
    forall k | 0 <= k < |rows| ensures rows'[k].key in KeysOf(rows) && rows[k].key in KeysOf(rows') {
      assert rows[k] in rows && rows'[k] in rows' && rows[k].key == rows'[k].key;
    }
  }

  /** Exactly the active rows have a running task. */
  ghost predicate TasksMatch(rows: seq<Row>, tasks: set<string>) {
    && (forall i :: 0 <= i < |rows| ==> (rows[i].key in tasks <==> rows[i].state.Active()))
    && tasks <= KeysOf(rows)
  }

  /** A transfer keeps its context until it succeeds, and can be retried exactly when it failed. */
  ghost predicate ContextsMatch(rows: seq<Row>, contexts: set<string>) {
    && (forall i :: 0 <= i < |rows| ==> (rows[i].key in contexts <==> !rows[i].state.Succeeded?))
    && contexts <= KeysOf(rows)
  }

  class Scheduler {
    /** Newest first. */
    var rows: seq<Row>
    var contexts: set<string>
    /** The transfers whose task has been spawned and has not finished. */
    var tasks: set<string>
    /** Queue loops that are under way. */
    var draining: nat

    ghost predicate Valid()
      reads this
    {
      && DistinctRows(rows) && TasksMatch(rows, tasks) && ContextsMatch(rows, contexts)
      && ActiveCount(rows) <= MAX_CONCURRENT_TRANSFERS
      && (draining == 0 && QueuedCount(rows) > 0 ==> ActiveCount(rows) == MAX_CONCURRENT_TRANSFERS)
    }

    constructor ()
      ensures Valid() && rows == [] && draining == 0
    {
      rows, contexts, tasks, draining := [], {}, {}, 0;
    }

    /** Active rows, not counting the one with this key. */
    method CountActive(except: Option<string>) returns (active: nat)
      ensures (forall r :: r in rows && except == Some(r.key) ==> !r.state.Active()) ==> active == ActiveCount(rows)
    {
      active := 0;
      for i := 0 to |rows|
        invariant (forall r :: r in rows && except == Some(r.key) ==> !r.state.Active()) ==>
                    active == ActiveCount(rows[..i])
      {
        assert rows[..i + 1][..i] == rows[..i];
        assert rows[i] in rows;
        if rows[i].state.Active() && except != Some(rows[i].key) {
          active := active + 1;
        }
      }
      assert rows[..|rows|] == rows;
    }

    /** `start_transfer`: runs at once below the cap, otherwise waits. */
    method StartTransfer(key: string)
      requires Valid() && key !in KeysOf(rows)
      modifies this`rows, this`contexts, this`tasks
      ensures Valid()
      ensures var runNow := |Active(old(rows))| < 3;
              rows == [Row(key, if runNow then Preparing else Queued, false, false)] + old(rows)
    {
      CountsAreCardinalities(rows);
      hide DistinctRows, TasksMatch, ContextsMatch, Count, Active;
      var active := CountActive(None);
      var runNow := active < MAX_CONCURRENT_TRANSFERS;
      var row := Row(key, if runNow then Preparing else Queued, false, false);
      CountInFront(rows, Busy, row);
      CountInFront(rows, Waiting, row);
      MatchInFront(rows, tasks, contexts, row);
      rows := [row] + rows;
      contexts := contexts + {key};
      if runNow {
        tasks := tasks + {key};
      }
    }

    method FindFailed(key: string) returns (i: nat)
      ensures i <= |rows| && (i < |rows| ==> rows[i].key == key && rows[i].state.Failed?)
      ensures forall k :: 0 <= k < i ==> !(rows[k].key == key && rows[k].state.Failed?)
    {
      i := 0;
      while i < |rows| && !(rows[i].key == key && rows[i].state.Failed?)
        invariant i <= |rows|
        invariant forall k :: 0 <= k < i ==> !(rows[k].key == key && rows[k].state.Failed?)
      {
        i := i + 1;
      }
    }

    /** `prepare_demo_retry`, once the failed row is found. */
    method Revive(index: nat, runNow: bool)
      requires Valid() && index < |rows| && rows[index].state.Failed?
      requires runNow <==> ActiveCount(rows) < MAX_CONCURRENT_TRANSFERS
      modifies this`rows, this`tasks
      ensures Valid()
      ensures rows == old(rows)[index := old(rows)[index].(
                state := if runNow then Preparing else Queued, hasError := false)]
    {
      var row := rows[index].(state := if runNow then Preparing else Queued, hasError := false);
      assert contexts + {row.key} == contexts && tasks - {row.key} == tasks;
      hide DistinctRows, TasksMatch, ContextsMatch, Count;
      CountChanges(rows, Busy, index, row);
      CountChanges(rows, Waiting, index, row);
      MatchAfterChange(rows, tasks, contexts, index, row);
      rows := rows[index := row];
      if runNow {
        tasks := tasks + {row.key};
      }
    }

    /** `retry_transfer`: a failed transfer runs or waits again, at its old place in the list. */
    method RetryTransfer(key: string) returns (ok: bool, ghost i: nat)
      requires Valid()
      modifies this`rows, this`tasks
      ensures Valid()
      ensures ok ==> i < |old(rows)| && old(rows)[i].key == key && old(rows)[i].state.Failed?
      ensures !ok ==> forall k :: 0 <= k < |rows| ==> !(rows[k].key == key && rows[k].state.Failed?)
      ensures rows == if !ok then old(rows) else old(rows)[i := old(rows)[i].(
                        state := if |Active(old(rows))| < 3 then Preparing else Queued,
                        hasError := false)]
    {
      CountsAreCardinalities(rows);
      ok, i := false, 0;
      if key !in contexts {
        return;
      }
      hide TasksMatch, ContextsMatch, Count;
      var active := CountActive(Some(key));
      var index := FindFailed(key);
      if index == |rows| {
        return;
      }
      OnlyRow(rows, index);
      Revive(index, active < MAX_CONCURRENT_TRANSFERS);
      ok, i := true, index;
    }

    method FindRow(key: string) returns (i: nat)
      requires key in KeysOf(rows)
      ensures i < |rows| && rows[i].key == key
    {
      var r :| r in rows && r.key == key;
      i := 0;
      while rows[i].key != key
        invariant i < |rows| && r in rows[i..]
        decreases |rows| - i
      {
        i := i + 1;
      }
    }

    /** The state update of `finish_transfer`; a queue loop is to follow. */
    method FinishTransfer(key: string, failed: bool) returns (ghost i: nat)
      requires Valid() && key in tasks
      modifies this
      ensures Valid() && draining == old(draining) + 1
      ensures i < |old(rows)| && old(rows)[i].key == key
      ensures rows == old(rows)[i := old(rows)[i].(
                state := if failed then Failed else Succeeded, hasError := failed, retryable := failed)]
      ensures contexts == if failed then old(contexts) else old(contexts) - {key}
    {
      var index := FindRow(key);
      assert rows[index].state.Active() && key in contexts;
      var row := rows[index].(state := if failed then Failed else Succeeded, hasError := failed, retryable := failed);
      CountChanges(rows, Busy, index, row);
      CountChanges(rows, Waiting, index, row);
      MatchAfterChange(rows, tasks, contexts, index, row);
      hide DistinctRows, TasksMatch, ContextsMatch, Count;
      i := index;
      rows := rows[index := row];
      contexts := contexts - {key};
      if failed {
        contexts := contexts + {key};
      }
      assert failed ==> contexts == old(contexts);
      tasks := tasks - {key};
      draining := draining + 1;
    }

    /** One turn of `process_queue`, which is atomic; the loop goes on while it promotes. */
    method QueueTurn() returns (promoted: bool)
      requires Valid() && draining > 0
      modifies this`rows, this`tasks, this`draining
      ensures Valid() && draining == old(draining) - if promoted then 0 else 1
      ensures promoted <==> ActiveCount(old(rows)) < MAX_CONCURRENT_TRANSFERS && QueuedCount(old(rows)) > 0
      ensures promoted <==> |Active(old(rows))| < 3 && Queue(old(rows)) != {}
      ensures rows == if promoted then Promoted(old(rows), LastQueued(old(rows)).value) else old(rows)
      ensures if !promoted then rows == old(rows)
              else exists i :: i in Queue(old(rows)) && (forall k :: k in Queue(old(rows)) ==> k <= i)
                     && rows == old(rows)[i := old(rows)[i].(state := Preparing)]
    {
      CountsAreCardinalities(rows);
      hide DistinctRows, TasksMatch, ContextsMatch, Count, LastQueued, Active;
      var active := CountActive(None);
      var next := LastQueued(rows);
      promoted := active < MAX_CONCURRENT_TRANSFERS && next.Some?;
      if !promoted {
        draining := draining - 1;
        return;
      }
      PromotionCounts(rows, next.value);
      QueuedHasContext(rows, contexts, next.value);
      MatchAfterChange(rows, tasks, contexts, next.value, rows[next.value].(state := Preparing));
      tasks := tasks + {rows[next.value].key};
      rows := Promoted(rows, next.value);
    }

    /** The loop on its own. */
    method ProcessQueue()
      requires Valid() && draining > 0
      modifies this`rows, this`tasks, this`draining
      ensures Valid() && draining == old(draining) - 1 && rows == Drained(old(rows))
      ensures ActiveCount(rows) == MAX_CONCURRENT_TRANSFERS || QueuedCount(rows) == 0
    {
      DrainedFillsOldestFirst(rows);
      var promoted := true;
      while promoted
        invariant Valid() && draining == old(draining) - if promoted then 0 else 1
        invariant Drained(rows) == Drained(old(rows))
        invariant !promoted ==> rows == Drained(rows)
        decreases promoted, QueuedCount(rows)
      {
        hide Valid, Count;
        ghost var before := rows;
        if i :| LastQueued(rows) == Some(i) {
          PromotionCounts(rows, i);
        }
        promoted := QueueTurn();
      }
    }
  }

  lemma QueuedHasContext(rows: seq<Row>, contexts: set<string>, i: nat)
    requires ContextsMatch(rows, contexts) && i < |rows| && rows[i].state.Queued?
    ensures contexts + {rows[i].key} == contexts
  {
  }

  lemma OnlyRow(rows: seq<Row>, i: nat)
    requires DistinctRows(rows) && i < |rows|
    ensures forall r :: r in rows && r.key == rows[i].key ==> r == rows[i]
  {
  }

  /** A row changes its state: its task and its context follow. */
  lemma MatchAfterChange(rows: seq<Row>, tasks: set<string>, contexts: set<string>, i: nat, row: Row)
    requires DistinctRows(rows) && TasksMatch(rows, tasks) && ContextsMatch(rows, contexts)
    requires i < |rows| && row.key == rows[i].key
    ensures DistinctRows(rows[i := row])
    ensures TasksMatch(rows[i := row], if row.state.Active() then tasks + {row.key} else tasks - {row.key})
    ensures ContextsMatch(rows[i := row], if row.state.Succeeded? then contexts - {row.key} else contexts + {row.key})
  {
    KeysAfterChange(rows, i, row);
    assert rows[i] in rows;
    assert row.key in KeysOf(rows);
    hide KeysOf;
  }

  lemma MatchInFront(rows: seq<Row>, tasks: set<string>, contexts: set<string>, row: Row)
    requires DistinctRows(rows) && TasksMatch(rows, tasks) && ContextsMatch(rows, contexts)
    requires !row.state.Succeeded? && row.key !in KeysOf(rows)
    ensures DistinctRows([row] + rows) && ContextsMatch([row] + rows, contexts + {row.key})
    ensures TasksMatch([row] + rows, if row.state.Active() then tasks + {row.key} else tasks)
  {
    KeysInFront(rows, row);
    var rows' := [row] + rows;
    assert forall i :: 0 <= i < |rows| ==> rows[i] in rows && rows[i].key in KeysOf(rows);
    hide KeysOf;
    assert forall i :: 1 <= i < |rows'| ==> rows'[i] == rows[i - 1];
  }

  datatype Step = Started(key: string) | Retried(key: string) | Finished(key: string, failed: bool) | QueueTurned

  lemma TasksAreActive(s: Scheduler)
    requires s.Valid()
    ensures s.tasks == set i | i in Active(s.rows) :: s.rows[i].key
  {
    forall key | key in s.tasks ensures key in set i | i in Active(s.rows) :: s.rows[i].key {
      var r :| r in s.rows && r.key == key;
      var i :| 0 <= i < |s.rows| && s.rows[i] == r;
      assert i in Active(s.rows);
    }
  }

  /** Any interleaving of starts, retries, finishing tasks and turns of queue loops. */
  method RunTransfers(steps: seq<Step>) returns (s: Scheduler)
    ensures fresh(s) && s.Valid()
    ensures |Active(s.rows)| <= 3
    ensures s.draining == 0 && Queue(s.rows) != {} ==> |Active(s.rows)| == 3
    ensures s.tasks == set i | i in Active(s.rows) :: s.rows[i].key
  {
    s := new Scheduler();
    for i := 0 to |steps|
      invariant fresh(s) && s.Valid()
    {
      match steps[i] {
        case Started(key) =>
          if key !in KeysOf(s.rows) {
            s.StartTransfer(key);
          }
        case Retried(key) =>
          ghost var index;
          var ok;
          ok, index := s.RetryTransfer(key);
        case Finished(key, failed) =>
          if key in s.tasks {
            ghost var index := s.FinishTransfer(key, failed);
          }
        case QueueTurned =>
          if s.draining > 0 {
            var promoted := s.QueueTurn();
          }
      }
    }
    CountsAreCardinalities(s.rows);
    TasksAreActive(s);
  }

  // ---------------------------------------------------------------- not first come, first served

  /** A row that waits again at its old place is promoted next exactly when no row inserted before it
      waits, however long the rows inserted after it have been waiting. */
  lemma RequeuedRowGoesNextIff(rows: seq<Row>, i: nat, row: Row)
    requires i < |rows| && row.state.Queued?
    ensures LastQueued(rows[i := row]) == Some(i) <==> forall k :: i < k < |rows| ==> !rows[k].state.Queued?
  {
    var rows' := rows[i := row];
    assert rows'[i].state.Queued?;
    assert forall k :: i < k < |rows| ==> rows'[k] == rows[k];
  }

  function Fresh(key: string, state: TransferState): Row {
    Row(key, state, false, false)
  }

  lemma ActiveHasTask(s: Scheduler, i: nat)
    requires s.Valid() && i < |s.rows| && s.rows[i].state.Active()
    ensures s.rows[i].key in s.tasks
    ensures forall k :: 0 <= k < |s.rows| && s.rows[k].key == s.rows[i].key ==> k == i
  {
  }

  /** Three run. */
  method ThreeStarted() returns (s: Scheduler)
    ensures fresh(s) && s.Valid() && ActiveCount(s.rows) == 3
    ensures s.rows == [Fresh("c", Preparing), Fresh("b", Preparing), Fresh("a", Preparing)]
  {
    s := new Scheduler();
    assert ActiveCount(s.rows) == 0;
    hide Count, Active, Scheduler.Valid;
    CountInFront(s.rows, Busy, Fresh("a", Preparing));
    CountsAreCardinalities(s.rows);
    s.StartTransfer("a");
    CountInFront(s.rows, Busy, Fresh("b", Preparing));
    assert forall r :: r in s.rows ==> r.key[0] != 'b';
    CountsAreCardinalities(s.rows);
    s.StartTransfer("b");
    CountInFront(s.rows, Busy, Fresh("c", Preparing));
    assert forall r :: r in s.rows ==> r.key[0] != 'c';
    CountsAreCardinalities(s.rows);
    s.StartTransfer("c");
  }

  /** Three run, two wait. */
  method FiveStarted() returns (s: Scheduler)
    ensures fresh(s) && s.Valid() && ActiveCount(s.rows) == 3
    ensures s.rows == [Fresh("e", Queued), Fresh("d", Queued), Fresh("c", Preparing), Fresh("b", Preparing),
                       Fresh("a", Preparing)]
  {
    s := ThreeStarted();
    hide Count, Active, Scheduler.Valid;
    CountInFront(s.rows, Busy, Fresh("d", Queued));
    assert forall r :: r in s.rows ==> r.key[0] != 'd';
    CountsAreCardinalities(s.rows);
    s.StartTransfer("d");
    CountInFront(s.rows, Busy, Fresh("e", Queued));
    assert forall r :: r in s.rows ==> r.key[0] != 'e';
    CountsAreCardinalities(s.rows);
    s.StartTransfer("e");
  }

  /** A running row fails, a new one takes its slot, and the failed one is queued again. */
  method OneFailedAndRetried() returns (s: Scheduler)
    ensures fresh(s) && s.Valid() && ActiveCount(s.rows) == 3 && s.draining > 0
    ensures s.rows == [Fresh("f", Preparing), Fresh("e", Queued), Fresh("d", Queued), Fresh("c", Preparing),
                       Fresh("b", Preparing), Row("a", Queued, false, true)]
  {
    s := FiveStarted();
    hide Count, Active, Scheduler.Valid;
    ghost var rows := s.rows;
    ActiveHasTask(s, 4);
    ghost var i := s.FinishTransfer("a", true);
    CountChanges(rows, Busy, 4, s.rows[4]);
    CountInFront(s.rows, Busy, Fresh("f", Preparing));
    assert forall r :: r in s.rows ==> r.key[0] != 'f';
    CountsAreCardinalities(s.rows);
    s.StartTransfer("f");
    rows := s.rows;
    assert rows[5] == Row("a", Failed, true, true);
    var ok;
    CountsAreCardinalities(s.rows);
    ok, i := s.RetryTransfer("a");
    assert forall k :: 0 <= k < 5 ==> rows[k].key[0] != 'a';
    CountChanges(rows, Busy, 5, s.rows[5]);
  }

  /** A run in which the row started last and the row queued last both run while two rows that were
      waiting before them still wait. */
  method LateRowsOvertake() returns (s: Scheduler)
    ensures fresh(s) && s.Valid()
    ensures s.rows == [Fresh("f", Preparing), Fresh("e", Queued), Fresh("d", Queued), Fresh("c", Preparing),
                       Fresh("b", Succeeded), Row("a", Preparing, false, true)]
  {
    s := OneFailedAndRetried();
    hide Count, Active, Scheduler.Valid;
    ghost var rows := s.rows;
    ActiveHasTask(s, 4);
    ghost var i := s.FinishTransfer("b", false);
    CountChanges(rows, Busy, 4, s.rows[4]);
    assert LastQueued(s.rows) == Some(5) by {
      RequeuedRowGoesNextIff(s.rows, 5, s.rows[5]);
      assert s.rows[5 := s.rows[5]] == s.rows;
    }
    var promoted := s.QueueTurn();
  }
}
