/** "Click again to confirm" (src/runtime/confirm.ts, with the store actions of
    src/runtime/reducer.ts and src/store.ts): arming, confirming, expiring and settling. */
module Confirm {

  /** The ids are minted as op-1, op-2, …; the number is kept. */
  type OperationId = nat

  datatype Phase = Idle | Confirming(operationId: OperationId, expiresAt: int) | Running(operationId: OperationId)

  datatype Decision =
    | Armed(operationId: OperationId, expiresAt: int)
    | Confirmed(operationId: OperationId)
    | Busy(operationId: OperationId)

  /** What a click means; `minted` is the id that a new arming would get. */
  function DecideConfirm(phase: Phase, now: int, ttl: int, minted: OperationId): Decision {
    if phase.Running? then Busy(phase.operationId)
    else if phase.Confirming? && now < phase.expiresAt then Confirmed(phase.operationId)
    else Armed(minted, now + ttl)
  }

  type Confirmations = map<string, Phase>

  function PhaseOf(confirmations: Confirmations, target: string): Phase {
    if target in confirmations then confirmations[target] else Idle
  }

  datatype Timer = Timer(target: string, operationId: OperationId)

  /** One arming, and one confirmation, as they happened. */
  datatype Arming = Arming(target: string, operationId: OperationId, expiresAt: int)

  datatype Confirmation = Confirmation(target: string, operationId: OperationId, at: int)

  /** The k-th arming minted id k + 1. */
  ghost predicate IdsAreFresh(armings: seq<Arming>, sequence: nat) {
    |armings| == sequence && forall k :: 0 <= k < |armings| ==> armings[k].operationId == k + 1
  }

  /** Each confirmation came before the expiry of the arming with its id, on the same target. */
  ghost predicate ConfirmationsEarned(armings: seq<Arming>, confirmed: seq<Confirmation>) {
    forall c :: c in confirmed ==>
      && 1 <= c.operationId <= |armings|
      && armings[c.operationId - 1].target == c.target
      && c.at < armings[c.operationId - 1].expiresAt
  }

  ghost predicate ConfirmedOnce(confirmed: seq<Confirmation>) {
    forall p, q :: 0 <= p < q < |confirmed| ==> confirmed[p].operationId != confirmed[q].operationId
  }

  predicate IsConfirmed(confirmed: seq<Confirmation>, target: string, id: OperationId) {
    exists c :: c in confirmed && c.target == target && c.operationId == id
  }

  /** An armed target shows its own latest arming, which nobody has confirmed or settled. */
  ghost predicate ArmedTargets(confirmations: Confirmations, armings: seq<Arming>, confirmed: seq<Confirmation>,
                               settled: set<OperationId>) {
    && (forall id :: id in settled ==> id <= |armings|)
    && forall t :: t in confirmations && confirmations[t].Confirming? ==>
         var id := confirmations[t].operationId;
         && 1 <= id <= |armings| && armings[id - 1] == Arming(t, id, confirmations[t].expiresAt)
         && id !in settled && forall c :: c in confirmed ==> c.operationId != id
  }

  /** A target is running exactly the confirmed operation of its own that has not settled. */
  ghost predicate RunningTargets(confirmations: Confirmations, confirmed: seq<Confirmation>,
                                 settled: set<OperationId>) {
    && (forall t :: t in confirmations ==> !confirmations[t].Idle?)
    && (forall c :: c in confirmed ==>
          (c.operationId !in settled <==> PhaseOf(confirmations, c.target) == Running(c.operationId)))
    && (forall t :: t in confirmations && confirmations[t].Running? ==>
          IsConfirmed(confirmed, t, confirmations[t].operationId))
  }

  datatype History = History(armings: seq<Arming>, confirmed: seq<Confirmation>, settled: set<OperationId>)

  ghost predicate Consistent(confirmations: Confirmations, sequence: nat, h: History) {
    && IdsAreFresh(h.armings, sequence)
    && ConfirmationsEarned(h.armings, h.confirmed) && ConfirmedOnce(h.confirmed)
    && ArmedTargets(confirmations, h.armings, h.confirmed, h.settled)
    && RunningTargets(confirmations, h.confirmed, h.settled)
  }

  lemma ArmingKeeps(confirmations: Confirmations, sequence: nat, h: History, target: string, expiresAt: int)
    requires Consistent(confirmations, sequence, h) && !PhaseOf(confirmations, target).Running?
    ensures Consistent(confirmations[target := Confirming(sequence + 1, expiresAt)], sequence + 1,
                       h.(armings := h.armings + [Arming(target, sequence + 1, expiresAt)]))
  {
  }

  lemma ConfirmingRuns(confirmations: Confirmations, confirmed: seq<Confirmation>, settled: set<OperationId>,
                       c: Confirmation)
    requires RunningTargets(confirmations, confirmed, settled) && c.operationId !in settled
    requires c.target in confirmations && confirmations[c.target].Confirming?
    requires forall d :: d in confirmed ==> d.operationId != c.operationId
    ensures RunningTargets(confirmations[c.target := Running(c.operationId)], confirmed + [c], settled)
  {
    assert forall d :: d in confirmed + [c] <==> d in confirmed || d == c;
    assert forall t, i :: IsConfirmed(confirmed, t, i) ==> IsConfirmed(confirmed + [c], t, i);
  }

  lemma ConfirmingKeeps(confirmations: Confirmations, sequence: nat, h: History, target: string, now: int)
    requires Consistent(confirmations, sequence, h) && PhaseOf(confirmations, target).Confirming?
    requires now < confirmations[target].expiresAt
    ensures var id := confirmations[target].operationId;
            Consistent(confirmations[target := Running(id)], sequence,
                       h.(confirmed := h.confirmed + [Confirmation(target, id, now)]))
  {
    hide RunningTargets;
    var id := confirmations[target].operationId;
    var c := Confirmation(target, id, now);
    ConfirmingRuns(confirmations, h.confirmed, h.settled, c);
    assert forall d :: d in h.confirmed + [c] <==> d in h.confirmed || d == c;
  }

  /** Dropping armed targets, whichever they are, harms nothing. */
  lemma DisarmingKeeps(confirmations: Confirmations, sequence: nat, h: History, dropped: set<string>)
    requires Consistent(confirmations, sequence, h)
    requires forall t :: t in dropped && t in confirmations ==> !confirmations[t].Running?
    ensures Consistent(confirmations - dropped, sequence, h)
  {
  }

  lemma SettlingKeeps(confirmations: Confirmations, sequence: nat, h: History, target: string)
    requires Consistent(confirmations, sequence, h) && PhaseOf(confirmations, target).Running?
    ensures Consistent(confirmations - {target}, sequence,
                       h.(settled := h.settled + {confirmations[target].operationId}))
  {
  }

  class Controller {
    var confirmations: Confirmations
    var sequence: nat
    var disposed: bool
    /** Timers that are set and have neither fired nor been cancelled. */
    var timers: set<Timer>
    ghost var history: History

    ghost predicate Valid()
      reads this
    {
      Consistent(confirmations, sequence, history)
    }

    constructor ()
      ensures Valid() && confirmations == map[] && history == History([], [], {})
    {
      confirmations, sequence, disposed, timers := map[], 0, false, {};
      history := History([], [], {});
    }

    // ------------------------------------------------------------- store actions

    method ConfirmArm(target: string, id: OperationId, expiresAt: int) returns (changed: bool)
      modifies this`confirmations
      ensures changed == !PhaseOf(old(confirmations), target).Running?
      ensures confirmations ==
              if changed then old(confirmations)[target := Confirming(id, expiresAt)] else old(confirmations)
    {
      if PhaseOf(confirmations, target).Running? {
        return false;
      }
      confirmations := confirmations[target := Confirming(id, expiresAt)];
      return true;
    }

    method ConfirmRun(target: string, id: OperationId) returns (changed: bool)
      modifies this`confirmations
      ensures changed == var phase := PhaseOf(old(confirmations), target); phase.Confirming? && phase.operationId == id
      ensures confirmations == if changed then old(confirmations)[target := Running(id)] else old(confirmations)
    {
      var phase := PhaseOf(confirmations, target);
      if !phase.Confirming? || phase.operationId != id {
        return false;
      }
      confirmations := confirmations[target := Running(id)];
      return true;
    }

    method ConfirmExpire(target: string, id: OperationId) returns (changed: bool)
      modifies this`confirmations
      ensures changed == var phase := PhaseOf(old(confirmations), target); phase.Confirming? && phase.operationId == id
      ensures confirmations == if changed then old(confirmations) - {target} else old(confirmations)
    {
      var phase := PhaseOf(confirmations, target);
      if !phase.Confirming? || phase.operationId != id {
        return false;
      }
      confirmations := confirmations - {target};
      return true;
    }

    // ------------------------------------------------------------- the controller

    /** One click: it arms with a fresh id and a whole ttl, confirms what is armed and has not
        expired, or finds the target running. */
    method Request(target: string, now: int, ttl: int) returns (decision: Decision)
      requires Valid()
      modifies this
      ensures Valid() && disposed == old(disposed)
      ensures target in old(confirmations) && old(confirmations)[target].Running? ==>
                && decision == Busy(old(confirmations)[target].operationId)
                && confirmations == old(confirmations) && sequence == old(sequence)
      ensures target in old(confirmations) && old(confirmations)[target].Confirming?
              && now < old(confirmations)[target].expiresAt ==>
                var id := old(confirmations)[target].operationId;
                && decision == Confirmed(id)
                && confirmations == old(confirmations)[target := Running(id)] && sequence == old(sequence)
      ensures target !in old(confirmations)
              || (old(confirmations)[target].Confirming? && old(confirmations)[target].expiresAt <= now) ==>
                var id := old(sequence) + 1;
                && decision == Armed(id, now + ttl)
                && confirmations == old(confirmations)[target := Confirming(id, now + ttl)] && sequence == id
      ensures history ==
              match decision {
                case Armed(id, expiresAt) =>
                  old(history).(armings := old(history).armings + [Arming(target, id, expiresAt)])
                case Confirmed(id) =>
                  old(history).(confirmed := old(history).confirmed + [Confirmation(target, id, now)])
                case Busy(_) => old(history)
              }
      ensures timers == old(timers) + if decision.Armed? && !disposed then {Timer(target, decision.operationId)} else {}
      ensures forall t :: t != target ==> PhaseOf(confirmations, t) == PhaseOf(old(confirmations), t)
    {
      hide Consistent;
      decision := DecideConfirm(PhaseOf(confirmations, target), now, ttl, sequence + 1);
      if decision.Busy? {
        return;
      }
      if decision.Confirmed? {
        ConfirmingKeeps(confirmations, sequence, history, target, now);
        var changed := ConfirmRun(target, decision.operationId);
        history := history.(confirmed := history.confirmed + [Confirmation(target, decision.operationId, now)]);
        return;
      }
      ArmingKeeps(confirmations, sequence, history, target, decision.expiresAt);
      sequence := sequence + 1;
      var changed := ConfirmArm(target, decision.operationId, decision.expiresAt);
      history := history.(armings := history.armings + [Arming(target, decision.operationId, decision.expiresAt)]);
      if disposed {
        return;
      }
      timers := timers + {Timer(target, decision.operationId)};
    }

    /** A timer runs out, whenever that is. It disarms nothing but what it was set for. */
    method Fire(timer: Timer) returns (expired: bool)
      requires Valid() && timer in timers
      modifies this`confirmations, this`timers
      ensures Valid() && timers == old(timers) - {timer}
      ensures expired == var phase := PhaseOf(old(confirmations), timer.target);
                         phase.Confirming? && phase.operationId == timer.operationId
      ensures confirmations == if expired then old(confirmations) - {timer.target} else old(confirmations)
    {
      hide Consistent;
      timers := timers - {timer};
      if PhaseOf(confirmations, timer.target).Confirming? {
        DisarmingKeeps(confirmations, sequence, history, {timer.target});
      }
      expired := ConfirmExpire(timer.target, timer.operationId);
    }

    /** Ends a run, if it is the one running on the target. */
    method Settle(target: string, id: OperationId) returns (changed: bool)
      requires Valid()
      modifies this`confirmations, this`history
      ensures Valid() && changed == (PhaseOf(old(confirmations), target) == Running(id))
      ensures confirmations == if changed then old(confirmations) - {target} else old(confirmations)
      ensures history == if changed then old(history).(settled := old(history).settled + {id}) else old(history)
    {
      hide Consistent;
      changed := PhaseOf(confirmations, target) == Running(id);
      if changed {
        SettlingKeeps(confirmations, sequence, history, target);
        confirmations := confirmations - {target};
        history := history.(settled := history.settled + {id});
      }
    }

    /** `clearConfirmations`: drops what is armed under a prefix, and leaves what runs alone. */
    method Clear(prefix: string) returns (changed: bool)
      requires Valid()
      modifies this`confirmations
      ensures Valid() && OnlyArmedDropped(old(confirmations), confirmations, prefix)
      ensures changed <==> confirmations != old(confirmations)
    {
      hide Consistent, CanDrop, OnlyArmedDropped;
      ghost var dropped: set<string> := {};
      changed := false;
      var entries := confirmations;
      var left := entries.Keys;
      while left != {}
        invariant left <= entries.Keys && dropped <= entries.Keys
        invariant forall t :: t in entries ==> (t in dropped <==> CanDrop(entries, prefix, t) && t !in left)
        invariant confirmations == entries - dropped
        invariant changed <==> dropped != {}
        decreases |left|
      {
        var target :| target in left;
        left := left - {target};
        if CanDrop(entries, prefix, target) {
          assert (entries - dropped) - {target} == entries - (dropped + {target});
          confirmations := confirmations - {target};
          dropped := dropped + {target};
          changed := true;
        }
      }
      DroppingArmed(entries, sequence, history, prefix, dropped);
    }

    method Dispose()
      requires Valid()
      modifies this`disposed, this`timers
      ensures Valid() && disposed && timers == {}
    {
      disposed, timers := true, {};
    }
  }

  predicate CanDrop(confirmations: Confirmations, prefix: string, t: string) {
    t in confirmations && prefix <= t && !confirmations[t].Running?
  }

  /** Of all entries exactly the armed ones under the prefix are gone. */
  ghost predicate OnlyArmedDropped(before: Confirmations, after: Confirmations, prefix: string) {
    && (forall t :: t in after <==> t in before && !(prefix <= t && before[t].Confirming?))
    && forall t :: t in after ==> after[t] == before[t]
  }

  lemma DroppingArmed(confirmations: Confirmations, sequence: nat, h: History, prefix: string, dropped: set<string>)
    requires Consistent(confirmations, sequence, h) && dropped <= confirmations.Keys
    requires forall t :: t in confirmations ==> (t in dropped <==> CanDrop(confirmations, prefix, t))
    ensures Consistent(confirmations - dropped, sequence, h)
    ensures OnlyArmedDropped(confirmations, confirmations - dropped, prefix)
    ensures confirmations - dropped != confirmations <==> dropped != {}
  {
    DisarmingKeeps(confirmations, sequence, h, dropped);
    if t :| t in dropped {
      assert t in confirmations && t !in confirmations - dropped;
    }
  }

  // ---------------------------------------------------------------- what the machine promises

  /** No id is confirmed twice. */
  lemma ConfirmedAtMostOnce(c: Controller, p: nat, q: nat)
    requires c.Valid() && p < q < |c.history.confirmed|
    ensures c.history.confirmed[p].operationId != c.history.confirmed[q].operationId
  {
  }

  /** Every confirmation is of one arming, on the same target and before its expiry, and no other
      arming has its id. */
  lemma ConfirmedBeforeExpiry(c: Controller, p: nat)
    requires c.Valid() && p < |c.history.confirmed|
    ensures
      var d := c.history.confirmed[p];
      exists a :: a in c.history.armings && a.operationId == d.operationId
        && a.target == d.target && d.at < a.expiresAt
        && forall b :: b in c.history.armings && b.operationId == d.operationId ==> b == a
  {
    var d := c.history.confirmed[p];
    assert d in c.history.confirmed;
    assert c.history.armings[d.operationId - 1] in c.history.armings;
  }

  /** Of all operations ever confirmed on a target at most one has not settled. */
  lemma OneRunningPerTarget(c: Controller, d: Confirmation, e: Confirmation)
    requires c.Valid() && d in c.history.confirmed && e in c.history.confirmed && d.target == e.target
    requires d.operationId !in c.history.settled && e.operationId !in c.history.settled
    ensures d == e
  {
    assert PhaseOf(c.confirmations, d.target) == Running(d.operationId) == Running(e.operationId);
    var p :| 0 <= p < |c.history.confirmed| && c.history.confirmed[p] == d;
    var q :| 0 <= q < |c.history.confirmed| && c.history.confirmed[q] == e;
    assert p < q || q < p || p == q;
  }

  datatype Step =
    | Click(target: string, now: int, ttl: int)
    | TimerFires(timer: Timer)
    | Cleared(prefix: string)
    | Finished(target: string, operationId: OperationId)
    | Disposed

  /** The step cannot reach the target while it is armed with this id. */
  ghost predicate LeavesArmed(step: Step, target: string, id: OperationId) {
    match step
    case Click(other, _, _) => other != target
    case TimerFires(timer) => timer != Timer(target, id)
    case Cleared(prefix) => !(prefix <= target)
    case Finished(_, _) => true
    case Disposed => true
  }

  /** One step; a timer that is not set cannot fire. */
  method Take(c: Controller, step: Step)
    requires c.Valid()
    modifies c
    ensures c.Valid()
    ensures forall t :: t in old(c.confirmations) && old(c.confirmations)[t].Confirming?
                        && LeavesArmed(step, t, old(c.confirmations)[t].operationId) ==>
              t in c.confirmations && c.confirmations[t] == old(c.confirmations)[t]
    ensures c.sequence >= old(c.sequence)
  {
    match step {
      case Click(target, now, ttl) =>
        var decision := c.Request(target, now, ttl);
        assert forall t :: t != target && t in old(c.confirmations) ==>
                 PhaseOf(c.confirmations, t) == old(c.confirmations)[t];
        assert forall t :: t in old(c.confirmations) ==> t in c.confirmations;
      case TimerFires(timer) =>
        if timer in c.timers {
          var expired := c.Fire(timer);
        }
      case Cleared(prefix) =>
        var changed := c.Clear(prefix);
      case Finished(target, id) =>
        var changed := c.Settle(target, id);
      case Disposed =>
        c.Dispose();
    }
  }

  /** Any interleaving of clicks, timers, clears and settlements. */
  method RunConfirmations(steps: seq<Step>) returns (c: Controller)
    ensures fresh(c) && c.Valid()
  {
    c := new Controller();
    for i := 0 to |steps|
      invariant fresh(c) && c.Valid()
    {
      Take(c, steps[i]);
    }
  }

  /** Click again to confirm: a click on a target that is neither armed nor running, then any steps
      that leave it alone, then a second click, which confirms the first one's id if it comes before
      the end of the ttl and otherwise arms a new one. A third click finds what was confirmed. */
  method ClickAgain(c: Controller, target: string, now: int, ttl: int, between: seq<Step>, again: int, ttl': int)
    returns (first: Decision, second: Decision, third: Decision)
    requires c.Valid() && target !in c.confirmations
    requires forall k :: 0 <= k < |between| ==> LeavesArmed(between[k], target, c.sequence + 1)
    modifies c
    ensures c.Valid() && first == Armed(old(c.sequence) + 1, now + ttl)
    ensures again < now + ttl ==> second == Confirmed(old(c.sequence) + 1) && third == Busy(old(c.sequence) + 1)
    ensures again >= now + ttl ==>
              second.Armed? && second.operationId > old(c.sequence) + 1 && second.expiresAt == again + ttl'
  {
    ghost var id := c.sequence + 1;
    first := c.Request(target, now, ttl);
    for k := 0 to |between|
      invariant c.Valid() && c.sequence >= id
      invariant target in c.confirmations && c.confirmations[target] == Confirming(id, now + ttl)
    {
      Take(c, between[k]);
    }
    second := c.Request(target, again, ttl');
    third := c.Request(target, again, ttl');
  }
}
