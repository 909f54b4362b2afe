/** Device navigation (src/ui/navigationController.ts): only the newest focus or refresh may
    report, and identical requests in flight are shared. */
module Navigation {

  /** Where a call of `load` is suspended, or how it ended. */
  datatype Stage = Painting | Waiting(request: nat) | Stale | Applied | Failed

  datatype Call = Call(deviceId: string, requestGeneration: nat, invalidationGeneration: nat, stage: Stage)

  datatype Request = Request(deviceId: string, generation: nat, settled: bool)

  /** The entry points, in the order in which they were entered. */
  datatype Entered = Load(call: nat) | Invalidation

  function Invalidations(entered: seq<Entered>): nat {
    if entered == [] then 0
    else Invalidations(entered[..|entered| - 1]) + if entered[|entered| - 1].Invalidation? then 1 else 0
  }

  lemma InvalidationsGrow(entered: seq<Entered>, e: Entered)
    ensures Invalidations(entered + [e]) == Invalidations(entered) + if e.Invalidation? then 1 else 0
  {
    assert (entered + [e])[..|entered|] == entered;
  }

  /** A call's generation is the position at which it was entered. */
  ghost predicate NumberedCall(calls: seq<Call>, entered: seq<Entered>, c: int)
    requires 0 <= c < |calls|
  {
    var generation := calls[c].requestGeneration;
    && 1 <= generation <= |entered| && entered[generation - 1] == Load(c)
    && calls[c].invalidationGeneration == Invalidations(entered[..generation])
  }

  ghost predicate NumberedEntry(calls: seq<Call>, entered: seq<Entered>, k: int)
    requires 0 <= k < |entered|
  {
    entered[k].Load? ==> entered[k].call < |calls| && calls[entered[k].call].requestGeneration == k + 1
  }

  ghost predicate CallsNumbered(calls: seq<Call>, entered: seq<Entered>) {
    && (forall c :: 0 <= c < |calls| ==> NumberedCall(calls, entered, c))
    && (forall k :: 0 <= k < |entered| ==> NumberedEntry(calls, entered, k))
  }

  /** A waiting call waits for a request of its own device and generation. */
  ghost predicate WaitsForOwn(calls: seq<Call>, requests: seq<Request>) {
    forall c :: 0 <= c < |calls| && calls[c].stage.Waiting? ==>
      var r := calls[c].stage.request;
      && r < |requests| && requests[r].deviceId == calls[c].deviceId
      && requests[r].generation == calls[c].invalidationGeneration
  }

  predicate InFlight(requests: seq<Request>, r: int) {
    0 <= r < |requests| && !requests[r].settled
  }

  predicate SameRequest(a: Request, b: Request) {
    a.deviceId == b.deviceId && a.generation == b.generation
  }

  /** A request in flight under the current generation is the one that new calls would share. */
  ghost predicate RequestsShared(requests: seq<Request>, inFlightByDevice: map<string, nat>, generation: nat) {
    && (forall d :: d in inFlightByDevice ==>
          inFlightByDevice[d] < |requests| && requests[inFlightByDevice[d]].deviceId == d)
    && (forall r :: 0 <= r < |requests| ==> requests[r].generation <= generation)
    && (forall r :: InFlight(requests, r) && requests[r].generation == generation ==>
          requests[r].deviceId in inFlightByDevice && inFlightByDevice[requests[r].deviceId] == r)
    && (forall r, q ::
          InFlight(requests, r) && InFlight(requests, q) && SameRequest(requests[r], requests[q]) ==> r == q)
  }

  lemma NumberedAfterEntry(calls: seq<Call>, calls': seq<Call>, entered: seq<Entered>, e: Entered)
    requires CallsNumbered(calls, entered) && calls <= calls'
    ensures forall c :: 0 <= c < |calls| ==> NumberedCall(calls', entered + [e], c)
    ensures forall k :: 0 <= k < |entered| ==> NumberedEntry(calls', entered + [e], k)
  {
    hide Invalidations;
    forall c | 0 <= c < |calls| ensures NumberedCall(calls', entered + [e], c) {
      assert NumberedCall(calls, entered, c);
      assert (entered + [e])[..calls[c].requestGeneration] == entered[..calls[c].requestGeneration];
    }
    forall k | 0 <= k < |entered| ensures NumberedEntry(calls', entered + [e], k) {
      assert NumberedEntry(calls, entered, k);
    }
  }

  lemma NumberedAfterBegin(calls: seq<Call>, entered: seq<Entered>, deviceId: string)
    requires CallsNumbered(calls, entered)
    ensures CallsNumbered(calls + [Call(deviceId, |entered| + 1, Invalidations(entered), Painting)],
                          entered + [Load(|calls|)])
  {
    var calls' := calls + [Call(deviceId, |entered| + 1, Invalidations(entered), Painting)];
    var entered' := entered + [Load(|calls|)];
    NumberedAfterEntry(calls, calls', entered, Load(|calls|));
    InvalidationsGrow(entered, Load(|calls|));
    assert entered'[..|entered'|] == entered';
    hide Invalidations;
    assert NumberedCall(calls', entered', |calls|);
    assert NumberedEntry(calls', entered', |entered|);
  }

  lemma NumberedAfterInvalidation(calls: seq<Call>, entered: seq<Entered>)
    requires CallsNumbered(calls, entered)
    ensures CallsNumbered(calls, entered + [Invalidation])
  {
    NumberedAfterEntry(calls, calls, entered, Invalidation);
    assert NumberedEntry(calls, entered + [Invalidation], |entered|);
  }

  lemma NumberedAfterStage(calls: seq<Call>, entered: seq<Entered>, call: nat, stage: Stage)
    requires CallsNumbered(calls, entered) && call < |calls|
    ensures CallsNumbered(calls[call := calls[call].(stage := stage)], entered)
  {
    hide Invalidations;
    var calls' := calls[call := calls[call].(stage := stage)];
    forall c | 0 <= c < |calls| ensures NumberedCall(calls', entered, c) {
      assert NumberedCall(calls, entered, c);
    }
    forall k | 0 <= k < |entered| ensures NumberedEntry(calls', entered, k) {
      assert NumberedEntry(calls, entered, k);
    }
  }

  lemma WaitsAfterStage(calls: seq<Call>, requests: seq<Request>, call: nat, stage: Stage)
    requires WaitsForOwn(calls, requests) && call < |calls|
    requires stage.Waiting? ==>
               && stage.request < |requests| && requests[stage.request].deviceId == calls[call].deviceId
               && requests[stage.request].generation == calls[call].invalidationGeneration
    ensures WaitsForOwn(calls[call := calls[call].(stage := stage)], requests)
  {
  }

  /** The newest generation belongs to the last entry, under the invalidations counted so far. */
  lemma NewestIsLast(calls: seq<Call>, entered: seq<Entered>, call: nat)
    requires CallsNumbered(calls, entered) && call < |calls|
    ensures calls[call].requestGeneration == |entered| <==> entered != [] && entered[|entered| - 1] == Load(call)
    ensures calls[call].requestGeneration == |entered| ==> calls[call].invalidationGeneration == Invalidations(entered)
  {
    hide Invalidations;
    assert entered[..|entered|] == entered;
    assert NumberedCall(calls, entered, call);
    assert entered != [] ==> NumberedEntry(calls, entered, |entered| - 1);
  }

  lemma NothingEntered()
    ensures Invalidations([]) == 0 && RequestsShared([], map[], 0)
  {
  }

  class Controller {
    var requestGeneration: nat
    var invalidationGeneration: nat
    /** The entry of a device; the request remembers the generation it was made for. */
    var inFlightByDevice: map<string, nat>
    var calls: seq<Call>
    var requests: seq<Request>
    ghost var entered: seq<Entered>

    ghost predicate Valid()
      reads this
    {
      && requestGeneration == |entered| && invalidationGeneration == Invalidations(entered)
      && CallsNumbered(calls, entered) && WaitsForOwn(calls, requests)
      && RequestsShared(requests, inFlightByDevice, invalidationGeneration)
    }

    constructor ()
      ensures Valid() && calls == [] && requests == [] && entered == []
    {
      hide RequestsShared, Invalidations;
      NothingEntered();
      requestGeneration, invalidationGeneration, inFlightByDevice := 0, 0, map[];
      calls, requests, entered := [], [], [];
    }

    /** `focus` and `refresh`, up to the wait for the next paint. */
    method Begin(deviceId: string) returns (call: nat)
      requires Valid()
      modifies this`requestGeneration, this`calls, this`entered
      ensures Valid() && call == |old(calls)| && entered == old(entered) + [Load(call)]
      ensures calls == old(calls) + [Call(deviceId, |entered|, invalidationGeneration, Painting)]
    {
      hide CallsNumbered, Invalidations, RequestsShared;
      NumberedAfterBegin(calls, entered, deviceId);
      InvalidationsGrow(entered, Load(|calls|));
      requestGeneration := requestGeneration + 1;
      call := |calls|;
      calls := calls + [Call(deviceId, requestGeneration, invalidationGeneration, Painting)];
      entered := entered + [Load(call)];
    }

    method Invalidate()
      requires Valid()
      modifies this`requestGeneration, this`invalidationGeneration, this`entered
      ensures Valid() && entered == old(entered) + [Invalidation]
    {
      hide CallsNumbered, Invalidations, WaitsForOwn;
      NumberedAfterInvalidation(calls, entered);
      InvalidationsGrow(entered, Invalidation);
      requestGeneration := requestGeneration + 1;
      invalidationGeneration := invalidationGeneration + 1;
      entered := entered + [Invalidation];
    }

    /** The checks before the request and before every report. */
    predicate Superseded(call: nat, isCurrent: bool)
      requires call < |calls|
      reads this`calls, this`requestGeneration, this`invalidationGeneration
    {
      || calls[call].requestGeneration != requestGeneration
      || calls[call].invalidationGeneration != invalidationGeneration
      || !isCurrent
    }

    /** `loadSessionsOnce`. */
    method LoadSessionsOnce(deviceId: string) returns (request: nat)
      requires Valid()
      modifies this`inFlightByDevice, this`requests
      ensures Valid() && request < |requests| && requests[request].deviceId == deviceId
      ensures requests[request].generation == invalidationGeneration
      ensures if deviceId in old(inFlightByDevice)
                 && old(requests)[old(inFlightByDevice)[deviceId]].generation == invalidationGeneration
              then request == old(inFlightByDevice)[deviceId] && requests == old(requests)
                   && inFlightByDevice == old(inFlightByDevice)
              else request == |old(requests)|
                   && requests == old(requests) + [Request(deviceId, invalidationGeneration, false)]
                   && inFlightByDevice == old(inFlightByDevice)[deviceId := request]
      ensures requests != old(requests) ==>
                forall r :: old(InFlight(requests, r)) ==>
                  !SameRequest(old(requests)[r], Request(deviceId, invalidationGeneration, false))
      ensures deviceId in inFlightByDevice && inFlightByDevice[deviceId] == request
    {
      hide CallsNumbered, Invalidations;
      if deviceId in inFlightByDevice && requests[inFlightByDevice[deviceId]].generation == invalidationGeneration {
        return inFlightByDevice[deviceId];
      }
      request := |requests|;
      requests := requests + [Request(deviceId, invalidationGeneration, false)];
      inFlightByDevice := inFlightByDevice[deviceId := request];
    }

    /** The frame was painted: ask for the sessions, unless something newer has begun. */
    method Painted(call: nat, isCurrent: bool)
      requires Valid() && call < |calls| && calls[call].stage.Painting?
      modifies this`inFlightByDevice, this`calls, this`requests
      ensures Valid() && |calls| == |old(calls)|
      ensures calls == old(calls)[call := old(calls)[call].(stage := calls[call].stage)]
      ensures old(Superseded(call, isCurrent)) ==> requests == old(requests) && calls[call].stage.Stale?
      ensures !old(Superseded(call, isCurrent)) ==> calls[call].stage.Waiting? && old(LastEntered(call))
      ensures old(Superseded(call, isCurrent)) <==> !(isCurrent && old(LastEntered(call)))
      ensures !old(Superseded(call, isCurrent)) ==>
                var deviceId, request := calls[call].deviceId, calls[call].stage.request;
                && deviceId in inFlightByDevice && inFlightByDevice[deviceId] == request && request < |requests|
                && (requests == old(requests)
                    || requests == old(requests) + [Request(deviceId, invalidationGeneration, false)])
    {
      hide CallsNumbered, Invalidations, WaitsForOwn, RequestsShared;
      NewestIsLast(calls, entered, call);
      if Superseded(call, isCurrent) {
        NumberedAfterStage(calls, entered, call, Stale);
        WaitsAfterStage(calls, requests, call, Stale);
        calls := calls[call := calls[call].(stage := Stale)];
        return;
      }
      var request := LoadSessionsOnce(calls[call].deviceId);
      NumberedAfterStage(calls, entered, call, Waiting(request));
      WaitsAfterStage(calls, requests, call, Waiting(request));
      calls := calls[call := calls[call].(stage := Waiting(request))];
    }

    /** The backend answers a request, one way or the other. */
    method SettleRequest(request: nat)
      requires Valid() && InFlight(requests, request)
      modifies this`requests
      ensures Valid() && requests == old(requests)[request := old(requests)[request].(settled := true)]
    {
      hide CallsNumbered, Invalidations;
      requests := requests[request := requests[request].(settled := true)];
    }

    /** The clean-up of a settled request; it leaves a newer entry alone. */
    method ClearRequest(request: nat)
      requires Valid() && request < |requests| && requests[request].settled
      modifies this`inFlightByDevice
      ensures Valid()
      ensures inFlightByDevice ==
              var d := requests[request].deviceId;
              if d in old(inFlightByDevice) && old(inFlightByDevice)[d] == request then old(inFlightByDevice) - {d}
              else old(inFlightByDevice)
    {
      hide CallsNumbered, Invalidations, WaitsForOwn;
      var deviceId := requests[request].deviceId;
      if deviceId in inFlightByDevice && inFlightByDevice[deviceId] == request {
        inFlightByDevice := inFlightByDevice - {deviceId};
      }
    }

    /** This call was the last focus, refresh or invalidation to begin. */
    ghost predicate LastEntered(call: nat)
      reads this`entered
    {
      entered != [] && entered[|entered| - 1] == Load(call)
    }

    /** A call resumes with the answer to its request. `onLoaded` and `onFailed` are the stages
        Applied and Failed. */
    method Resume(call: nat, loaded: bool, isCurrent: bool)
      requires Valid() && call < |calls| && calls[call].stage.Waiting? && requests[calls[call].stage.request].settled
      modifies this`calls
      ensures Valid()
      ensures calls == old(calls)[call := old(calls)[call].(stage :=
                if old(Superseded(call, isCurrent)) then Stale else if loaded then Applied else Failed)]
      ensures old(Superseded(call, isCurrent)) <==> !(isCurrent && LastEntered(call))
    {
      hide CallsNumbered, Invalidations, RequestsShared;
      NewestIsLast(calls, entered, call);
      var stage := if Superseded(call, isCurrent) then Stale else if loaded then Applied else Failed;
      NumberedAfterStage(calls, entered, call, stage);
      WaitsAfterStage(calls, requests, call, stage);
      hide WaitsForOwn;
      calls := calls[call := calls[call].(stage := stage)];
    }
  }

  /** Never two requests in flight for one device under one invalidation generation. */
  lemma OneRequestInFlight(c: Controller, r: nat, q: nat)
    requires c.Valid() && InFlight(c.requests, r) && InFlight(c.requests, q)
    requires SameRequest(c.requests[r], c.requests[q])
    ensures r == q
  {
  }

  /** A call may still report if and only if nothing was entered after it and its device is shown. */
  lemma ReportsOnlyWhenNewest(c: Controller, call: nat, isCurrent: bool)
    requires c.Valid() && call < |c.calls|
    ensures !c.Superseded(call, isCurrent) <==>
              && isCurrent && Load(call) in c.entered
              && forall k :: 0 <= k < |c.entered| && c.entered[k] == Load(call) ==> k == |c.entered| - 1
  {
    hide Invalidations;
    NewestIsLast(c.calls, c.entered, call);
    assert NumberedCall(c.calls, c.entered, call);
    forall k | 0 <= k < |c.entered| && c.entered[k] == Load(call) ensures k == c.calls[call].requestGeneration - 1 {
      assert NumberedEntry(c.calls, c.entered, k);
    }
  }

  datatype Step =
    | Focused(deviceId: string)
    | Invalidated
    | FramePainted(call: nat, isCurrent: bool)
    | Answered(request: nat)
    | Cleared(request: nat)
    | Resumed(call: nat, loaded: bool, isCurrent: bool)

  /** Any interleaving of calls, invalidations, frames and answers; impossible steps are skipped. */
  method RunNavigation(steps: seq<Step>) returns (c: Controller)
    ensures fresh(c) && c.Valid()
  {
    c := new Controller();
    for i := 0 to |steps|
      invariant fresh(c) && c.Valid()
    {
      match steps[i] {
        case Focused(deviceId) =>
          var call := c.Begin(deviceId);
        case Invalidated =>
          c.Invalidate();
        case FramePainted(call, isCurrent) =>
          if call < |c.calls| && c.calls[call].stage.Painting? {
            c.Painted(call, isCurrent);
          }
        case Answered(request) =>
          if request < |c.requests| && !c.requests[request].settled {
            c.SettleRequest(request);
          }
        case Cleared(request) =>
          if request < |c.requests| && c.requests[request].settled {
            c.ClearRequest(request);
          }
        case Resumed(call, loaded, isCurrent) =>
          if call < |c.calls| && c.calls[call].stage.Waiting? && c.calls[call].stage.request < |c.requests| {
            if c.requests[c.calls[call].stage.request].settled {
              c.Resume(call, loaded, isCurrent);
            }
          }
      }
    }
  }
}
