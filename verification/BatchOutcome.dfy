/** Normalisation of the results a pipeline backend returns for a batch
    (src-tauri/src/media.rs): one result for each requested item, in the order of the request. */
module BatchOutcome {
  import opened Prelude

  datatype Error = ContractViolation | Reported(text: string)

  datatype ItemResult = Success(item: string, value: string) | Failure(item: string, error: Error)

  datatype Outcome = Outcome(results: seq<ItemResult>, operationError: Option<Error>)

  function Items(results: seq<ItemResult>): seq<string> {
    seq(|results|, i requires 0 <= i < |results| => results[i].item)
  }

  /** How often the backend answered for an item. */
  function Answers(results: seq<ItemResult>, item: string): nat {
    if results == [] then 0
    else Answers(results[..|results| - 1], item) + if results[|results| - 1].item == item then 1 else 0
  }

  /** The last answer for an item, which is the only one if there is one. */
  function AnswerFor(results: seq<ItemResult>, item: string): (r: ItemResult)
    requires Answers(results, item) > 0
    ensures r in results && r.item == item
  {
    if results[|results| - 1].item == item then results[|results| - 1]
    else AnswerFor(results[..|results| - 1], item)
  }

  /** What the caller gets for one item. */
  function ResultFor(results: seq<ItemResult>, item: string): ItemResult {
    if Answers(results, item) == 1 then AnswerFor(results, item) else Failure(item, ContractViolation)
  }

  function ResultsFor(requested: seq<string>, results: seq<ItemResult>): (r: seq<ItemResult>)
    ensures |r| == |requested|
    ensures forall i :: 0 <= i < |r| ==> r[i] == ResultFor(results, requested[i])
  {
    seq(|requested|, i requires 0 <= i < |requested| => ResultFor(results, requested[i]))
  }

  /** Every requested item answered once, and nothing else answered. */
  predicate KeepsContract(requested: seq<string>, results: seq<ItemResult>) {
    && (forall r :: r in results ==> r.item in requested)
    && forall item :: item in requested ==> Answers(results, item) == 1
  }

  function Normalized(requested: seq<string>, outcome: Outcome): Outcome {
    Outcome(ResultsFor(requested, outcome.results),
            if outcome.operationError.None? && !KeepsContract(requested, outcome.results) then Some(ContractViolation)
            else outcome.operationError)
  }

  // ---------------------------------------------------------------- counting

  lemma AnswersGrow(results: seq<ItemResult>, i: nat, item: string)
    requires i < |results|
    ensures Answers(results[..i + 1], item) == Answers(results[..i], item) + if results[i].item == item then 1 else 0
    ensures results[i].item == item ==> AnswerFor(results[..i + 1], item) == results[i]
    ensures results[i].item != item && Answers(results[..i], item) > 0 ==>
              AnswerFor(results[..i + 1], item) == AnswerFor(results[..i], item)
  {
    assert results[..i + 1][..i] == results[..i];
  }

  lemma {:induction false} AnswersAreCounted(results: seq<ItemResult>, item: string)
    ensures Answers(results, item) == multiset(Items(results))[item]
  {
    if results == [] {
      assert Items(results) == [];
    } else {
      var before, last := results[..|results| - 1], results[|results| - 1];
      AnswersAreCounted(before, item);
      assert Items(results) == Items(before) + [last.item];
    }
  }

  lemma {:induction false} SomeAnswer(results: seq<ItemResult>, item: string)
    ensures Answers(results, item) > 0 <==> exists r :: r in results && r.item == item
  {
    if results != [] {
      var before, last := results[..|results| - 1], results[|results| - 1];
      SomeAnswer(before, item);
      assert results == before + [last];
      assert last in results && forall r :: r in before ==> r in results;
    }
  }

  /** Distinct items that each answer for themselves are each answered once. */
  lemma {:induction false} OneAnswerEach(requested: seq<string>, results: seq<ItemResult>, i: nat)
    requires NoDuplicates(requested) && |results| == |requested| && i < |requested|
    requires forall k :: 0 <= k < |results| ==> results[k].item == requested[k]
    ensures Answers(results, requested[i]) == 1 && AnswerFor(results, requested[i]) == results[i]
  {
    AnswersAreCounted(results, requested[i]);
    assert Items(results) == requested;
    DistinctCount(requested, i);
    assert AnswerFor(results, requested[i]) in results;
  }

  lemma {:induction false} DistinctCount(items: seq<string>, i: nat)
    requires NoDuplicates(items) && i < |items|
    ensures multiset(items)[items[i]] == 1
  {
    var before, last := items[..|items| - 1], items[|items| - 1];
    assert items == before + [last];
    if i < |before| {
      DistinctCount(before, i);
      assert before[i] == items[i];
    } else {
      assert last !in before;
    }
  }

  // ---------------------------------------------------------------- normalize_pipeline_batch_outcome

  /** What the first pass knows about one item after n results. */
  ghost predicate ItemCollected(
    requested: seq<string>, results: seq<ItemResult>, n: nat, returned: map<string, ItemResult>,
    invalid: set<string>, item: string)
    requires n <= |results|
  {
    var answers := Answers(results[..n], item);
    && (item in returned <==> item in requested && answers > 0)
    && (item in returned ==> returned[item] == AnswerFor(results[..n], item))
    && (item in invalid <==> item in requested && answers > 1)
  }

  ghost predicate SomeForeign(requested: seq<string>, results: seq<ItemResult>, n: nat)
    requires n <= |results|
  {
    exists k :: 0 <= k < n && results[k].item !in requested
  }

  lemma ItemStep(requested: seq<string>, results: seq<ItemResult>, n: nat, returned: map<string, ItemResult>,
                 invalid: set<string>, item: string)
    requires n < |results| && ItemCollected(requested, results, n, returned, invalid, item)
    ensures var r := results[n];
            ItemCollected(requested, results, n + 1,
                          if r.item in requested then returned[r.item := r] else returned,
                          if r.item in requested && r.item in returned then invalid + {r.item} else invalid, item)
  {
    AnswersGrow(results, n, item);
    hide Answers, AnswerFor;
  }

  method Collect(requested: seq<string>, results: seq<ItemResult>)
    returns (returned: map<string, ItemResult>, invalid: set<string>, violation: bool)
    ensures forall item :: ItemCollected(requested, results, |results|, returned, invalid, item)
    ensures violation <==> SomeForeign(requested, results, |results|) || invalid != {}
  {
    hide ItemCollected;
    returned, invalid, violation := map[], {}, false;
    NothingCollected(requested, results);
    var n := 0;
    while n < |results|
      invariant n <= |results|
      invariant forall item :: ItemCollected(requested, results, n, returned, invalid, item)
      invariant violation <==> SomeForeign(requested, results, n) || invalid != {}
    {
      var item := results[n].item;
      ghost var returned' := if item in requested then returned[item := results[n]] else returned;
      ghost var invalid' := if item in requested && item in returned then invalid + {item} else invalid;
      ghost var n' := n + 1;
      forall other ensures ItemCollected(requested, results, n', returned', invalid', other) {
        ItemStep(requested, results, n, returned, invalid, other);
      }
      assert SomeForeign(requested, results, n + 1) <==> SomeForeign(requested, results, n) || item !in requested;
      if item !in requested {
        violation := true;
      } else {
        if item in returned {
          invalid := invalid + {item};
          violation := true;
        }
        returned := returned[item := results[n]];
      }
      n := n + 1;
    }
  }

  lemma NothingCollected(requested: seq<string>, results: seq<ItemResult>)
    ensures forall item :: ItemCollected(requested, results, 0, map[], {}, item)
  {
  }

  /** The second pass: one result for each requested item. */
  method Assemble(requested: seq<string>, ghost source: seq<ItemResult>, collected: map<string, ItemResult>,
                  invalid: set<string>)
    returns (results: seq<ItemResult>, missing: bool, rest: map<string, ItemResult>)
    requires NoDuplicates(requested)
    requires forall item :: ItemCollected(requested, source, |source|, collected, invalid, item)
    ensures results == ResultsFor(requested, source)
    ensures missing <==> exists item :: item in requested && Answers(source, item) == 0
    ensures rest == map[]
  {
    assert source[..|source|] == source;
    results, missing, rest := [], false, collected;
    var i := 0;
    while i < |requested|
      invariant i <= |requested| && |results| == i
      invariant forall k :: 0 <= k < i ==> results[k] == ResultFor(source, requested[k])
      invariant rest == collected - ToSet(requested[..i])
      invariant missing <==> exists k :: 0 <= k < i && Answers(source, requested[k]) == 0
    {
      hide Answers, AnswerFor;
      var item := requested[i];
      assert ItemCollected(requested, source, |source|, collected, invalid, item);
      assert item !in requested[..i];
      assert ToSet(requested[..i + 1]) == ToSet(requested[..i]) + {item};
      if item in invalid {
        results := results + [Failure(item, ContractViolation)];
      } else if item in rest {
        results := results + [rest[item]];
      } else {
        missing := true;
        results := results + [Failure(item, ContractViolation)];
      }
      rest := rest - {item};
      i := i + 1;
    }
    assert requested[..i] == requested;
    forall item | item in collected ensures item in ToSet(requested) {
      assert ItemCollected(requested, source, |source|, collected, invalid, item);
    }
  }

  method NormalizeOutcome(requested: seq<string>, outcome: Outcome) returns (normalized: Outcome)
    requires NoDuplicates(requested)
    ensures normalized == Normalized(requested, outcome)
  {
    var returned, invalid, violation := Collect(requested, outcome.results);
    var results, missing, rest := Assemble(requested, outcome.results, returned, invalid);
    ContractIsChecked(requested, outcome.results, returned, invalid);
    var operationError := outcome.operationError;
    if (violation || missing || rest != map[]) && operationError.None? {
      operationError := Some(ContractViolation);
    }
    normalized := Outcome(results, operationError);
  }

  lemma ContractIsChecked(requested: seq<string>, results: seq<ItemResult>, returned: map<string, ItemResult>,
                          invalid: set<string>)
    requires forall item :: ItemCollected(requested, results, |results|, returned, invalid, item)
    ensures KeepsContract(requested, results) <==>
              && !SomeForeign(requested, results, |results|) && invalid == {}
              && !exists item :: item in requested && Answers(results, item) == 0
  {
    hide Answers, AnswerFor;
    assert results[..|results|] == results;
    assert SomeForeign(requested, results, |results|) <==> exists r :: r in results && r.item !in requested by {
      assert forall k :: 0 <= k < |results| ==> results[k] in results;
    }
    assert forall item :: item in invalid ==> item in requested && Answers(results, item) > 1 by {
      forall item | item in invalid ensures item in requested && Answers(results, item) > 1 {
        assert ItemCollected(requested, results, |results|, returned, invalid, item);
      }
    }
    assert forall item :: item in requested && Answers(results, item) > 1 ==> item in invalid by {
      forall item | item in requested && Answers(results, item) > 1 ensures item in invalid {
        assert ItemCollected(requested, results, |results|, returned, invalid, item);
      }
    }
    hide ItemCollected, SomeForeign;
  }

  // ---------------------------------------------------------------- the contract with the caller

  /** The requested items, in their order: the single answer for an item, success or failure, or a
      contract violation if there was none or more than one. */
  lemma ExactlyTheRequest(requested: seq<string>, outcome: Outcome, i: nat)
    requires i < |requested|
    ensures var out := Normalized(requested, outcome);
            && Items(out.results) == requested
            && (out.results[i].Success? <==>
                  multiset(Items(outcome.results))[requested[i]] == 1
                  && exists r :: r in outcome.results && r.item == requested[i] && r.Success?)
            && (if multiset(Items(outcome.results))[requested[i]] == 1
                then out.results[i] in outcome.results && out.results[i].item == requested[i]
                else out.results[i] == Failure(requested[i], ContractViolation))
  {
    var item := requested[i];
    AnswersAreCounted(outcome.results, item);
    assert Items(Normalized(requested, outcome).results) == requested;
    if Answers(outcome.results, item) == 1 {
      forall r | r in outcome.results && r.item == item ensures r == AnswerFor(outcome.results, item) {
        OnlyAnswer(outcome.results, item, r);
      }
    }
  }

  lemma {:induction false} OnlyAnswer(results: seq<ItemResult>, item: string, r: ItemResult)
    requires Answers(results, item) == 1 && r in results && r.item == item
    ensures r == AnswerFor(results, item)
  {
    var before, last := results[..|results| - 1], results[|results| - 1];
    assert results == before + [last];
    if last.item == item {
      SomeAnswer(before, item);
    } else {
      OnlyAnswer(before, item, r);
    }
  }

  /** The contract is kept exactly by a permutation of the request. */
  lemma ContractMeansPermutation(requested: seq<string>, results: seq<ItemResult>)
    requires NoDuplicates(requested)
    ensures KeepsContract(requested, results) <==> multiset(Items(results)) == multiset(requested)
  {
    forall item ensures Answers(results, item) == multiset(Items(results))[item] {
      AnswersAreCounted(results, item);
    }
    forall item | item in requested ensures multiset(requested)[item] == 1 {
      var i :| 0 <= i < |requested| && requested[i] == item;
      DistinctCount(requested, i);
    }
    if KeepsContract(requested, results) {
      forall item ensures multiset(Items(results))[item] == multiset(requested)[item] {
        SomeAnswer(results, item);
      }
    } else if r :| r in results && r.item !in requested {
      SomeAnswer(results, r.item);
    }
  }

  /** A batch error is there whenever the results were not a permutation of the request, and
      otherwise it is the one the backend reported. */
  lemma ErrorUnlessPermutation(requested: seq<string>, outcome: Outcome)
    requires NoDuplicates(requested)
    ensures var out := Normalized(requested, outcome);
            out.operationError.None? <==>
              outcome.operationError.None? && multiset(Items(outcome.results)) == multiset(requested)
    ensures outcome.operationError.Some? ==> Normalized(requested, outcome).operationError == outcome.operationError
  {
    ContractMeansPermutation(requested, outcome.results);
  }

  /** Normalising twice is normalising once. */
  lemma NormalizingTwice(requested: seq<string>, outcome: Outcome)
    requires NoDuplicates(requested)
    ensures Normalized(requested, Normalized(requested, outcome)) == Normalized(requested, outcome)
  {
    var once := Normalized(requested, outcome);
    var results := once.results;
    forall i | 0 <= i < |requested| ensures ResultFor(results, requested[i]) == results[i] {
      OneAnswerEach(requested, results, i);
    }
    assert ResultsFor(requested, results) == results;
    assert Items(results) == requested;
    ContractMeansPermutation(requested, results);
  }
}
