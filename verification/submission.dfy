/** The outcome of one simulated form submission and the checks made on the
    encounter it created: obs counts, the search for one obs and the search
    for one obs group. */
module Submission {
  import opened Wrappers
  import opened Domain
  import opened ObsGroups

  /** A validation error: the id of the widget it concerns and its message. */
  datatype FormSubmissionError = FormSubmissionError(id: string, error: string)

  /** `SubmissionResults`: the validation errors (`null` when validation was
      skipped) and the encounter found after the submission, if any. */
  datatype SubmissionResults = SubmissionResults(validationErrors: Option<seq<FormSubmissionError>>, encounterCreated: Option<Encounter>)

  /** The obs collection `getAllObs` returns, when there is one. */
  function AllObs(results: SubmissionResults): Option<seq<Obs>> {
    if results.encounterCreated.None? then None else results.encounterCreated.value.allObs
  }

  /** How many of `s` are groupings, counted from the front. */
  function Groupings(s: seq<Obs>): nat
    decreases |s|
  {
    if |s| == 0 then 0
    else Groupings(s[..|s| - 1]) + (if s[|s| - 1].IsObsGrouping() then 1 else 0)
  }

  /** A grouping count never exceeds the number of obs, and reaches it only
      when every obs is a grouping. */
  lemma {:induction false} GroupingsBounded(s: seq<Obs>)
    ensures Groupings(s) <= |s|
    ensures Groupings(s) == |s| <==> forall i :: 0 <= i < |s| ==> s[i].IsObsGrouping()
    ensures Groupings(s) == 0 <==> forall i :: 0 <= i < |s| ==> !s[i].IsObsGrouping()
    decreases |s|
  {
    if |s| > 0 {
      var init := s[..|s| - 1];
      GroupingsBounded(init);
      assert forall i :: 0 <= i < |init| ==> init[i] == s[i];
    }
  }

  /** `getObsCreatedCount`: the size of `getAllObs`, 0 when no encounter was
      created or the collection is `null`. */
  function ObsCreatedCount(results: SubmissionResults): (n: nat)
    ensures AllObs(results).None? ==> n == 0
    ensures AllObs(results).Some? ==> n == |AllObs(results).value|
  {
    match AllObs(results)
    case None => 0
    case Some(all) => |all|
  }

  /** `getObsGroupCreatedCount`: the loop over `getAllObs` counting the
      groupings. */
  method ObsGroupCreatedCount(results: SubmissionResults) returns (count: nat)
    ensures AllObs(results).None? ==> count == 0
    ensures AllObs(results).Some? ==> count == Groupings(AllObs(results).value)
    ensures count <= ObsCreatedCount(results)
  {
    if results.encounterCreated.None? {
      return 0;
    }
    var temp := results.encounterCreated.value.allObs;
    if temp.None? {
      return 0;
    }
    var all := temp.value;
    count := 0;
    var i := 0;
    while i < |all|
      invariant 0 <= i <= |all|
      invariant count == Groupings(all[..i])
      invariant count <= i
    {
      assert all[..i + 1][..i] == all[..i];
      if all[i].IsObsGrouping() {
        count := count + 1;
      }
      i := i + 1;
    }
    assert all[..i] == all;
  }

  /** `getObsLeafCreatedCount`: the size of `getObs`, 0 when no encounter was
      created or the collection is `null`. */
  function ObsLeafCreatedCount(results: SubmissionResults): (n: nat)
    ensures results.encounterCreated.None? || results.encounterCreated.value.leafObs.None? ==> n == 0
    ensures results.encounterCreated.Some? && results.encounterCreated.value.leafObs.Some? ==>
              n == |results.encounterCreated.value.leafObs.value|
  {
    if results.encounterCreated.None? then 0
    else
      match results.encounterCreated.value.leafObs
      case None => 0
      case Some(leaves) => |leaves|
  }

  /** Without an encounter every count is 0. */
  method CountsWithoutEncounter(results: SubmissionResults) returns (total: nat, groups: nat, leaves: nat)
    requires results.encounterCreated.None?
    ensures total == 0 && groups == 0 && leaves == 0
  {
    total := ObsCreatedCount(results);
    groups := ObsGroupCreatedCount(results);
    leaves := ObsLeafCreatedCount(results);
  }

  /** The search loop of `assertObsCreated` over `all`: an obs with the
      concept id whose value string equals `value`, any value when `value`
      is `null`. */
  function FindObs(all: seq<Obs>, conceptId: int, value: Option<string>): (found: bool)
    ensures found <==> exists i :: 0 <= i < |all| && all[i].conceptId == conceptId &&
                                   (value.None? || value == all[i].valueString)
    decreases |all|
  {
    if |all| == 0 then false
    else if all[0].conceptId == conceptId && (value.None? || value == all[0].valueString) then true
    else
      assert forall i :: 1 <= i < |all| ==> all[i] == all[1..][i - 1];
      FindObs(all[1..], conceptId, value)
  }

  /** `assertObsCreated` as a verdict: an encounter with a non-`null` obs
      collection holding a fitting obs. `value` is the expected value already
      rendered as a string. */
  function ObsCreatedPasses(results: SubmissionResults, conceptId: int, value: Option<string>): (r: bool)
    ensures r ==> results.encounterCreated.Some? && ObsCreatedCount(results) > 0
  {
    AllObs(results).Some? && FindObs(AllObs(results).value, conceptId, value)
  }

  /** An obs whose value string is `null` satisfies only an expectation of
      any value. */
  lemma ObsCreatedNullValue(results: SubmissionResults, conceptId: int, value: Option<string>)
    requires AllObs(results).Some?
    requires forall o :: o in AllObs(results).value ==> o.valueString.None?
    ensures ObsCreatedPasses(results, conceptId, value) ==> value.None?
  {
    var all := AllObs(results).value;
    if ObsCreatedPasses(results, conceptId, value) {
      var i :| 0 <= i < |all| && all[i].conceptId == conceptId && (value.None? || value == all[i].valueString);
      assert all[i] in all;
    }
  }

  /** The search loop of `assertObsGroupCreated`: the first obs with the
      grouping concept decides, failing if it carries a value of its own
      and passing if its members match; otherwise the search goes on.
      Members are matched with the concept ids compared by value
      (`ChildrenMatch`), not by the `Integer` identity test of
      `ObsValue.matches`, which can refuse a group this search accepts. */
  function FindObsGroup(all: seq<Obs>, groupingConceptId: int, expected: seq<ObsValue>): (found: bool)
    ensures found ==> exists i :: 0 <= i < |all| && all[i].conceptId == groupingConceptId && !all[i].hasValue &&
                                  ChildrenMatch(all[i], expected)
    decreases |all|
  {
    if |all| == 0 then false
    else if all[0].conceptId == groupingConceptId && all[0].hasValue then false
    else if all[0].conceptId == groupingConceptId && ChildrenMatch(all[0], expected) then true
    else
      var found := FindObsGroup(all[1..], groupingConceptId, expected);
      assert found ==> exists i :: 1 <= i < |all| && all[i] == all[1..][i - 1] && all[i].conceptId == groupingConceptId &&
                                  !all[i].hasValue && ChildrenMatch(all[i], expected);
      found
  }

  /** An obs that can stop the group search: one with the grouping concept
      that has a value or matching members. */
  predicate Decides(o: Obs, groupingConceptId: int, expected: seq<ObsValue>) {
    o.conceptId == groupingConceptId && (o.hasValue || ChildrenMatch(o, expected))
  }

  /** The group search passes exactly when some obs with the grouping
      concept has no value and matching members, and no obs before it with
      that concept carries a value. */
  lemma {:induction false} FindObsGroupMeaning(all: seq<Obs>, groupingConceptId: int, expected: seq<ObsValue>)
    ensures FindObsGroup(all, groupingConceptId, expected) <==>
              exists i :: 0 <= i < |all| && all[i].conceptId == groupingConceptId && !all[i].hasValue &&
                          ChildrenMatch(all[i], expected) &&
                          forall j :: 0 <= j < i && all[j].conceptId == groupingConceptId ==> !all[j].hasValue
    decreases |all|
  {
    if |all| > 0 {
      FindObsGroupMeaning(all[1..], groupingConceptId, expected);
      var rest := all[1..];
      assert forall i :: 1 <= i < |all| ==> all[i] == rest[i - 1];
      if FindObsGroup(all, groupingConceptId, expected) && !Decides(all[0], groupingConceptId, expected) {
        var i :| 0 <= i < |rest| && rest[i].conceptId == groupingConceptId && !rest[i].hasValue &&
                  ChildrenMatch(rest[i], expected) &&
                  forall j :: 0 <= j < i && rest[j].conceptId == groupingConceptId ==> !rest[j].hasValue;
        assert all[i + 1] == rest[i];
      }
    }
  }

  /** `assertObsGroupCreated` as a verdict, with the expected children already
      paired up: an encounter with a non-`null` obs collection in which the
      group search passes. */
  function ObsGroupCreatedPasses(results: SubmissionResults, groupingConceptId: int, expected: seq<ObsValue>): (r: bool)
    ensures r ==> AllObs(results).Some? && Groupings(AllObs(results).value) > 0
  {
    if AllObs(results).None? then false
    else
      var all := AllObs(results).value;
      GroupingsBounded(all);
      FindObsGroup(all, groupingConceptId, expected)
  }

  /** A group created by the submission passes when it is the only obs with
      its concept, has no value and its members fit `expected`. */
  lemma ObsGroupCreatedFindsSoleGroup(results: SubmissionResults, g: nat, expected: seq<ObsValue>)
    requires AllObs(results).Some? && g < |AllObs(results).value|
    requires !AllObs(results).value[g].hasValue
    requires ChildrenMatch(AllObs(results).value[g], expected)
    requires forall j :: 0 <= j < |AllObs(results).value| && j != g ==>
               AllObs(results).value[j].conceptId != AllObs(results).value[g].conceptId
    ensures ObsGroupCreatedPasses(results, AllObs(results).value[g].conceptId, expected)
  {
    FindObsGroupMeaning(AllObs(results).value, AllObs(results).value[g].conceptId, expected);
  }
}
