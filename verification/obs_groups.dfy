/** Checking that the members of an obs group are exactly a given bag of
    expected (concept, value) pairs, by the greedy first-unused-match pass. */
module ObsGroups {
  import opened Wrappers
  import opened Domain

  /** The descriptions the given obs fit, in order. */
  function Keys(children: seq<Obs>): (r: seq<ObsValue>)
    ensures |r| == |children|
    ensures forall j :: 0 <= j < |r| ==> r[j] == KeyOf(children[j])
  {
    seq(|children|, j requires 0 <= j < |children| => KeyOf(children[j]))
  }

  /** The reference meaning of a matching group: a grouping whose members,
      taken as a bag, are the expected bag. */
  predicate ChildrenMatch(group: Obs, expected: seq<ObsValue>) {
    && group.IsObsGrouping()
    && |group.groupMembers| == |expected|
    && multiset(Keys(group.groupMembers)) == multiset(expected)
  }

  /** `assignment` sends child `j` to expected entry `assignment[j]` that it
      matches, no entry twice, and every entry is hit. */
  predicate IsBijectiveMatching(children: seq<Obs>, expected: seq<ObsValue>, assignment: seq<nat>) {
    && |assignment| == |children|
    && (forall j :: 0 <= j < |assignment| ==>
          assignment[j] < |expected| && Matches(expected[assignment[j]], children[j]))
    && (forall j, j' :: 0 <= j < j' < |assignment| ==> assignment[j] != assignment[j'])
    && (forall i :: 0 <= i < |expected| ==> i in assignment)
  }

  /** The expected entries whose `alreadyUsed` flag is still clear. */
  function Unused(expected: seq<ObsValue>, used: seq<bool>): multiset<ObsValue>
    requires |used| == |expected|
    decreases |expected|
  {
    if |expected| == 0 then multiset{}
    else (if used[0] then multiset{} else multiset{expected[0]}) + Unused(expected[1..], used[1..])
  }

  lemma {:induction false} UnusedMembers(expected: seq<ObsValue>, used: seq<bool>, x: ObsValue)
    requires |used| == |expected|
    ensures x in Unused(expected, used) <==> exists i :: 0 <= i < |expected| && !used[i] && expected[i] == x
    decreases |expected|
  {
    if |expected| > 0 {
      UnusedMembers(expected[1..], used[1..], x);
      if x in Unused(expected[1..], used[1..]) {
        var i :| 0 <= i < |expected| - 1 && !used[1..][i] && expected[1..][i] == x;
        assert !used[i + 1] && expected[i + 1] == x;
      }
      if exists i :: 0 <= i < |expected| && !used[i] && expected[i] == x {
        var i :| 0 <= i < |expected| && !used[i] && expected[i] == x;
        if i > 0 {
          assert !used[1..][i - 1] && expected[1..][i - 1] == x;
        }
      }
    }
  }

  lemma {:induction false} UnusedAllClear(expected: seq<ObsValue>, used: seq<bool>)
    requires |used| == |expected|
    requires forall i :: 0 <= i < |used| ==> !used[i]
    ensures Unused(expected, used) == multiset(expected)
    decreases |expected|
  {
    if |expected| > 0 {
      UnusedAllClear(expected[1..], used[1..]);
      assert expected == [expected[0]] + expected[1..];
    }
  }

  lemma {:induction false} UnusedMark(expected: seq<ObsValue>, used: seq<bool>, i: nat)
    requires |used| == |expected| && i < |used| && !used[i]
    ensures Unused(expected, used[i := true]) + multiset{expected[i]} == Unused(expected, used)
    decreases |expected|
  {
    if i > 0 {
      UnusedMark(expected[1..], used[1..], i - 1);
      assert used[i := true][1..] == used[1..][i - 1 := true];
    } else {
      assert used[i := true][1..] == used[1..];
    }
  }

  /** The first `|assignment|` children each took a distinct matching entry
      now flagged used, and every flagged entry was taken. */
  ghost predicate Assigned(children: seq<Obs>, expected: seq<ObsValue>, used: seq<bool>, assignment: seq<nat>) {
    && |used| == |expected|
    && |assignment| <= |children|
    && (forall j :: 0 <= j < |assignment| ==>
          assignment[j] < |expected| && used[assignment[j]] && Matches(expected[assignment[j]], children[j]))
    && (forall j, j' :: 0 <= j < j' < |assignment| ==> assignment[j] != assignment[j'])
    && (forall i :: 0 <= i < |used| && used[i] ==> i in assignment)
  }

  /** The clear entries together with the descriptions of the first `c`
      children make up the expected bag. */
  ghost predicate Accounted(children: seq<Obs>, expected: seq<ObsValue>, used: seq<bool>, c: nat) {
    && |used| == |expected|
    && c <= |children|
    && Unused(expected, used) + multiset(Keys(children[..c])) == multiset(expected)
  }

  /** What the greedy pass has established after `|assignment|` children. */
  ghost predicate Progress(children: seq<Obs>, expected: seq<ObsValue>, used: seq<bool>, assignment: seq<nat>) {
    Assigned(children, expected, used, assignment) && Accounted(children, expected, used, |assignment|)
  }

  lemma ProgressStart(children: seq<Obs>, expected: seq<ObsValue>, used: seq<bool>)
    requires |used| == |expected|
    requires forall i :: 0 <= i < |used| ==> !used[i]
    ensures Progress(children, expected, used, [])
  {
    UnusedAllClear(expected, used);
    assert children[..0] == [];
  }

  lemma AssignedStep(children: seq<Obs>, expected: seq<ObsValue>, used: seq<bool>, assignment: seq<nat>, i: nat)
    requires Assigned(children, expected, used, assignment)
    requires |assignment| < |children| && i < |expected| && !used[i]
    requires Matches(expected[i], children[|assignment|])
    ensures Assigned(children, expected, used[i := true], assignment + [i])
  {
    var a' := assignment + [i];
    var u' := used[i := true];
    assert forall j :: 0 <= j < |assignment| ==> assignment[j] != i;
    forall k | 0 <= k < |u'| && u'[k]
      ensures k in a'
    {
      if k != i {
        assert k in assignment;
      }
    }
  }

  lemma {:induction false} AccountedStep(children: seq<Obs>, expected: seq<ObsValue>, used: seq<bool>, c: nat, i: nat)
    requires Accounted(children, expected, used, c)
    requires c < |children| && i < |expected| && !used[i]
    requires Matches(expected[i], children[c])
    ensures Accounted(children, expected, used[i := true], c + 1)
  {
    UnusedMark(expected, used, i);
    MatchesMeansSameKey(expected[i], children[c]);
    assert Keys(children[..c + 1]) == Keys(children[..c]) + [KeyOf(children[c])];
  }

  /** Taking a clear matching entry for the next child keeps `Progress`. */
  lemma ProgressStep(children: seq<Obs>, expected: seq<ObsValue>, used: seq<bool>, assignment: seq<nat>, i: nat)
    requires Progress(children, expected, used, assignment)
    requires |assignment| < |children| && i < |expected| && !used[i]
    requires Matches(expected[i], children[|assignment|])
    ensures Progress(children, expected, used[i := true], assignment + [i])
  {
    AssignedStep(children, expected, used, assignment, i);
    AccountedStep(children, expected, used, |assignment|, i);
  }

  /** A child for which every entry is used or does not match leaves more
      copies of its description among the children than among the expected
      entries. */
  lemma ProgressStuck(children: seq<Obs>, expected: seq<ObsValue>, used: seq<bool>, assignment: seq<nat>)
    requires Progress(children, expected, used, assignment)
    requires |assignment| < |children|
    requires forall i :: 0 <= i < |expected| ==> used[i] || !Matches(expected[i], children[|assignment|])
    ensures multiset(Keys(children)) != multiset(expected)
  {
    var c := |assignment|;
    var k := KeyOf(children[c]);
    forall i | 0 <= i < |expected| && !used[i]
      ensures expected[i] != k
    {
      MatchesMeansSameKey(expected[i], children[c]);
    }
    UnusedMembers(expected, used, k);
    assert Keys(children) == Keys(children[..c]) + [k] + Keys(children[c + 1..]);
    assert multiset(Keys(children))[k] >= multiset(Keys(children[..c]))[k] + 1;
  }

  /** With every child placed and as many children as entries, the bags
      agree and the assignment is a bijection. */
  lemma ProgressDone(children: seq<Obs>, expected: seq<ObsValue>, used: seq<bool>, assignment: seq<nat>)
    requires Progress(children, expected, used, assignment)
    requires |assignment| == |children| == |expected|
    ensures multiset(Keys(children)) == multiset(expected)
    ensures IsBijectiveMatching(children, expected, assignment)
  {
    assert children[..|assignment|] == children;
    assert |multiset(Keys(children))| == |expected| == |multiset(expected)|;
    assert |Unused(expected, used)| == 0;
    forall i | 0 <= i < |expected|
      ensures i in assignment
    {
      UnusedMembers(expected, used, expected[i]);
    }
  }

  /** `isMatchingObsGroup`. The children are visited in the order given; each
      takes the first expected entry it matches whose `alreadyUsed` flag is
      clear, and a child that finds none makes the answer false. Since a
      match is agreement of (concept, value), the greedy pass succeeds
      exactly when the two bags agree, whatever the visiting order. */
  method IsMatchingObsGroup(group: Obs, expected: seq<ObsValue>) returns (r: bool, ghost assignment: seq<nat>)
    ensures !group.IsObsGrouping() ==> !r
    ensures |group.groupMembers| != |expected| ==> !r
    ensures r <==> ChildrenMatch(group, expected)
    ensures r ==> IsBijectiveMatching(group.groupMembers, expected, assignment)
  {
    assignment := [];
    if !group.IsObsGrouping() {
      return false, assignment;
    }
    var children := group.groupMembers;
    if |children| != |expected| {
      return false, assignment;
    }
    var n := |expected|;
    var alreadyUsed := new bool[n](_ => false);
    ProgressStart(children, expected, alreadyUsed[..]);
    var c := 0;
    while c < |children|
      invariant 0 <= c <= |children| && |assignment| == c
      invariant Progress(children, expected, alreadyUsed[..], assignment)
    {
      var child := children[c];
      ghost var before := alreadyUsed[..];
      var foundMatch := false;
      var i := 0;
      while i < n
        invariant 0 <= i <= n
        invariant !foundMatch && alreadyUsed[..] == before
        invariant forall i' :: 0 <= i' < i ==> alreadyUsed[i'] || !Matches(expected[i'], child)
      {
        if alreadyUsed[i] {
          i := i + 1;
          continue;
        }
        if Matches(expected[i], child) {
          foundMatch := true;
          alreadyUsed[i] := true;
          break;
        }
        i := i + 1;
      }
      if !foundMatch {
        ProgressStuck(children, expected, before, assignment);
        return false, assignment;
      }
      assert alreadyUsed[..] == before[i := true];
      ProgressStep(children, expected, before, assignment, i);
      assignment := assignment + [i];
      c := c + 1;
    }
    ProgressDone(children, expected, alreadyUsed[..], assignment);
    return true, assignment;
  }

  /** `ObsValue.matches` as written compares the two concept ids with `!=`,
      which on two `java.lang.Integer` references is object identity.
      `sameObject` says whether the two ids are one `Integer` object. That
      forces equal values, but equal values need not share an object: it
      depends on how each side was created, so it is left a parameter. The
      identity test never accepts more than the value comparison, and
      accepts the same when the ids are one object. */
  function MatchesAsWritten(expected: ObsValue, o: Obs, sameObject: bool): (r: bool)
    requires sameObject ==> expected.conceptId == o.conceptId
    ensures r ==> Matches(expected, o)
    ensures sameObject ==> (r <==> Matches(expected, o))
  {
    sameObject && NullSafeEquals(expected.value, o.valueString)
  }

  /** Two separately boxed equal ids outside the `Integer` cache of
      -128..127 are different objects: an expected child with concept 5089
      and no value is refused by the identity test although it describes
      the obs exactly. */
  lemma MatchesAsWrittenRefusesBoxedId()
    ensures var o := Obs(5089, false, None, []);
            Matches(ObsValue(5089, None), o) && !MatchesAsWritten(ObsValue(5089, None), o, false)
  {
  }
}
