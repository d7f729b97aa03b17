/** The host application's clinical records, reduced to what the test helper
    reads from them. */
module Domain {
  import opened Wrappers

  /** An observation. `hasValue` says whether any of its typed value fields
      (coded, complex, datetime, drug, numeric, text) is set; `valueString`
      is what `getValueAsString` reports for it, taken as given;
      `groupMembers` lists the members of an obs group in the order their
      set is iterated. */
  datatype Obs = Obs(conceptId: int, hasValue: bool, valueString: Option<string>, groupMembers: seq<Obs>) {
    /** An obs is a grouping when it has group members. */
    predicate IsObsGrouping() {
      |groupMembers| > 0
    }
  }

  /** One expected child of an obs group: a concept id and the expected value
      already rendered as a string. A `null` value matches only an obs whose
      value string is `null`. */
  datatype ObsValue = ObsValue(conceptId: int, value: Option<string>)

  /** An encounter: its date (`null` allowed), the collection `getAllObs`
      returns and the collection of non-group obs `getObs` returns (either
      may be `null`). */
  datatype Encounter = Encounter(datetime: Option<int>, allObs: Option<seq<Obs>>, leafObs: Option<seq<Obs>>)

  /** `OpenmrsUtil.nullSafeEquals` on two strings. */
  function NullSafeEquals(a: Option<string>, b: Option<string>): (r: bool)
    ensures r <==> (a.None? && b.None?) || (a.Some? && b.Some? && a.value == b.value)
  {
    match (a, b)
    case (None, None) => true
    case (Some(x), Some(y)) => x == y
    case _ => false
  }

  /** The expected description an obs fits exactly. */
  function KeyOf(o: Obs): ObsValue {
    ObsValue(o.conceptId, o.valueString)
  }

  /** `ObsValue.matches`, comparing the concept ids by value. */
  function Matches(expected: ObsValue, o: Obs): (r: bool)
    ensures r ==> expected.conceptId == o.conceptId
    ensures r ==> (expected.value.None? <==> o.valueString.None?)
  {
    o.conceptId == expected.conceptId && NullSafeEquals(expected.value, o.valueString)
  }

  /** A match is exactly agreement of concept id and value string, with a
      missing value matching only a missing value. */
  lemma MatchesMeansSameKey(expected: ObsValue, o: Obs)
    ensures Matches(expected, o) <==> expected == KeyOf(o)
    ensures Matches(expected, o) ==> expected.conceptId == o.conceptId
    ensures Matches(expected, o) ==> (expected.value.None? <==> o.valueString.None?)
  {
  }
}
