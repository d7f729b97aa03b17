/** Choosing the encounter a submission created: the patient's encounters
    are sorted by date, a missing date counting as earliest, and the last
    one after sorting is taken. */
module LastEncounter {
  import opened Wrappers
  import opened Domain

  /** `OpenmrsUtil.compareWithNullAsEarliest` on two encounter dates, as the
      sign `Date.compareTo` gives. */
  function CompareWithNullAsEarliest(a: Option<int>, b: Option<int>): (r: int)
    ensures -1 <= r <= 1
    ensures r == 0 <==> a == b
    ensures r < 0 <==> (a.None? && b.Some?) || (a.Some? && b.Some? && a.value < b.value)
  {
    match (a, b)
    case (None, None) => 0
    case (None, Some(_)) => -1
    case (Some(_), None) => 1
    case (Some(x), Some(y)) => if x < y then -1 else if x == y then 0 else 1
  }

  /** The comparator's order on encounters: `a` sorts no later than `b`. */
  predicate NotAfter(a: Encounter, b: Encounter) {
    CompareWithNullAsEarliest(a.datetime, b.datetime) <= 0
  }

  /** The comparator is antisymmetric in sign and its order is a total
      preorder, which is what `Collections.sort` requires of it. */
  lemma ComparatorIsTotalPreorder(a: Encounter, b: Encounter, c: Encounter)
    ensures CompareWithNullAsEarliest(a.datetime, b.datetime) == -CompareWithNullAsEarliest(b.datetime, a.datetime)
    ensures NotAfter(a, b) || NotAfter(b, a)
    ensures NotAfter(a, b) && NotAfter(b, c) ==> NotAfter(a, c)
  {
  }

  predicate Sorted(s: seq<Encounter>) {
    forall i, j :: 0 <= i < j < |s| ==> NotAfter(s[i], s[j])
  }

  /** Places `e` after every element of `sorted` that sorts no later than
      it, as a stable sort does with the element that comes last. */
  function Insert(sorted: seq<Encounter>, e: Encounter): (r: seq<Encounter>)
    requires Sorted(sorted)
    ensures |r| == |sorted| + 1
    ensures multiset(r) == multiset(sorted) + multiset{e}
    ensures Sorted(r)
    decreases |sorted|
  {
    if |sorted| == 0 then [e]
    else
      var last := sorted[|sorted| - 1];
      if NotAfter(last, e) then
        AppendKeepsSorted(sorted, e);
        sorted + [e]
      else
        var init := sorted[..|sorted| - 1];
        assert sorted == init + [last];
        var front := Insert(init, e);
        AllNotAfter(init, front, e, last);
        AppendKeepsSorted(front, last);
        front + [last]
  }

  /** Appending an element no earlier than the last keeps a list sorted. */
  lemma AppendKeepsSorted(s: seq<Encounter>, e: Encounter)
    requires Sorted(s)
    requires |s| == 0 || NotAfter(s[|s| - 1], e)
    ensures Sorted(s + [e])
  {
    forall i | 0 <= i < |s|
      ensures NotAfter(s[i], e)
    {
      ComparatorIsTotalPreorder(s[i], s[|s| - 1], e);
    }
  }

  /** Every element of `front`, drawn from `init` and `e`, sorts no later
      than `last`. */
  lemma AllNotAfter(init: seq<Encounter>, front: seq<Encounter>, e: Encounter, last: Encounter)
    requires Sorted(init + [last])
    requires multiset(front) == multiset(init) + multiset{e}
    requires !NotAfter(last, e)
    ensures |front| == 0 || NotAfter(front[|front| - 1], last)
  {
    if |front| > 0 {
      var x := front[|front| - 1];
      assert x in multiset(front);
      if x != e {
        assert x in multiset(init);
        var i :| 0 <= i < |init| && init[i] == x;
        assert (init + [last])[i] == x && (init + [last])[|init|] == last;
      } else {
        ComparatorIsTotalPreorder(last, e, last);
      }
    }
  }

  /** The model of `Collections.sort` with the date comparator: an
      insertion sort, stable as `StableSortIsStable` shows. */
  function StableSort(s: seq<Encounter>): (r: seq<Encounter>)
    ensures |r| == |s|
    ensures multiset(r) == multiset(s)
    ensures Sorted(r)
    decreases |s|
  {
    if |s| == 0 then []
    else
      var init := s[..|s| - 1];
      assert s == init + [s[|s| - 1]];
      Insert(StableSort(init), s[|s| - 1])
  }

  /** The encounters of `s` dated `d`, in their order in `s`. */
  function DatedOn(s: seq<Encounter>, d: Option<int>): seq<Encounter>
    decreases |s|
  {
    if |s| == 0 then []
    else DatedOn(s[..|s| - 1], d) + (if s[|s| - 1].datetime == d then [s[|s| - 1]] else [])
  }

  /** Inserting `e` appends it to the encounters of its own date and leaves
      every other date's encounters as they were. */
  lemma {:induction false} InsertIsStable(sorted: seq<Encounter>, e: Encounter, d: Option<int>)
    requires Sorted(sorted)
    ensures DatedOn(Insert(sorted, e), d) == DatedOn(sorted, d) + (if e.datetime == d then [e] else [])
    decreases |sorted|
  {
    if |sorted| == 0 {
      DatedOnSnoc([], e, d);
    } else {
      var last := sorted[|sorted| - 1];
      var init := sorted[..|sorted| - 1];
      if NotAfter(last, e) {
        DatedOnSnoc(sorted, e, d);
      } else {
        InsertIsStable(init, e, d);
        InsertBehindLast(sorted, e, d);
      }
    }
  }

  /** The step of `InsertIsStable` where `e` goes in front of the last
      entry, whose date therefore differs from `e`'s. */
  lemma InsertBehindLast(sorted: seq<Encounter>, e: Encounter, d: Option<int>)
    requires Sorted(sorted) && |sorted| > 0 && !NotAfter(sorted[|sorted| - 1], e)
    requires DatedOn(Insert(sorted[..|sorted| - 1], e), d) ==
               DatedOn(sorted[..|sorted| - 1], d) + (if e.datetime == d then [e] else [])
    ensures DatedOn(Insert(sorted, e), d) == DatedOn(sorted, d) + (if e.datetime == d then [e] else [])
  {
    var last := sorted[|sorted| - 1];
    var front := InsertGoesBehind(sorted, e);
    DatedOnSnoc(front, last, d);
  }

  /** When the last entry sorts after `e`, the insertion recurses in front
      of it, and the two dates differ. */
  lemma InsertGoesBehind(sorted: seq<Encounter>, e: Encounter) returns (front: seq<Encounter>)
    requires Sorted(sorted) && |sorted| > 0 && !NotAfter(sorted[|sorted| - 1], e)
    ensures front == Insert(sorted[..|sorted| - 1], e)
    ensures Insert(sorted, e) == front + [sorted[|sorted| - 1]]
    ensures e.datetime != sorted[|sorted| - 1].datetime
  {
    front := Insert(sorted[..|sorted| - 1], e);
  }

  /** Appending one encounter extends the list of its date only. */
  lemma DatedOnSnoc(s: seq<Encounter>, x: Encounter, d: Option<int>)
    ensures DatedOn(s + [x], d) == DatedOn(s, d) + (if x.datetime == d then [x] else [])
  {
    assert (s + [x])[..|s|] == s;
  }

  /** `Collections.sort` is stable: the encounters of any one date keep the
      order they had in the input. */
  lemma {:induction false} StableSortIsStable(s: seq<Encounter>, d: Option<int>)
    ensures DatedOn(StableSort(s), d) == DatedOn(s, d)
    decreases |s|
  {
    if |s| > 0 {
      var init := s[..|s| - 1];
      StableSortIsStable(init, d);
      StableSortStep(s);
      InsertIsStable(StableSort(init), s[|s| - 1], d);
    }
  }

  /** `getLastEncounter` on the patient's encounter list (`None` for a
      `null` list, which the service is not expected to return): nothing
      for no encounters, the sole one for one, and otherwise the last after
      sorting. */
  function GetLastEncounter(encs: Option<seq<Encounter>>): (r: Option<Encounter>)
    ensures r.None? <==> encs.None? || |encs.value| == 0
    ensures encs.Some? && |encs.value| == 1 ==> r == Some(encs.value[0])
    ensures r.Some? ==> r.value in encs.value
  {
    if encs.None? || |encs.value| == 0 then None
    else if |encs.value| == 1 then Some(encs.value[0])
    else
      var sorted := StableSort(encs.value);
      assert sorted[|sorted| - 1] in multiset(sorted);
      Some(sorted[|sorted| - 1])
  }

  /** Index `i` holds the encounter that sorts last: nothing sorts after it,
      and every later entry is strictly earlier. */
  predicate IsLastLatest(encs: seq<Encounter>, i: int) {
    && 0 <= i < |encs|
    && (forall j :: 0 <= j < |encs| ==> NotAfter(encs[j], encs[i]))
    && (forall j :: i < j < |encs| ==> !NotAfter(encs[i], encs[j]))
  }

  /** At most one index is the last latest. */
  lemma LastLatestIsUnique(encs: seq<Encounter>, i: int, k: int)
    requires IsLastLatest(encs, i) && IsLastLatest(encs, k)
    ensures i == k
  {
    var a, b := encs[i], encs[k];
    assert NotAfter(a, b) && NotAfter(b, a);
  }

  /** The stable sort ends with the last of the latest encounters of the
      original order. */
  lemma {:induction false} SortEndsWithLastLatest(s: seq<Encounter>) returns (i: nat)
    requires |s| > 0
    ensures IsLastLatest(s, i)
    ensures StableSort(s)[|s| - 1] == s[i]
    decreases |s|
  {
    var n := |s| - 1;
    var init := s[..n];
    var x := s[n];
    assert s == init + [x];
    if n == 0 {
      i := 0;
    } else {
      var k := SortEndsWithLastLatest(init);
      var sortedInit := StableSort(init);
      StableSortStep(s);
      if NotAfter(init[k], x) {
        i := n;
        InsertAfterLatest(sortedInit, x);
        LaterLatestTakesOver(init, x, k);
      } else {
        i := k;
        InsertBeforeLatest(sortedInit, x);
        EarlierEntryKeepsLatest(init, x, k);
      }
    }
  }

  lemma StableSortStep(s: seq<Encounter>)
    requires |s| > 0
    ensures StableSort(s) == Insert(StableSort(s[..|s| - 1]), s[|s| - 1])
  {
  }

  /** An entry no earlier than the sorted list's last goes to the end. */
  lemma InsertAfterLatest(sorted: seq<Encounter>, x: Encounter)
    requires Sorted(sorted) && |sorted| > 0
    requires NotAfter(sorted[|sorted| - 1], x)
    ensures Insert(sorted, x)[|sorted|] == x
  {
  }

  /** An entry strictly earlier than the sorted list's last leaves it last. */
  lemma InsertBeforeLatest(sorted: seq<Encounter>, x: Encounter)
    requires Sorted(sorted) && |sorted| > 0
    requires !NotAfter(sorted[|sorted| - 1], x)
    ensures Insert(sorted, x)[|sorted|] == sorted[|sorted| - 1]
  {
  }

  /** Appending an entry no earlier than the last latest makes it the last
      latest. */
  lemma LaterLatestTakesOver(init: seq<Encounter>, x: Encounter, k: int)
    requires IsLastLatest(init, k) && NotAfter(init[k], x)
    ensures IsLastLatest(init + [x], |init|)
  {
    var s := init + [x];
    forall j | 0 <= j < |s|
      ensures NotAfter(s[j], x)
    {
      if j < |init| {
        ComparatorIsTotalPreorder(init[j], init[k], x);
      }
    }
  }

  /** Appending a strictly earlier entry keeps the last latest. */
  lemma EarlierEntryKeepsLatest(init: seq<Encounter>, x: Encounter, k: int)
    requires IsLastLatest(init, k) && !NotAfter(init[k], x)
    ensures IsLastLatest(init + [x], k)
  {
    var s := init + [x];
    ComparatorIsTotalPreorder(x, init[k], x);
    forall j | 0 <= j < |s|
      ensures NotAfter(s[j], s[k])
    {
      if j < |init| {
        assert s[j] == init[j];
      }
    }
    forall j | k < j < |s|
      ensures !NotAfter(s[k], s[j])
    {
      if j < |init| {
        assert s[j] == init[j];
      }
    }
  }

  /** `getLastEncounter` on two or more encounters returns the latest one,
      and among equally late ones the one that came last in the list, since
      the sort is stable. */
  lemma GetLastEncounterPicksLastLatest(encs: seq<Encounter>) returns (i: nat)
    requires |encs| > 0
    ensures IsLastLatest(encs, i)
    ensures GetLastEncounter(Some(encs)) == Some(encs[i])
  {
    i := SortEndsWithLastLatest(encs);
  }
}
