# RegressionTestHelper, modelled in Dafny

The HTML Form Entry module's regression tests run forms through a helper,
`RegressionTestHelper`. It renders a form, finds the generated widget names next
to given labels, submits the form, finds the encounter it created and then
checks the observations (obs) stored in it. This project models the helper's
self-contained logic as pure Dafny functions over abstract records and proves
what that logic guarantees:

- **Widget lookup** (`getLabeledWidgets`), in `LabeledWidgets`. It is written on
  top of a model of the `java.lang.String` operations the helper uses, in
  `JavaStrings`: `indexOf`, with -1 on a miss and a negative start counted as 0,
  `substring`, with its exceptions, ASCII `toLowerCase`, and the regex class `\s`.
- **Obs-group matching** (`isMatchingObsGroup` and `ObsValue.matches`), in
  `Domain` and `ObsGroups`. The greedy `alreadyUsed` pass is an imperative
  method with loop invariants. With concept ids compared by value, it is
  proved to accept exactly when the group's members equal the expected
  (concept, value) pairs as a bag. On acceptance it
  yields a bijection from children to expected entries.
- **Fuzzy HTML comparison** (`fuzzyEqualsHelper`, `assertFuzzyEquals`), in
  `FuzzyHtml`. All five normalisation steps are modelled. They include two
  `replaceAll("open(.*)close", "$1")` steps and one
  `replaceAll("open.*close", "")` step, which follow Java regex semantics:
  the leftmost match wins, `.` stops at the line terminators
  `\n \r U+0085 U+2028 U+2029`, and the greedy `.*` backs off to the last
  `close` on that line.
- **Latest encounter** (`getLastEncounter`), in `LastEncounter`.
  `Collections.sort` with the `compareWithNullAsEarliest` comparator is modelled
  as a stable insertion sort.
- **Submission results** (`SubmissionResults`), in `Submission`: the three obs
  counts, and the `assertObsCreated` / `assertObsGroupCreated` searches as
  boolean verdicts.

A JUnit assertion becomes a predicate saying whether it would pass. Host objects
are plain records (see `Domain`):

- An obs is its concept id, whether it carries a value, its value rendered as a
  string, and its group members.
- An encounter is its date and its two obs collections. Any of these may be
  `null`, which the model writes as `None`.

## Model

| member | source | states |
|---|---|---|
| JavaStrings.IndexOf | test/org/openmrs/module/htmlformentry/RegressionTestHelper.java:188-192 | `indexOf(str, from)` answers -1 or a position where the pattern occurs, not before a start inside the text; the empty pattern is always found, even past the end |
| JavaStrings.IndexOfIsFirst | test/org/openmrs/module/htmlformentry/RegressionTestHelper.java:188-192 | that position is the first occurrence at or after the start (a negative start counting as 0), and -1 comes exactly when a non-empty pattern does not occur there |
| JavaStrings.IndexOfChar | test/org/openmrs/module/htmlformentry/RegressionTestHelper.java:193-194 | `indexOf(ch, from)` answers -1 or an index inside the text, at or after the start, holding the character |
| JavaStrings.IndexOfCharIsFirst | test/org/openmrs/module/htmlformentry/RegressionTestHelper.java:193-194 | that index is the first holding the character, and -1 comes exactly when no index at or after the start holds it |
| JavaStrings.Substring | test/org/openmrs/module/htmlformentry/RegressionTestHelper.java:194 | `substring(begin, end)` succeeds exactly when `0 <= begin <= end <= length` and then holds those characters; otherwise it throws |
| JavaStrings.ToLowerAscii | test/org/openmrs/module/htmlformentry/RegressionTestHelper.java:516 | lower-casing keeps the length and maps each upper-case ASCII letter to its lower-case form, leaving other characters alone |
| JavaStrings.RemoveWhitespace | test/org/openmrs/module/htmlformentry/RegressionTestHelper.java:519 | `replaceAll("\\s", "")` leaves no whitespace, uses only characters of the input and keeps every non-whitespace character |
| JavaStrings.RemoveWhitespaceAppend | test/org/openmrs/module/htmlformentry/RegressionTestHelper.java:519 | deleting whitespace from a joined text is deleting it from each part; with the single-character case this fixes the result as the input minus its whitespace, in order |
| JavaStrings.RemoveWhitespaceOneChar | test/org/openmrs/module/htmlformentry/RegressionTestHelper.java:519 | a single character is deleted exactly when it is one of `[ \t\n\x0B\f\r]` |
| JavaStrings.RemoveWhitespaceKeepsPlainText | test/org/openmrs/module/htmlformentry/RegressionTestHelper.java:519 | a text without whitespace is left unchanged |
| JavaStrings.ToLowerAsciiIdempotent | test/org/openmrs/module/htmlformentry/RegressionTestHelper.java:516 | lower-casing an already lower-cased text changes nothing |
| LabeledWidgets.WidgetAfter | test/org/openmrs/module/htmlformentry/RegressionTestHelper.java:188-197 | a lookup for one label can succeed only when the label occurs in the page |
| LabeledWidgets.GetLabeledWidgets | test/org/openmrs/module/htmlformentry/RegressionTestHelper.java:185-200 | the keys are exactly the given labels whose lookup succeeds, each of them occurs in the page, and each maps to its own lookup's result |
| LabeledWidgets.MissingLabelIsSkipped | test/org/openmrs/module/htmlformentry/RegressionTestHelper.java:188-190 | a label absent from the page is never a key |
| LabeledWidgets.WidgetLookupNeedsClosingQuote | test/org/openmrs/module/htmlformentry/RegressionTestHelper.java:192-197 | when a `name="w` attribute follows the label's first occurrence, the lookup succeeds exactly when a quote closes the attribute value; otherwise the exception is swallowed |
| LabeledWidgets.WidgetNameIsQuotedAttribute | test/org/openmrs/module/htmlformentry/RegressionTestHelper.java:192-195 | under the same conditions a stored name is the whole quoted attribute value: non-empty, starting with `w`, quote-free, with `name="<name>"` at the attribute |
| LabeledWidgets.WidgetSearchRestartsAtPageStart | test/org/openmrs/module/htmlformentry/RegressionTestHelper.java:192-194 | when no `name="w` follows the label, the -1 from `indexOf` restarts the quote search at the page start: the stored name is the text after the page's first quote up to the next quote not immediately after it |
| LabeledWidgets.NoQuoteMeansNoWidget | test/org/openmrs/module/htmlformentry/RegressionTestHelper.java:193-197 | on a page without quotes the lookup throws and the label is silently left out |
| Domain.NullSafeEquals | test/org/openmrs/module/htmlformentry/RegressionTestHelper.java:446 | `nullSafeEquals` holds exactly for two nulls or two equal strings |
| Domain.Matches | test/org/openmrs/module/htmlformentry/RegressionTestHelper.java:443-447 | `matches` with the ids compared by value: a match has the expected concept id, and a null expected value matches only a null value string |
| Domain.MatchesMeansSameKey | test/org/openmrs/module/htmlformentry/RegressionTestHelper.java:443-447 | an expected value matches an obs exactly when concept ids are equal and value strings are equal, null matching only null |
| ObsGroups.IsMatchingObsGroup | test/org/openmrs/module/htmlformentry/RegressionTestHelper.java:456-480 | false for a non-grouping or a member count different from the expected count; true exactly when the members' (concept, value) pairs equal the expected list as a bag; on true, the greedy pass's assignment is a bijection from children to matching expected entries |
| ObsGroups.ProgressStuck | test/org/openmrs/module/htmlformentry/RegressionTestHelper.java:465-477 | a child that no unused expected entry matches proves the members and the expected list differ as bags, so the early `return false` is right |
| ObsGroups.ProgressDone | test/org/openmrs/module/htmlformentry/RegressionTestHelper.java:464-479 | when every child has been given a distinct matching entry and the counts agree, the assignment is a bijection and the bags are equal |
| ObsGroups.MatchesAsWritten | test/org/openmrs/module/htmlformentry/RegressionTestHelper.java:443-447 | `matches` as written, with the `Integer` identity test at line 444: it never accepts more than the value comparison, and accepts the same when both ids are one object |
| ObsGroups.MatchesAsWrittenRefusesBoxedId | test/org/openmrs/module/htmlformentry/RegressionTestHelper.java:444 | an expected child with concept 5089 and no value is refused by the identity comparison although it describes the obs exactly |
| FuzzyHtml.LastStartInIsLast | test/org/openmrs/module/htmlformentry/RegressionTestHelper.java:517-520 | the greedy `(.*)` closes at the last occurrence of the closing tag that starts within reach, and finds none when none starts there |
| FuzzyHtml.LineEndIsFirstTerminator | test/org/openmrs/module/htmlformentry/RegressionTestHelper.java:517-520 | `.*` reaches up to the first line terminator and no further |
| FuzzyHtml.MatchTable | test/org/openmrs/module/htmlformentry/RegressionTestHelper.java:517-520 | every match of `open(.*)close` lies after its start and inside the text, with the group between the delimiters |
| FuzzyHtml.ReplaceAll | test/org/openmrs/module/htmlformentry/RegressionTestHelper.java:517-518 | one `replaceAll` of a span or wrapper pattern, driven by the leftmost-greedy match table; the result is never longer than the input |
| FuzzyHtml.ReplaceAllWithoutMatch | test/org/openmrs/module/htmlformentry/RegressionTestHelper.java:517-520 | where the pattern matches nowhere the text is left unchanged |
| FuzzyHtml.ReplaceAllOnlyDeletes | test/org/openmrs/module/htmlformentry/RegressionTestHelper.java:517-520 | the span and wrapper replacements never lengthen the text and keep every character-wise property the input had |
| FuzzyHtml.ReplaceAllWithoutOpen | test/org/openmrs/module/htmlformentry/RegressionTestHelper.java:517-518 | a text with no opening span tag is left unchanged |
| FuzzyHtml.ReplaceAllOnOneLine | test/org/openmrs/module/htmlformentry/RegressionTestHelper.java:520 | on a single line, the wrapper step deletes exactly the first `<htmlform>` and the last `</htmlform>` after it |
| FuzzyHtml.NoMatchPastLastClose | test/org/openmrs/module/htmlformentry/RegressionTestHelper.java:517-520 | no match starts after the last closing tag |
| FuzzyHtml.Compacted | test/org/openmrs/module/htmlformentry/RegressionTestHelper.java:516-519 | the text the wrapper step receives has no whitespace and no upper-case ASCII letter, and is no longer than the input |
| FuzzyHtml.CompactedIsOneLine | test/org/openmrs/module/htmlformentry/RegressionTestHelper.java:516-519 | when the input has none of U+0085, U+2028, U+2029, that text has no line terminator, since whitespace deletion removes `\n` and `\r` |
| FuzzyHtml.FuzzyNormalizeStripsWrapper | test/org/openmrs/module/htmlformentry/RegressionTestHelper.java:500-520 | on such input the last step deletes exactly the first `<htmlform>` and the last `</htmlform>` after it, keeping the text before, between and after |
| FuzzyHtml.FuzzyNormalize | test/org/openmrs/module/htmlformentry/RegressionTestHelper.java:515-521 | the normalised text has no whitespace and no upper-case ASCII letter, and is no longer than the input |
| FuzzyHtml.FuzzyEqualsPasses | test/org/openmrs/module/htmlformentry/RegressionTestHelper.java:502-513 | `assertFuzzyEquals` as a verdict: equal arguments pass, and a pass needs both or neither to be null |
| FuzzyHtml.FuzzyEqualsCases | test/org/openmrs/module/htmlformentry/RegressionTestHelper.java:502-513 | two nulls pass, exactly one null fails, two texts pass exactly when their normalisations are equal |
| FuzzyHtml.FuzzyEqualsIsEquivalence | test/org/openmrs/module/htmlformentry/RegressionTestHelper.java:502-513 | the comparison is reflexive, symmetric and transitive |
| FuzzyHtml.FuzzyEqualsIgnoresWhitespaceWithoutSpans | test/org/openmrs/module/htmlformentry/RegressionTestHelper.java:496-521 | two texts without span markup that agree after lower-casing and deleting whitespace compare equal |
| FuzzyHtml.LineBreakInValueSpanIsNotIgnored | test/org/openmrs/module/htmlformentry/RegressionTestHelper.java:496-521 | a `value` span around `a` plus a line break and the same span around `a` agree once lowered and stripped of whitespace, yet compare unequal, because `.` does not cross the line break |
| FuzzyHtml.FuzzyEqualsIgnoresCase | test/org/openmrs/module/htmlformentry/RegressionTestHelper.java:497-516 | a text compares equal to its lower-cased form |
| LastEncounter.CompareWithNullAsEarliest | test/org/openmrs/module/htmlformentry/RegressionTestHelper.java:227-229 | the comparator answers a sign that is 0 exactly for equal dates and negative exactly when the left date is missing and the right is not, or both are present and the left is earlier |
| LastEncounter.ComparatorIsTotalPreorder | test/org/openmrs/module/htmlformentry/RegressionTestHelper.java:225-230 | the comparator is sign-antisymmetric and orders encounters totally and transitively |
| LastEncounter.Insert | test/org/openmrs/module/htmlformentry/RegressionTestHelper.java:225-230 | one stable insertion step keeps a sorted list sorted and adds exactly the new encounter |
| LastEncounter.StableSort | test/org/openmrs/module/htmlformentry/RegressionTestHelper.java:225-230 | the sort returns a permutation of the encounters, sorted by date with missing dates first |
| LastEncounter.InsertIsStable | test/org/openmrs/module/htmlformentry/RegressionTestHelper.java:225-230 | one insertion step appends the new encounter to those of its own date and leaves every other date's encounters as they were |
| LastEncounter.StableSortIsStable | test/org/openmrs/module/htmlformentry/RegressionTestHelper.java:225-230 | the sort is stable: for every date, the encounters with that date keep their input order |
| LastEncounter.GetLastEncounter | test/org/openmrs/module/htmlformentry/RegressionTestHelper.java:219-231 | no result exactly for a null or empty list, the sole encounter of a singleton, and always an encounter of the list |
| LastEncounter.SortEndsWithLastLatest | test/org/openmrs/module/htmlformentry/RegressionTestHelper.java:225-231 | the sorted list ends with the latest encounter, the last such in the original order when dates tie |
| LastEncounter.GetLastEncounterPicksLastLatest | test/org/openmrs/module/htmlformentry/RegressionTestHelper.java:219-231 | on a non-empty list the result is an encounter no other sorts after, and every encounter after it in the list is strictly earlier |
| LastEncounter.LastLatestIsUnique | test/org/openmrs/module/htmlformentry/RegressionTestHelper.java:231 | that characterisation picks one position only |
| Submission.ObsCreatedCount | test/org/openmrs/module/htmlformentry/RegressionTestHelper.java:336-343 | the number of obs of the created encounter, 0 with no encounter or a null collection |
| Submission.ObsGroupCreatedCount | test/org/openmrs/module/htmlformentry/RegressionTestHelper.java:348-360 | the loop counts the groupings among the encounter's obs, 0 with no encounter or a null collection, and never more than the obs count |
| Submission.GroupingsBounded | test/org/openmrs/module/htmlformentry/RegressionTestHelper.java:354-359 | the grouping count is at most the obs count, equals it exactly when every obs is a grouping, and is 0 exactly when none is |
| Submission.ObsLeafCreatedCount | test/org/openmrs/module/htmlformentry/RegressionTestHelper.java:365-372 | the number of non-group obs `getObs` returns, 0 with no encounter or a null collection |
| Submission.CountsWithoutEncounter | test/org/openmrs/module/htmlformentry/RegressionTestHelper.java:336-372 | with no encounter created all three counts are 0 |
| Submission.FindObs | test/org/openmrs/module/htmlformentry/RegressionTestHelper.java:386-394 | the search finds an obs exactly when one has the concept id and, unless any value is accepted, the expected value string |
| Submission.ObsCreatedNullValue | test/org/openmrs/module/htmlformentry/RegressionTestHelper.java:385-391 | when every obs has a null value string, only an expectation of any value can pass |
| Submission.ObsCreatedPasses | test/org/openmrs/module/htmlformentry/RegressionTestHelper.java:379-395 | a passing `assertObsCreated` needs a created encounter with at least one obs |
| Submission.FindObsGroup | test/org/openmrs/module/htmlformentry/RegressionTestHelper.java:418-428 | the group search passes only at an obs of the grouping concept with no value whose members match |
| Submission.FindObsGroupMeaning | test/org/openmrs/module/htmlformentry/RegressionTestHelper.java:418-428 | the group search passes exactly when some obs of the grouping concept has no value and matching members, and no earlier obs of that concept carries a value |
| Submission.ObsGroupCreatedPasses | test/org/openmrs/module/htmlformentry/RegressionTestHelper.java:405-429 | a passing `assertObsGroupCreated` needs an obs collection with at least one grouping |
| Submission.ObsGroupCreatedFindsSoleGroup | test/org/openmrs/module/htmlformentry/RegressionTestHelper.java:405-429 | a value-free group whose members fit the expected pairs, alone with its concept, makes the assertion pass |

## Left out

- File loading, form-session set-up, `run` and `doSubmission` are left out. They drive host services (`Context`, the submission controller, the session) that are not visible here.
- `valueAsStringHelper` is left out: it formats numbers with `doubleValue()` and concepts and dates with host locale services. Expected values and `getValueAsString` results are taken as already-rendered strings.
- `dateAsString`, `dateTodayAsString`: host date formatting and the wall clock.
- `addObs`: mutation of host objects through services.
- `print`, `printErrors`, `printEncounterCreated`: console output only.
- `assertNoEncounterCreated`, `assertEncounterCreated`, `assertNoErrors`, `assertErrors` and the three `assert…Count` methods are left out. They are single null, size or equality checks on the values the model already computes.
- The pairing of `conceptIdsAndValues` into `ObsValue`s in `assertObsGroupCreated` is left out. The model takes the already-paired expected list. An odd-length argument list would throw an index exception in the source.
- The encounter list comes from the encounter service; `getLastEncounter` takes it as a parameter.
- `toLowerCase` is limited to ASCII letters. Java's locale and Unicode case rules are not modelled.
- `Obs.isObsGrouping` belongs to the host. It is modelled as "has group members".
- An obs group's member `Set` is modelled as a sequence in its iteration order. Equal obs are not collapsed.
- `Collections.sort` is modelled as an insertion sort. It is proved sorted, a permutation of its input and stable, which is what Java's sort promises.
- `OpenmrsUtil.compareWithNullAsEarliest` and `OpenmrsUtil.nullSafeEquals` are host code and are not part of this model. They are modelled by what their names and the helper's comments say: a missing date sorts first, and null equals only null.
- ObsGroups.IsMatchingObsGroup: compares concept ids by value, the correction under "## Findings", not by the `Integer` identity test of line 444. `ObsGroups.MatchesAsWritten` models that test.
- Submission.FindObsGroup: matches a candidate's members with the by-value comparison of "## Findings". Its "passes only at a value-free matching obs" contract also holds of the identity test, which never accepts more.
- Submission.FindObsGroupMeaning: the "passes when" direction holds only with ids compared by value. In the source, line 444's identity test can refuse such a group (the 5089 input under "## Findings"), and then the assertion fails.
- Submission.ObsGroupCreatedFindsSoleGroup: the same: the group makes the assertion pass only with ids compared by value. With separately boxed ids outside -128..127 the source still fails.
- ObsGroups.MatchesAsWritten: whether two equal ids are one `Integer` object is a parameter. It depends on how the host's `Concept` created its id, and that code is not part of this model.
- FuzzyHtml.FuzzyEqualsIgnoresWhitespaceWithoutSpans: holds only for texts without `value` or `emptyvalue` spans. The source deletes whitespace after the span steps, and `.` does not cross a line break. So `<span class="value">a` + line break + `</span>` and `<span class="value">a</span>` compare unequal although they differ only in whitespace (`FuzzyHtml.LineBreakInValueSpanIsNotIgnored`).
- FuzzyHtml.FuzzyNormalizeStripsWrapper: stated only for input without U+0085, U+2028 or U+2029. Whitespace deletion keeps those line terminators, and `.` stops at them, so a wrapper around one is left in place. `FuzzyHtml.ReplaceAll` models that case, but no lemma states it.
- FuzzyHtml.ReplaceAllOnlyDeletes: the characters it keeps are stated as "every character-wise property is preserved" plus a length bound, not as a sub-bag of the input.

## Findings

| source | as written | input that shows it | evidently intended | confidence | as-written member | corrected member |
|---|---|---|---|---|---|---|
| test/org/openmrs/module/htmlformentry/RegressionTestHelper.java:444 | `obs.getConcept().getConceptId() != conceptId` compares two `java.lang.Integer` references, so it tests object identity | an expected child with concept id 5089 (outside the `Integer` cache of -128..127), boxed separately from the obs's own id: the ids are equal but `matches` answers false, and `assertObsGroupCreated` fails for a group that is present | compare the concept ids by value | not executed; high when both ids are boxed separately outside -128..127, where boxing makes a new object. Inside that range two ids are one object only if both come from `Integer.valueOf` boxing; the host's `Concept` is not shown to box its id that way, so equal small ids can be refused too | ObsGroups.MatchesAsWrittenRefusesBoxedId | Domain.MatchesMeansSameKey |
