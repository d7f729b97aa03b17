/** The fuzzy HTML comparison: both sides are lowered, `value` spans are
    unwrapped, `emptyValue` spans removed, whitespace deleted and the
    `<htmlform>` wrapper stripped, and the results compared. */
module FuzzyHtml {
  import opened Wrappers
  import opened JavaStrings

  const ValueOpen: string := "<span class=\"value\">"
  const EmptyValueOpen: string := "<span class=\"emptyvalue\">"
  const SpanClose: string := "</span>"
  const FormOpen: string := "<htmlform>"
  const FormClose: string := "</htmlform>"

  /** The first line terminator at or after `k`, or the end of `s`: as far
      as the regex `.*` can reach from `k`. */
  function LineEnd(s: string, k: nat): (e: nat)
    requires k <= |s|
    ensures k <= e <= |s|
    decreases |s| - k
  {
    if k == |s| || IsLineTerminator(s[k]) then k else LineEnd(s, k + 1)
  }

  lemma {:induction false} LineEndIsFirstTerminator(s: string, k: nat)
    requires k <= |s|
    ensures forall j :: k <= j < LineEnd(s, k) ==> !IsLineTerminator(s[j])
    ensures LineEnd(s, k) < |s| ==> IsLineTerminator(s[LineEnd(s, k)])
    decreases |s| - k
  {
    if k < |s| && !IsLineTerminator(s[k]) {
      LineEndIsFirstTerminator(s, k + 1);
    }
  }

  /** The largest start in `[lo, hi]` at which `p` occurs. */
  function LastStartIn(s: string, p: string, lo: nat, hi: nat): (r: Option<nat>)
    ensures r.Some? ==> lo <= r.value <= hi && r.value + |p| <= |s|
    decreases hi
  {
    if hi < lo then None
    else if OccursAt(s, p, hi) then Some(hi)
    else if hi == lo then None
    else LastStartIn(s, p, lo, hi - 1)
  }

  lemma {:induction false} LastStartInIsLast(s: string, p: string, lo: nat, hi: nat)
    ensures LastStartIn(s, p, lo, hi).Some? ==> OccursAt(s, p, LastStartIn(s, p, lo, hi).value)
    ensures LastStartIn(s, p, lo, hi).Some? ==> forall j :: LastStartIn(s, p, lo, hi).value < j <= hi ==> !OccursAt(s, p, j)
    ensures LastStartIn(s, p, lo, hi).None? ==> forall j :: lo <= j <= hi ==> !OccursAt(s, p, j)
    decreases hi
  {
    if lo < hi && !OccursAt(s, p, hi) {
      LastStartInIsLast(s, p, lo, hi - 1);
    }
  }

  /** Where the regex `open(.*)close` starting at `k` places `close`, if it
      matches there: `.*` first runs to the end of the line, then gives
      characters back until `close` fits, so the last `close` that starts
      on the same line wins. */
  function GreedyCloseAt(s: string, open: string, close: string, k: nat): (r: Option<nat>)
    requires k <= |s|
    ensures r.Some? ==> k + |open| <= r.value && r.value + |close| <= |s|
  {
    if !OccursAt(s, open, k) then None
    else
      var bodyStart := k + |open|;
      LastStartIn(s, close, bodyStart, LineEnd(s, bodyStart))
  }

  /** Where a match of `open(.*)close` starting at `k` keeps its group and
      where the scan resumes after it. */
  datatype Span = Span(bodyStart: nat, bodyEnd: nat, resume: nat)

  /** The match of `open(.*)close` starting at `k`, if any. */
  function MatchAt(s: string, open: string, close: string, k: nat): (m: Option<Span>)
    requires k <= |s|
    ensures m.Some? ==> k + |open| == m.value.bodyStart <= m.value.bodyEnd && m.value.resume == m.value.bodyEnd + |close| <= |s|
  {
    match GreedyCloseAt(s, open, close, k)
    case None => None
    case Some(j) => Some(Span(k + |open|, j, j + |close|))
  }

  /** A table of matches for `s`: one entry per start position, each match
      lying after its start and inside `s`. */
  predicate WellFormedTable(s: string, t: seq<Option<Span>>) {
    && |t| == |s|
    && forall k :: 0 <= k < |t| && t[k].Some? ==> k < t[k].value.bodyStart <= t[k].value.bodyEnd <= t[k].value.resume <= |s|
  }

  /** The match table of `open(.*)close` on `s`. */
  function MatchTable(s: string, open: string, close: string): (t: seq<Option<Span>>)
    requires |open| > 0
    ensures WellFormedTable(s, t)
    ensures forall k :: 0 <= k < |t| ==> t[k] == MatchAt(s, open, close, k)
  {
    seq(|s|, k requires 0 <= k < |s| => MatchAt(s, open, close, k))
  }

  /** `replaceAll` driven by a match table, on the part of `s` from `k` on:
      the leftmost match is replaced (by its group when `keep`, else by
      nothing) and the scan resumes after it; a position where no match
      starts is copied. */
  function Rewrite(s: string, t: seq<Option<Span>>, keep: bool, k: nat): string
    requires WellFormedTable(s, t) && k <= |s|
    decreases |s| - k
  {
    if k == |s| then []
    else
      match t[k]
      case Some(m) => (if keep then s[m.bodyStart..m.bodyEnd] else []) + Rewrite(s, t, keep, m.resume)
      case None => [s[k]] + Rewrite(s, t, keep, k + 1)
  }

  /** `replaceAll("open(.*)close", keep ? "$1" : "")`; with `keep` false the
      group is not needed, which is the pattern `open.*close`. The result is
      never longer than the input. */
  function ReplaceAll(s: string, open: string, close: string, keep: bool): (r: string)
    requires |open| > 0
    ensures |r| <= |s|
  {
    var t := MatchTable(s, open, close);
    RewriteOnlyDeletes(s, t, keep, 0, (c: char) => true);
    Rewrite(s, t, keep, 0)
  }

  /** `replaceAll` with these patterns only deletes: the result is no
      longer than the input, and a property every input character has,
      every result character has. */
  lemma {:induction false} RewriteOnlyDeletes(s: string, t: seq<Option<Span>>, keep: bool, k: nat, P: char -> bool)
    requires WellFormedTable(s, t) && k <= |s|
    requires forall i :: k <= i < |s| ==> P(s[i])
    ensures |Rewrite(s, t, keep, k)| <= |s| - k
    ensures forall i :: 0 <= i < |Rewrite(s, t, keep, k)| ==> P(Rewrite(s, t, keep, k)[i])
    decreases |s| - k
  {
    if k < |s| {
      match t[k]
      case Some(m) =>
        RewriteOnlyDeletes(s, t, keep, m.resume, P);
        var kept := if keep then s[m.bodyStart..m.bodyEnd] else [];
        JoinKeeps(kept, Rewrite(s, t, keep, m.resume), P);
      case None =>
        RewriteOnlyDeletes(s, t, keep, k + 1, P);
        JoinKeeps([s[k]], Rewrite(s, t, keep, k + 1), P);
    }
  }

  lemma JoinKeeps(a: string, b: string, P: char -> bool)
    requires forall i :: 0 <= i < |a| ==> P(a[i])
    requires forall i :: 0 <= i < |b| ==> P(b[i])
    ensures forall i :: 0 <= i < |a + b| ==> P((a + b)[i])
  {
    forall i | 0 <= i < |a + b|
      ensures P((a + b)[i])
    {
      if i >= |a| {
        assert (a + b)[i] == b[i - |a|];
      }
    }
  }

  lemma ReplaceAllOnlyDeletes(s: string, open: string, close: string, keep: bool, P: char -> bool)
    requires |open| > 0
    requires forall i :: 0 <= i < |s| ==> P(s[i])
    ensures |ReplaceAll(s, open, close, keep)| <= |s|
    ensures forall i :: 0 <= i < |ReplaceAll(s, open, close, keep)| ==> P(ReplaceAll(s, open, close, keep)[i])
  {
    RewriteOnlyDeletes(s, MatchTable(s, open, close), keep, 0, P);
  }

  /** Where no match starts, `replaceAll` copies the text unchanged. */
  lemma {:induction false} RewriteCopies(s: string, t: seq<Option<Span>>, keep: bool, k: nat, p: nat)
    requires WellFormedTable(s, t) && k <= p <= |s|
    requires forall j :: k <= j < p ==> t[j].None?
    ensures Rewrite(s, t, keep, k) == s[k..p] + Rewrite(s, t, keep, p)
    decreases p - k
  {
    if k < p {
      RewriteCopies(s, t, keep, k + 1, p);
      RewriteCopiesOne(s, t, keep, k);
      PrependSlice(s, k, p, Rewrite(s, t, keep, p));
    }
  }

  lemma RewriteCopiesOne(s: string, t: seq<Option<Span>>, keep: bool, k: nat)
    requires WellFormedTable(s, t) && k < |s| && t[k].None?
    ensures Rewrite(s, t, keep, k) == [s[k]] + Rewrite(s, t, keep, k + 1)
  {
  }

  lemma PrependSlice(s: string, k: nat, p: nat, tail: string)
    requires k < p <= |s|
    ensures [s[k]] + (s[k + 1..p] + tail) == s[k..p] + tail
  {
    assert s[k..p] == [s[k]] + s[k + 1..p];
  }

  /** A text in which the opening delimiter never occurs is left unchanged. */
  lemma ReplaceAllWithoutOpen(s: string, open: string, close: string, keep: bool)
    requires |open| > 0
    requires forall j :: 0 <= j < |s| ==> !OccursAt(s, open, j)
    ensures ReplaceAll(s, open, close, keep) == s
  {
    var t := MatchTable(s, open, close);
    assert forall j :: 0 <= j < |s| ==> t[j] == MatchAt(s, open, close, j) == None;
    RewriteCopies(s, t, keep, 0, |s|);
  }

  /** A text in which no match starts is left unchanged. */
  lemma ReplaceAllWithoutMatch(s: string, open: string, close: string, keep: bool)
    requires |open| > 0
    requires forall j :: 0 <= j < |s| ==> MatchAt(s, open, close, j).None?
    ensures ReplaceAll(s, open, close, keep) == s
  {
    RewriteCopies(s, MatchTable(s, open, close), keep, 0, |s|);
  }

  /** On a single line (no line terminator), `replaceAll("open(.*)close", "$1")`
      deletes the first `open` and the last `close` after it and nothing
      else. */
  lemma ReplaceAllOnOneLine(s: string, open: string, close: string, p: nat, q: nat)
    requires |open| > 0
    requires forall j :: 0 <= j < |s| ==> !IsLineTerminator(s[j])
    requires OccursAt(s, open, p) && forall j :: 0 <= j < p ==> !OccursAt(s, open, j)
    requires p + |open| <= q && OccursAt(s, close, q) && forall j :: q < j ==> !OccursAt(s, close, j)
    ensures ReplaceAll(s, open, close, true) == s[..p] + s[p + |open|..q] + s[q + |close|..]
  {
    var t := MatchTable(s, open, close);
    OneLineTable(s, open, close, p, q);
    RewriteAroundOneMatch(s, t, p, Span(p + |open|, q, q + |close|));
  }

  /** The match table of a single line with one `open` before the last
      `close`: one match, at `p`. */
  lemma OneLineTable(s: string, open: string, close: string, p: nat, q: nat)
    requires |open| > 0
    requires forall j :: 0 <= j < |s| ==> !IsLineTerminator(s[j])
    requires OccursAt(s, open, p) && forall j :: 0 <= j < p ==> !OccursAt(s, open, j)
    requires p + |open| <= q && OccursAt(s, close, q) && forall j :: q < j ==> !OccursAt(s, close, j)
    ensures forall j :: 0 <= j < p ==> MatchTable(s, open, close)[j].None?
    ensures MatchTable(s, open, close)[p] == Some(Span(p + |open|, q, q + |close|))
    ensures forall j :: q + |close| <= j < |s| ==> MatchTable(s, open, close)[j].None?
  {
    var t := MatchTable(s, open, close);
    var after := q + |close|;
    assert forall j :: 0 <= j < p ==> t[j] == MatchAt(s, open, close, j) == None;
    MatchSpansLine(s, open, close, p, q);
    assert t[p] == MatchAt(s, open, close, p);
    NoMatchPastLastClose(s, open, close, after);
    assert forall j :: after <= j < |s| ==> t[j] == MatchAt(s, open, close, j) == None;
  }

  /** With a single match, at `p`, the rewrite keeps the text around the
      match and the match's group. */
  lemma RewriteAroundOneMatch(s: string, t: seq<Option<Span>>, p: nat, m: Span)
    requires WellFormedTable(s, t) && p < |s|
    requires forall j :: 0 <= j < p ==> t[j].None?
    requires t[p] == Some(m)
    requires forall j :: m.resume <= j < |s| ==> t[j].None?
    ensures Rewrite(s, t, true, 0) == s[..p] + s[m.bodyStart..m.bodyEnd] + s[m.resume..]
  {
    RewriteCopies(s, t, true, 0, p);
    RewriteReplacesOne(s, t, true, p);
    RewriteCopies(s, t, true, m.resume, |s|);
    assert Rewrite(s, t, true, |s|) == [];
    assert s[..p] == s[0..p];
    assert s[m.resume..|s|] == s[m.resume..];
  }

  lemma RewriteReplacesOne(s: string, t: seq<Option<Span>>, keep: bool, k: nat)
    requires WellFormedTable(s, t) && k < |s| && t[k].Some?
    ensures Rewrite(s, t, keep, k) ==
              (if keep then s[t[k].value.bodyStart..t[k].value.bodyEnd] else []) + Rewrite(s, t, keep, t[k].value.resume)
  {
  }

  /** On a line without terminators, the match at `p` closes at the last
      `close`. */
  lemma MatchSpansLine(s: string, open: string, close: string, p: nat, q: nat)
    requires forall j :: 0 <= j < |s| ==> !IsLineTerminator(s[j])
    requires OccursAt(s, open, p)
    requires p + |open| <= q && OccursAt(s, close, q) && forall j :: q < j ==> !OccursAt(s, close, j)
    ensures GreedyCloseAt(s, open, close, p) == Some(q)
  {
    var bodyStart := p + |open|;
    LineEndIsFirstTerminator(s, bodyStart);
    LastStartInIsLast(s, close, bodyStart, |s|);
  }

  /** A match needs a `close` after its `open`, so none starts beyond the
      last `close`. */
  lemma NoMatchPastLastClose(s: string, open: string, close: string, after: nat)
    requires |open| > 0 && after <= |s|
    requires forall i :: after < i ==> !OccursAt(s, close, i)
    ensures forall j :: after <= j < |s| ==> GreedyCloseAt(s, open, close, j).None?
  {
    forall j | after <= j < |s|
      ensures GreedyCloseAt(s, open, close, j).None?
    {
      if OccursAt(s, open, j) {
        var bodyStart := j + |open|;
        LastStartInIsLast(s, close, bodyStart, LineEnd(s, bodyStart));
      }
    }
  }

  predicate NoWhitespace(s: string) {
    forall j :: 0 <= j < |s| ==> !IsWhitespace(s[j])
  }

  predicate NoUpperAscii(s: string) {
    forall j :: 0 <= j < |s| ==> !IsUpperAscii(s[j])
  }

  /** A text made only of characters of another keeps its character-wise
      properties. */
  lemma SubBagKeepsCharacters(r: string, s: string)
    requires multiset(r) <= multiset(s)
    ensures |r| <= |s|
    ensures NoWhitespace(s) ==> NoWhitespace(r)
    ensures NoUpperAscii(s) ==> NoUpperAscii(r)
  {
    var rest := multiset(s) - multiset(r);
    assert multiset(s) == multiset(r) + rest;
    assert |multiset(s)| == |multiset(r)| + |rest|;
    forall j | 0 <= j < |r|
      ensures exists i :: 0 <= i < |s| && s[i] == r[j]
    {
      assert r[j] in multiset(r);
      assert r[j] in multiset(s);
    }
  }

  /** `fuzzyEqualsHelper` up to the wrapper step: lowered, `value` spans
      unwrapped, `emptyValue` spans removed and whitespace deleted. The
      result has no whitespace and no upper-case ASCII letter. */
  function Compacted(s: string): (r: string)
    ensures NoWhitespace(r) && NoUpperAscii(r)
    ensures |r| <= |s|
  {
    var lowered := ToLowerAscii(s);
    var values := ReplaceAll(lowered, ValueOpen, SpanClose, true);
    var empties := ReplaceAll(values, EmptyValueOpen, SpanClose, false);
    var notUpper := (c: char) => !IsUpperAscii(c);
    ReplaceAllOnlyDeletes(lowered, ValueOpen, SpanClose, true, notUpper);
    ReplaceAllOnlyDeletes(values, EmptyValueOpen, SpanClose, false, notUpper);
    var compact := RemoveWhitespace(empties);
    SubBagKeepsCharacters(compact, empties);
    compact
  }

  /** `fuzzyEqualsHelper`: the result has no whitespace and no upper-case
      ASCII letter, since every step after lowering only deletes. */
  function FuzzyNormalize(s: string): (r: string)
    ensures NoWhitespace(r) && NoUpperAscii(r)
    ensures |r| <= |s|
  {
    var compact := Compacted(s);
    ReplaceAllOnlyDeletes(compact, FormOpen, FormClose, true, (c: char) => !IsUpperAscii(c));
    ReplaceAllOnlyDeletes(compact, FormOpen, FormClose, true, (c: char) => !IsWhitespace(c));
    ReplaceAll(compact, FormOpen, FormClose, true)
  }

  /** The wrapper step strips `<htmlform>…</htmlform>`: when no character of
      `s` is one of the line terminators whitespace deletion keeps (U+0085,
      U+2028, U+2029), it deletes the first `<htmlform>` of the compacted
      text and the last `</htmlform>` after it, and nothing else. */
  lemma FuzzyNormalizeStripsWrapper(s: string, p: nat, q: nat)
    requires forall j :: 0 <= j < |s| ==> s[j] != '\U{0085}' && s[j] != '\U{2028}' && s[j] != '\U{2029}'
    requires OccursAt(Compacted(s), FormOpen, p) && forall j :: 0 <= j < p ==> !OccursAt(Compacted(s), FormOpen, j)
    requires p + |FormOpen| <= q && OccursAt(Compacted(s), FormClose, q)
    requires forall j :: q < j ==> !OccursAt(Compacted(s), FormClose, j)
    ensures FuzzyNormalize(s) ==
              Compacted(s)[..p] + Compacted(s)[p + |FormOpen|..q] + Compacted(s)[q + |FormClose|..]
  {
    CompactedIsOneLine(s);
    ReplaceAllOnOneLine(Compacted(s), FormOpen, FormClose, p, q);
  }

  /** Whitespace deletion removes `\n` and `\r`, so without the other three
      line terminators the compacted text is a single line. */
  lemma CompactedIsOneLine(s: string)
    requires forall j :: 0 <= j < |s| ==> s[j] != '\U{0085}' && s[j] != '\U{2028}' && s[j] != '\U{2029}'
    ensures forall j :: 0 <= j < |Compacted(s)| ==> !IsLineTerminator(Compacted(s)[j])
  {
    var noBreak := (c: char) => c != '\U{0085}' && c != '\U{2028}' && c != '\U{2029}';
    var lowered := ToLowerAscii(s);
    assert forall i :: 0 <= i < |lowered| ==> noBreak(lowered[i]);
    ReplaceAllOnlyDeletes(lowered, ValueOpen, SpanClose, true, noBreak);
    var values := ReplaceAll(lowered, ValueOpen, SpanClose, true);
    ReplaceAllOnlyDeletes(values, EmptyValueOpen, SpanClose, false, noBreak);
    var empties := ReplaceAll(values, EmptyValueOpen, SpanClose, false);
    var compact := RemoveWhitespace(empties);
    assert compact == Compacted(s);
    forall j | 0 <= j < |compact|
      ensures !IsLineTerminator(compact[j])
    {
      assert compact[j] in multiset(empties);
    }
  }

  /** `assertFuzzyEquals` as a verdict: two nulls pass, one null fails, and
      otherwise the normalised texts must be equal. */
  function FuzzyEqualsPasses(expected: Option<string>, actual: Option<string>): (r: bool)
    ensures expected == actual ==> r
    ensures r ==> (expected.None? <==> actual.None?)
  {
    if expected.None? && actual.None? then true
    else if expected.None? || actual.None? then false
    else FuzzyNormalize(expected.value) == FuzzyNormalize(actual.value)
  }

  /** The verdict on nulls, and on two texts exactly when their
      normalisations agree. */
  lemma FuzzyEqualsCases(expected: Option<string>, actual: Option<string>)
    ensures expected.None? && actual.None? ==> FuzzyEqualsPasses(expected, actual)
    ensures expected.None? != actual.None? ==> !FuzzyEqualsPasses(expected, actual)
    ensures expected.Some? && actual.Some? ==>
              (FuzzyEqualsPasses(expected, actual) <==> FuzzyNormalize(expected.value) == FuzzyNormalize(actual.value))
  {
  }

  /** The comparison is an equivalence: reflexive, symmetric, transitive. */
  lemma FuzzyEqualsIsEquivalence(a: Option<string>, b: Option<string>, c: Option<string>)
    ensures FuzzyEqualsPasses(a, a)
    ensures FuzzyEqualsPasses(a, b) ==> FuzzyEqualsPasses(b, a)
    ensures FuzzyEqualsPasses(a, b) && FuzzyEqualsPasses(b, c) ==> FuzzyEqualsPasses(a, c)
  {
  }

  /** Whitespace is ignored in texts that contain no span markup: two such
      texts that agree once lowered and stripped of whitespace compare
      equal. */
  lemma FuzzyEqualsIgnoresWhitespaceWithoutSpans(a: string, b: string)
    requires forall j :: 0 <= j < |a| ==> !OccursAt(ToLowerAscii(a), ValueOpen, j) && !OccursAt(ToLowerAscii(a), EmptyValueOpen, j)
    requires forall j :: 0 <= j < |b| ==> !OccursAt(ToLowerAscii(b), ValueOpen, j) && !OccursAt(ToLowerAscii(b), EmptyValueOpen, j)
    requires RemoveWhitespace(ToLowerAscii(a)) == RemoveWhitespace(ToLowerAscii(b))
    ensures FuzzyEqualsPasses(Some(a), Some(b))
  {
    ReplaceAllWithoutOpen(ToLowerAscii(a), ValueOpen, SpanClose, true);
    ReplaceAllWithoutOpen(ToLowerAscii(a), EmptyValueOpen, SpanClose, false);
    ReplaceAllWithoutOpen(ToLowerAscii(b), ValueOpen, SpanClose, true);
    ReplaceAllWithoutOpen(ToLowerAscii(b), EmptyValueOpen, SpanClose, false);
  }

  /** Capitalisation is ignored: a text compares equal to its lower-cased form. */
  lemma FuzzyEqualsIgnoresCase(s: string)
    ensures FuzzyEqualsPasses(Some(s), Some(ToLowerAscii(s)))
  {
    ToLowerAsciiIdempotent(s);
  }

  /** A `value` span whose content ends in a line break, the same span
      without the line break, and what deleting whitespace leaves of both. */
  const BrokenSpan: string := "<span class=\"value\">a\n</span>"
  const WholeSpan: string := "<span class=\"value\">a</span>"
  const CompactSpan: string := "<spanclass=\"value\">a</span>"

  /** Whitespace is not ignored when it is a line break inside a `value`
      span: `.` does not match the line break, so the span is left wrapped,
      and the text compares unequal to the same span without the line break
      although the two agree once lowered and stripped of whitespace. */
  lemma LineBreakInValueSpanIsNotIgnored()
    ensures RemoveWhitespace(ToLowerAscii(BrokenSpan)) == RemoveWhitespace(ToLowerAscii(WholeSpan))
    ensures !FuzzyEqualsPasses(Some(BrokenSpan), Some(WholeSpan))
  {
    SpansAreLowered();
    SpansCompact();
    NormalizeBrokenSpan();
    NormalizeWholeSpan();
  }

  /** Both spans are already lower case. */
  lemma SpansAreLowered()
    ensures ToLowerAscii(BrokenSpan) == BrokenSpan
    ensures ToLowerAscii(WholeSpan) == WholeSpan
  {
    BrokenSpanIsLowered();
    WholeSpanIsLowered();
  }

  lemma BrokenSpanIsLowered()
    ensures ToLowerAscii(BrokenSpan) == BrokenSpan
  {
    LoweredStays(BrokenSpan);
  }

  lemma WholeSpanIsLowered()
    ensures ToLowerAscii(WholeSpan) == WholeSpan
  {
    LoweredStays(WholeSpan);
  }

  lemma LoweredStays(s: string)
    requires NoUpperAscii(s)
    ensures ToLowerAscii(s) == s
  {
  }

  /** Deleting whitespace from either span leaves `CompactSpan`. */
  lemma SpansCompact()
    ensures RemoveWhitespace(BrokenSpan) == CompactSpan
    ensures RemoveWhitespace(WholeSpan) == CompactSpan
  {
    BrokenSpanCompacts();
    WholeSpanCompacts();
  }

  const SpanTag: string := "<span"
  const ValueAttr: string := "class=\"value\">a"

  lemma BrokenSpanCompacts()
    ensures RemoveWhitespace(BrokenSpan) == CompactSpan
  {
    var inner := ValueAttr + ['\n'] + SpanClose;
    BrokenSpanPieces(inner);
    CompactSpanPieces();
    PiecesArePlain();
    RemoveWhitespaceKeepsPlainText(SpanClose);
    RemoveWhitespaceAround(ValueAttr, '\n', SpanClose);
    RemoveWhitespaceAround(SpanTag, ' ', inner);
  }

  lemma WholeSpanCompacts()
    ensures RemoveWhitespace(WholeSpan) == CompactSpan
  {
    WholeSpanPieces();
    CompactSpanPieces();
    PiecesArePlain();
    RemoveWhitespaceKeepsPlainText(ValueAttr + SpanClose);
    RemoveWhitespaceAround(SpanTag, ' ', ValueAttr + SpanClose);
  }

  lemma BrokenSpanPieces(inner: string)
    requires inner == ValueAttr + ['\n'] + SpanClose
    ensures BrokenSpan == SpanTag + [' '] + inner
  {
  }

  lemma WholeSpanPieces()
    ensures WholeSpan == SpanTag + [' '] + (ValueAttr + SpanClose)
  {
  }

  lemma CompactSpanPieces()
    ensures CompactSpan == SpanTag + (ValueAttr + SpanClose)
  {
  }

  lemma PiecesArePlain()
    ensures NoWhitespace(SpanTag) && NoWhitespace(ValueAttr) && NoWhitespace(SpanClose)
    ensures NoWhitespace(ValueAttr + SpanClose)
  {
  }

  /** Deleting whitespace around one whitespace character after a plain
      text. */
  lemma RemoveWhitespaceAround(a: string, c: char, b: string)
    requires NoWhitespace(a) && IsWhitespace(c)
    ensures RemoveWhitespace(a + [c] + b) == a + RemoveWhitespace(b)
  {
    RemoveWhitespaceAppend(a + [c], b);
    RemoveWhitespaceDropsLast(a, c);
  }

  lemma RemoveWhitespaceDropsLast(a: string, c: char)
    requires NoWhitespace(a) && IsWhitespace(c)
    ensures RemoveWhitespace(a + [c]) == a
  {
    RemoveWhitespaceAppend(a, [c]);
    RemoveWhitespaceOneChar(c);
    RemoveWhitespaceKeepsPlainText(a);
  }

  /** A mismatch at offset `i` rules out an occurrence of `p` at `k`. */
  lemma Mismatch(s: string, p: string, k: nat, i: nat)
    requires i < |p| && (k + |p| <= |s| ==> s[k + i] != p[i])
    ensures !OccursAt(s, p, k)
  {
  }

  /** The span around a line break survives every step but the deletion of
      whitespace. */
  lemma NormalizeBrokenSpan()
    ensures FuzzyNormalize(BrokenSpan) == CompactSpan
  {
    SpansAreLowered();
    BrokenSpanValueStep();
    BrokenSpanEmptyValueStep();
    SpansCompact();
    CompactSpanFormStep();
  }

  /** The `value` pattern matches nowhere in the span around a line break,
      since `.*` stops at the line break before `</span>`. */
  lemma BrokenSpanValueStep()
    ensures ReplaceAll(BrokenSpan, ValueOpen, SpanClose, true) == BrokenSpan
  {
    forall j | 0 <= j < |BrokenSpan|
      ensures MatchAt(BrokenSpan, ValueOpen, SpanClose, j).None?
    {
      if j == 0 {
        BrokenSpanCloseIsPastTheLine();
      } else {
        Mismatch(BrokenSpan, ValueOpen, j, 0);
      }
    }
    ReplaceAllWithoutMatch(BrokenSpan, ValueOpen, SpanClose, true);
  }

  /** After the opening tag the line ends at the line break, before any
      `</span>` starts. */
  lemma BrokenSpanCloseIsPastTheLine()
    ensures MatchAt(BrokenSpan, ValueOpen, SpanClose, 0).None?
  {
    assert LineEnd(BrokenSpan, 20) == 21;
    Mismatch(BrokenSpan, SpanClose, 21, 0);
    Mismatch(BrokenSpan, SpanClose, 20, 0);
    assert LastStartIn(BrokenSpan, SpanClose, 20, 21).None?;
  }

  lemma BrokenSpanEmptyValueStep()
    ensures ReplaceAll(BrokenSpan, EmptyValueOpen, SpanClose, false) == BrokenSpan
  {
    forall j | 0 <= j < |BrokenSpan|
      ensures !OccursAt(BrokenSpan, EmptyValueOpen, j)
    {
      Mismatch(BrokenSpan, EmptyValueOpen, j, if j == 0 then 13 else 0);
    }
    ReplaceAllWithoutOpen(BrokenSpan, EmptyValueOpen, SpanClose, false);
  }

  lemma CompactSpanFormStep()
    ensures ReplaceAll(CompactSpan, FormOpen, FormClose, true) == CompactSpan
  {
    forall j | 0 <= j < |CompactSpan|
      ensures !OccursAt(CompactSpan, FormOpen, j)
    {
      Mismatch(CompactSpan, FormOpen, j, if j == 0 then 1 else 0);
    }
    ReplaceAllWithoutOpen(CompactSpan, FormOpen, FormClose, true);
  }

  /** The span on one line is unwrapped down to its content. */
  lemma NormalizeWholeSpan()
    ensures FuzzyNormalize(WholeSpan) == "a"
  {
    SpansAreLowered();
    WholeSpanValueStep();
    ReplaceAllWithoutOpen("a", EmptyValueOpen, SpanClose, false);
    RemoveWhitespaceKeepsPlainText("a");
    ReplaceAllWithoutOpen("a", FormOpen, FormClose, true);
  }

  lemma WholeSpanValueStep()
    ensures ReplaceAll(WholeSpan, ValueOpen, SpanClose, true) == "a"
  {
    assert OccursAt(WholeSpan, ValueOpen, 0);
    assert OccursAt(WholeSpan, SpanClose, 21);
    ReplaceAllOnOneLine(WholeSpan, ValueOpen, SpanClose, 0, 21);
  }
}
