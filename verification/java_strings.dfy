/** The few `java.lang.String` operations the test helper relies on, with
    Java's exact edge cases: `indexOf` answers -1 on a miss and clamps a
    negative start to 0, `substring` fails on bad bounds, `toLowerCase` is
    restricted to ASCII and `\s` is Java's default (ASCII) whitespace class. */
module JavaStrings {
  import opened Wrappers

  /** `p` occurs in `s` starting at index `k`. */
  predicate OccursAt(s: string, p: string, k: int) {
    0 <= k && k + |p| <= |s| && s[k..k + |p|] == p
  }

  /** `p` occurs somewhere in `s`. */
  predicate Contains(s: string, p: string) {
    exists k :: 0 <= k <= |s| && OccursAt(s, p, k)
  }

  /** First occurrence of `p` in `s` at or after `k` (the search loop of `indexOf`). */
  function IndexFrom(s: string, p: string, k: nat): (r: int)
    requires k <= |s|
    ensures r == -1 || (k <= r && OccursAt(s, p, r))
    decreases |s| - k
  {
    if k + |p| > |s| then -1
    else if s[k..k + |p|] == p then k
    else IndexFrom(s, p, k + 1)
  }

  /** The search loop finds the first occurrence, and -1 means there is none. */
  lemma {:induction false} IndexFromIsFirst(s: string, p: string, k: nat)
    requires k <= |s|
    ensures IndexFrom(s, p, k) >= 0 ==> forall j :: k <= j < IndexFrom(s, p, k) ==> !OccursAt(s, p, j)
    ensures IndexFrom(s, p, k) == -1 ==> forall j :: k <= j ==> !OccursAt(s, p, j)
    decreases |s| - k
  {
    if k + |p| <= |s| && s[k..k + |p|] != p {
      IndexFromIsFirst(s, p, k + 1);
    }
  }

  /** `String.indexOf(String str, int fromIndex)`: a start at or past the end
      finds only the empty string (at the length); a negative start counts as 0. */
  function IndexOf(s: string, p: string, from: int): (r: int)
    ensures r == -1 || OccursAt(s, p, r)
    ensures r >= 0 && from <= |s| ==> from <= r
    ensures |p| == 0 ==> r >= 0
  {
    if from >= |s| then
      if |p| == 0 then |s| else -1
    else IndexFrom(s, p, if from < 0 then 0 else from)
  }

  /** `indexOf` answers the first occurrence at or after the start, and -1
      exactly when a non-empty pattern does not occur there. */
  lemma IndexOfIsFirst(s: string, p: string, from: int)
    ensures IndexOf(s, p, from) >= 0 ==> forall j :: from <= j < IndexOf(s, p, from) ==> !OccursAt(s, p, j)
    ensures IndexOf(s, p, from) == -1 ==> forall j :: from <= j ==> !OccursAt(s, p, j)
    ensures |p| > 0 && (forall j :: from <= j ==> !OccursAt(s, p, j)) ==> IndexOf(s, p, from) == -1
  {
    if from < |s| {
      IndexFromIsFirst(s, p, if from < 0 then 0 else from);
    }
  }

  /** First index at or after `k` holding `c`. */
  function CharIndexFrom(s: string, c: char, k: nat): (r: int)
    requires k <= |s|
    ensures r == -1 || (k <= r < |s| && s[r] == c)
    decreases |s| - k
  {
    if k == |s| then -1
    else if s[k] == c then k
    else CharIndexFrom(s, c, k + 1)
  }

  lemma {:induction false} CharIndexFromIsFirst(s: string, c: char, k: nat)
    requires k <= |s|
    ensures CharIndexFrom(s, c, k) >= 0 ==> forall j :: k <= j < CharIndexFrom(s, c, k) ==> s[j] != c
    ensures CharIndexFrom(s, c, k) == -1 ==> forall j :: k <= j < |s| ==> s[j] != c
    decreases |s| - k
  {
    if k < |s| && s[k] != c {
      CharIndexFromIsFirst(s, c, k + 1);
    }
  }

  /** `String.indexOf(int ch, int fromIndex)`: a negative start counts as 0, a
      start at or past the end finds nothing. */
  function IndexOfChar(s: string, c: char, from: int): (r: int)
    ensures r == -1 || (0 <= r < |s| && from <= r && s[r] == c)
  {
    if from >= |s| then -1
    else CharIndexFrom(s, c, if from < 0 then 0 else from)
  }

  /** `indexOf` on a character answers the first index holding it at or
      after the start, and -1 exactly when there is none. */
  lemma IndexOfCharIsFirst(s: string, c: char, from: int)
    ensures IndexOfChar(s, c, from) >= 0 ==> forall j :: from <= j < IndexOfChar(s, c, from) && 0 <= j ==> s[j] != c
    ensures IndexOfChar(s, c, from) == -1 <==> forall j :: from <= j < |s| && 0 <= j ==> s[j] != c
  {
    if from < |s| {
      CharIndexFromIsFirst(s, c, if from < 0 then 0 else from);
    }
  }

  /** `String.substring(begin, end)`; `None` where Java throws
      `IndexOutOfBoundsException`. */
  function Substring(s: string, begin: int, end: int): (r: Option<string>)
    ensures r.Some? <==> 0 <= begin <= end <= |s|
    ensures r.Some? ==> |r.value| == end - begin
    ensures r.Some? ==> forall j :: 0 <= j < |r.value| ==> r.value[j] == s[begin + j]
  {
    if 0 <= begin <= end <= |s| then Some(s[begin..end]) else None
  }

  predicate IsUpperAscii(c: char) {
    'A' <= c <= 'Z'
  }

  /** `Character.toLowerCase` on the ASCII range; other characters are kept. */
  function LowerChar(c: char): (r: char)
    ensures !IsUpperAscii(r)
    ensures IsUpperAscii(c) ==> r as int == c as int + 32
    ensures !IsUpperAscii(c) ==> r == c
  {
    if IsUpperAscii(c) then (c as int + 32) as char else c
  }

  /** `String.toLowerCase()` restricted to ASCII letters. */
  function ToLowerAscii(s: string): (r: string)
    ensures |r| == |s|
    ensures forall j :: 0 <= j < |r| ==> r[j] == LowerChar(s[j])
  {
    seq(|s|, j requires 0 <= j < |s| => LowerChar(s[j]))
  }

  /** The regex class `\s` without UNICODE_CHARACTER_CLASS: `[ \t\n\x0B\f\r]`. */
  predicate IsWhitespace(c: char) {
    c == ' ' || c == '\t' || c == '\n' || c == '\U{000B}' || c == '\U{000C}' || c == '\r'
  }

  /** The characters the regex `.` refuses to match when DOTALL is off. */
  predicate IsLineTerminator(c: char) {
    c == '\n' || c == '\r' || c == '\U{0085}' || c == '\U{2028}' || c == '\U{2029}'
  }

  /** `replaceAll("\\s", "")`: deletes every whitespace character and keeps
      the rest in order. */
  function RemoveWhitespace(s: string): (r: string)
    ensures forall j :: 0 <= j < |r| ==> !IsWhitespace(r[j])
    ensures multiset(r) <= multiset(s)
    ensures forall j :: 0 <= j < |s| && !IsWhitespace(s[j]) ==> s[j] in r
    decreases |s|
  {
    if |s| == 0 then []
    else
      var rest := RemoveWhitespace(s[1..]);
      assert s == [s[0]] + s[1..];
      if IsWhitespace(s[0]) then rest else [s[0]] + rest
  }

  /** Deleting whitespace from a joined text deletes it from each part, so
      together with `RemoveWhitespaceOneChar` the result is the input with
      its whitespace dropped and everything else kept in order. */
  lemma {:induction false} RemoveWhitespaceAppend(a: string, b: string)
    ensures RemoveWhitespace(a + b) == RemoveWhitespace(a) + RemoveWhitespace(b)
    decreases |a|
  {
    if |a| == 0 {
      assert a + b == b;
    } else {
      assert (a + b)[1..] == a[1..] + b;
      RemoveWhitespaceAppend(a[1..], b);
    }
  }

  /** A single character is deleted exactly when it is whitespace. */
  lemma RemoveWhitespaceOneChar(c: char)
    ensures RemoveWhitespace([c]) == if IsWhitespace(c) then [] else [c]
  {
    assert [c][1..] == [];
  }

  /** A text without whitespace is left as it is. */
  lemma {:induction false} RemoveWhitespaceKeepsPlainText(s: string)
    requires forall j :: 0 <= j < |s| ==> !IsWhitespace(s[j])
    ensures RemoveWhitespace(s) == s
    decreases |s|
  {
    if |s| > 0 {
      RemoveWhitespaceKeepsPlainText(s[1..]);
      assert s == [s[0]] + s[1..];
    }
  }

  /** Lowering twice is lowering once. */
  lemma ToLowerAsciiIdempotent(s: string)
    ensures ToLowerAscii(ToLowerAscii(s)) == ToLowerAscii(s)
  {
  }
}
