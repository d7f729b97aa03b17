/** Finding the generated widget names (`w1`, `w2`, ...) that follow given
    labels in the HTML a form renders. */
module LabeledWidgets {
  import opened Wrappers
  import opened JavaStrings

  /** The attribute prefix that opens a generated widget name: `name="w`. */
  const NameAttr: string := "name=\"w"

  /** The one iteration of the label loop: `None` when the label does not
      occur (the `continue`) and when the lookup throws inside the `try`
      block, whose exception is swallowed. The searches use Java's `indexOf`,
      so a missing `name="w` makes the quote search start again at index 0. */
  function WidgetAfter(html: string, labelText: string): (r: Option<string>)
    ensures r.Some? ==> Contains(html, labelText)
  {
    var index := IndexOf(html, labelText, 0);
    if index < 0 then None
    else
      var attr := IndexOf(html, NameAttr, index);
      var begin := IndexOfChar(html, '"', attr) + 1;
      Substring(html, begin, IndexOfChar(html, '"', begin + 1))
  }

  /** `getLabeledWidgets`: labels are visited in order and each successful
      lookup is stored under its label. */
  function GetLabeledWidgets(html: string, labels: seq<string>): (r: map<string, string>)
    ensures forall k :: k in r ==> k in labels && Contains(html, k)
    ensures forall k :: k in r ==> WidgetAfter(html, k) == Some(r[k])
    ensures forall k :: k in labels && WidgetAfter(html, k).Some? ==> k in r
    decreases |labels|
  {
    if |labels| == 0 then map[]
    else
      var earlier := GetLabeledWidgets(html, labels[..|labels| - 1]);
      var labelText := labels[|labels| - 1];
      match WidgetAfter(html, labelText)
      case None => earlier
      case Some(name) => earlier[labelText := name]
  }

  /** A label that does not occur in the page never becomes a key. */
  lemma MissingLabelIsSkipped(html: string, labels: seq<string>, labelText: string)
    requires forall j :: 0 <= j <= |html| ==> !OccursAt(html, labelText, j)
    ensures labelText !in GetLabeledWidgets(html, labels)
  {
  }

  /** When the label's first occurrence is followed by a `name="w` attribute,
      the lookup succeeds exactly when a quote closes the attribute value. */
  lemma WidgetLookupNeedsClosingQuote(html: string, labelText: string, at: nat, attr: nat)
    requires OccursAt(html, labelText, at)
    requires forall j :: 0 <= j < at ==> !OccursAt(html, labelText, j)
    requires at <= attr && OccursAt(html, NameAttr, attr)
    requires forall j :: at <= j < attr ==> !OccursAt(html, NameAttr, j)
    ensures WidgetAfter(html, labelText).Some? <==> exists e :: attr + |NameAttr| <= e < |html| && html[e] == '"'
  {
    var end := WidgetLookupAtAttribute(html, labelText, at, attr);
    IndexOfCharIsFirst(html, '"', attr + 7);
  }

  /** Under the same hypotheses a stored name is exactly the quoted
      attribute value: it is non-empty, starts with `w`, holds no quote, and
      `name="<it>"` stands at the attribute. */
  lemma WidgetNameIsQuotedAttribute(html: string, labelText: string, at: nat, attr: nat)
    requires OccursAt(html, labelText, at)
    requires forall j :: 0 <= j < at ==> !OccursAt(html, labelText, j)
    requires at <= attr && OccursAt(html, NameAttr, attr)
    requires forall j :: at <= j < attr ==> !OccursAt(html, NameAttr, j)
    ensures WidgetAfter(html, labelText).Some? ==>
              var name := WidgetAfter(html, labelText).value;
              && |name| > 0 && name[0] == 'w'
              && (forall j :: 0 <= j < |name| ==> name[j] != '"')
              && OccursAt(html, "name=\"" + name + "\"", attr)
  {
    var end := WidgetLookupAtAttribute(html, labelText, at, attr);
    if end >= 0 {
      QuotedName(html, attr, end);
    }
  }

  /** Under the hypotheses above, the lookup is the substring from the `w`
      to the next quote, `end` (or fails when `end` is -1). */
  lemma WidgetLookupAtAttribute(html: string, labelText: string, at: nat, attr: nat) returns (end: int)
    requires OccursAt(html, labelText, at)
    requires forall j :: 0 <= j < at ==> !OccursAt(html, labelText, j)
    requires at <= attr && OccursAt(html, NameAttr, attr)
    requires forall j :: at <= j < attr ==> !OccursAt(html, NameAttr, j)
    ensures end == IndexOfChar(html, '"', attr + 7)
    ensures WidgetAfter(html, labelText) == Substring(html, attr + 6, end)
    ensures html[attr..attr + 6] == "name=\"" && html[attr + 6] == 'w'
  {
    SearchesFind(html, labelText, at, NameAttr, attr);
    AttributeLayout(html, attr);
    end := IndexOfChar(html, '"', attr + 7);
  }

  /** The two string searches of the lookup land on the first occurrences. */
  lemma SearchesFind(html: string, labelText: string, at: nat, attrText: string, attr: nat)
    requires OccursAt(html, labelText, at)
    requires forall j :: 0 <= j < at ==> !OccursAt(html, labelText, j)
    requires at <= attr && OccursAt(html, attrText, attr)
    requires forall j :: at <= j < attr ==> !OccursAt(html, attrText, j)
    ensures IndexOf(html, labelText, 0) == at
    ensures IndexOf(html, attrText, at) == attr
  {
    IndexOfIsFirst(html, labelText, 0);
    IndexOfIsFirst(html, attrText, at);
  }

  /** The text from the `w` at `attr + 6` to the quote at `end` is a whole
      quoted attribute value. */
  lemma QuotedName(html: string, attr: nat, end: int)
    requires attr + 7 <= |html|
    requires html[attr..attr + 6] == "name=\"" && html[attr + 6] == 'w'
    requires end >= 0 && end == IndexOfChar(html, '"', attr + 7)
    ensures attr + 6 < end < |html| && html[end] == '"'
    ensures var name := html[attr + 6..end];
              && |name| > 0 && name[0] == 'w'
              && (forall j :: 0 <= j < |name| ==> name[j] != '"')
              && OccursAt(html, "name=\"" + name + "\"", attr)
  {
    var name := html[attr + 6..end];
    IndexOfCharIsFirst(html, '"', attr + 7);
    forall j | 0 <= j < |name|
      ensures name[j] != '"'
    {
      assert name[j] == html[attr + 6 + j];
    }
    assert html[attr..end + 1] == html[attr..attr + 6] + name + html[end..end + 1];
  }

  /** The characters of an occurrence of `name="w` at `attr`. */
  lemma AttributeLayout(html: string, attr: nat)
    requires OccursAt(html, NameAttr, attr)
    ensures html[attr..attr + 6] == "name=\""
    ensures html[attr + 6] == 'w'
    ensures IndexOfChar(html, '"', attr) == attr + 5
  {
    var w := html[attr..attr + |NameAttr|];
    assert w == NameAttr;
    assert html[attr..attr + 6] == w[..6];
    assert html[attr] == w[0] == 'n';
    assert html[attr + 1] == w[1] == 'a';
    assert html[attr + 2] == w[2] == 'm';
    assert html[attr + 3] == w[3] == 'e';
    assert html[attr + 4] == w[4] == '=';
    assert html[attr + 5] == w[5] == '"';
    assert html[attr + 6] == w[6] == 'w';
    IndexOfCharIsFirst(html, '"', attr);
  }

  /** The quirk of the `indexOf` chain: when no `name="w` follows the label,
      the quote search starts over at the beginning of the page, so the
      stored name is the text after the page's first quote, up to the next
      quote that is not immediately after it. */
  lemma WidgetSearchRestartsAtPageStart(html: string, labelText: string, at: nat, q: nat)
    requires OccursAt(html, labelText, at)
    requires forall j :: 0 <= j < at ==> !OccursAt(html, labelText, j)
    requires forall j :: at <= j ==> !OccursAt(html, NameAttr, j)
    requires q < |html| && html[q] == '"'
    requires forall j :: 0 <= j < q ==> html[j] != '"'
    ensures WidgetAfter(html, labelText).Some? <==> exists e :: q + 2 <= e < |html| && html[e] == '"'
    ensures forall e :: q + 2 <= e < |html| && html[e] == '"' && (forall j :: q + 2 <= j < e ==> html[j] != '"') ==>
              WidgetAfter(html, labelText) == Some(html[q + 1..e])
  {
    LookupRestarts(html, labelText, at, q);
    QuoteToQuote(html, q);
  }

  /** The text from after the quote at `q` to the next quote that is not
      right after it. */
  lemma QuoteToQuote(html: string, q: nat)
    requires q < |html|
    ensures Substring(html, q + 1, IndexOfChar(html, '"', q + 2)).Some? <==> exists e :: q + 2 <= e < |html| && html[e] == '"'
    ensures forall e :: q + 2 <= e < |html| && html[e] == '"' && (forall j :: q + 2 <= j < e ==> html[j] != '"') ==>
              Substring(html, q + 1, IndexOfChar(html, '"', q + 2)) == Some(html[q + 1..e])
  {
    var end := IndexOfChar(html, '"', q + 2);
    IndexOfCharIsFirst(html, '"', q + 2);
    if end >= 0 {
      assert Substring(html, q + 1, end) == Some(html[q + 1..end]);
    }
  }

  /** The lookup of the quirk above, step by step. */
  lemma LookupRestarts(html: string, labelText: string, at: nat, q: nat)
    requires OccursAt(html, labelText, at)
    requires forall j :: 0 <= j < at ==> !OccursAt(html, labelText, j)
    requires forall j :: at <= j ==> !OccursAt(html, NameAttr, j)
    requires q < |html| && html[q] == '"'
    requires forall j :: 0 <= j < q ==> html[j] != '"'
    ensures WidgetAfter(html, labelText) == Substring(html, q + 1, IndexOfChar(html, '"', q + 2))
  {
    IndexOfIsFirst(html, labelText, 0);
    IndexOfIsFirst(html, NameAttr, at);
    IndexOfCharIsFirst(html, '"', -1);
  }

  /** With no quote anywhere and no `name="w` after the label, the lookup
      throws and the label is left out. */
  lemma NoQuoteMeansNoWidget(html: string, labelText: string)
    requires forall j :: 0 <= j < |html| ==> html[j] != '"'
    ensures WidgetAfter(html, labelText) == None
  {
  }
}
