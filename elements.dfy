/** The element translator and candidate selector of iTranslate. An element is a record of its
    markup (`innerHTML`), its rendered text (`innerText`) and its number of child elements;
    `translateElements` rewrites the markup of each element in turn, `translateElementsByQuery`
    keeps the elements whose text has an ASCII letter, marks them eligible and orders them by
    child count (innermost first), and `iTranslateVariables` translates the form-validation
    strings held in page variables. */
module ElementTranslator {
  import opened JsValues
  import opened JsStrings
  import opened TextResolver

  /** What the debug highlighting has left on an element: nothing, or the `iTranslateAttempted`
      attribute together with the success border (`found`) or the not-found border. */
  datatype Highlight = Unmarked | Marked(found: bool)

  /** A page element as the translator sees it. `eligible` is the `iTranslateEligible`
      attribute. */
  class Element {
    var innerHTML: string
    var innerText: string
    const childElementCount: nat
    var eligible: bool
    var highlight: Highlight

    constructor (html: string, text: string, children: nat)
      ensures innerHTML == html && innerText == text && childElementCount == children
      ensures !eligible && highlight == Unmarked
    {
      innerHTML := html;
      innerText := text;
      childElementCount := children;
      eligible := false;
      highlight := Unmarked;
    }
  }

  /** No element occurs twice: `querySelectorAll` yields each node once. */
  predicate Distinct(elements: seq<Element>) {
    forall i, j :: 0 <= i < j < |elements| ==> elements[i] != elements[j]
  }

  /** The text translateElements looks up: `innerText`, or the markup when the text is empty,
      trimmed. */
  function SourceText(html: string, text: string): string {
    Trim(if text != "" then text else html)
  }

  /** How translateElements puts a translation into markup: the first occurrence of the source
      text is replaced by it; when the markup does not contain the source text, the whole markup
      becomes the translation. */
  function Splice(html: string, source: string, translated: string): string {
    if Contains(html, source) then ReplaceFirst(html, source, translated) else translated
  }

  /** Only the first occurrence of the source text is replaced; the markup before and after it
      is kept. */
  lemma SpliceFirstOccurrence(html: string, source: string, translated: string)
    requires Contains(html, source) && '$' !in translated
    ensures var i := IndexOf(html, source);
      && 0 <= i
      && (forall k: nat :: k < i ==> !OccursAt(html, source, k))
      && Splice(html, source, translated) == html[..i] + translated + html[i + |source|..]
  {
    ReplaceFirstPlain(html, source, translated);
  }

  /** Splicing the source text in for itself leaves markup that holds it unchanged. */
  lemma SpliceSame(html: string, source: string)
    requires Contains(html, source) && '$' !in source
    ensures Splice(html, source, source) == html
  {
    ReplaceFirstPlain(html, source, source);
    var i := IndexOf(html, source);
    assert html[i..i + |source|] == source;
    assert html[..i] + source + html[i + |source|..] == html;
  }

  /** The new markup of one element: its source text looked up and spliced into the markup. An
      undefined translation is written as the word "undefined". */
  function RewriteMarkup(html: string, text: string, store: seq<Entry>, from: string, to: string): string {
    var t := SourceText(html, text);
    Splice(html, t, ToText(Resolve(store, Some(t), from, to).text))
  }

  /** Whether the lookup for one element found an entry: the flag highlighting reports. */
  predicate LookupMatched(html: string, text: string, store: seq<Entry>, from: string, to: string) {
    Resolve(store, Some(SourceText(html, text)), from, to).matched
  }

  /** When the markup does not contain the source text, it is replaced as a whole. */
  lemma RewriteWholeMarkup(html: string, text: string, store: seq<Entry>, from: string, to: string)
    requires !Contains(html, SourceText(html, text))
    ensures RewriteMarkup(html, text, store, from, to)
         == ToText(Resolve(store, Some(SourceText(html, text)), from, to).text)
  {
  }

  /** An element nothing matched keeps its markup when the markup holds its text. */
  lemma RewriteUnmatchedKeepsMarkup(html: string, text: string, store: seq<Entry>, from: string, to: string)
    requires !LookupMatched(html, text, store, from, to)
    requires Contains(html, SourceText(html, text)) && '$' !in SourceText(html, text)
    ensures RewriteMarkup(html, text, store, from, to) == html
  {
    var t := SourceText(html, text);
    ResolveUnmatchedUnchanged(store, Some(t), from, to);
    SpliceSame(html, t);
  }

  /** But an element nothing matched whose markup does not hold its text (its text spans child
      elements or entities) loses its markup: it is replaced by the trimmed text. */
  lemma RewriteUnmatchedFlattens(html: string, text: string, store: seq<Entry>, from: string, to: string)
    requires !LookupMatched(html, text, store, from, to)
    requires !Contains(html, SourceText(html, text))
    ensures RewriteMarkup(html, text, store, from, to) == SourceText(html, text)
  {
    ResolveUnmatchedUnchanged(store, Some(SourceText(html, text)), from, to);
  }

  /** The body of the loop of translateElements for one element. */
  method TranslateElement(element: Element, store: seq<Entry>, from: string, to: string, debug: bool)
    modifies element
    ensures element.innerHTML == RewriteMarkup(old(element.innerHTML), old(element.innerText), store, from, to)
    ensures element.highlight
         == if debug then Marked(LookupMatched(old(element.innerHTML), old(element.innerText), store, from, to))
            else old(element.highlight)
    ensures element.innerText == old(element.innerText) && element.eligible == old(element.eligible)
  {
    var currentHtml := element.innerHTML;
    var currentText := element.innerText;
    var originalText := if currentText != "" then currentText else currentHtml;
    var source := Trim(originalText);
    var res := Resolve(store, Some(source), from, to);
    if debug {
      element.highlight := Marked(res.matched);
    }
    if Contains(currentHtml, source) {
      element.innerHTML := ReplaceFirst(currentHtml, source, ToText(res.text));
    } else {
      element.innerHTML := ToText(res.text);
    }
  }

  /** translateElements: each element in the given order gets its markup rewritten from the
      markup and text it had; with debugging on, each is highlighted with the
      outcome of its lookup. */
  method TranslateElements(elements: seq<Element>, store: seq<Entry>, from: string, to: string, debug: bool)
    requires Distinct(elements)
    modifies set e | e in elements
    ensures forall e :: e in elements ==>
      (e.innerHTML, e.highlight)
        == AfterTranslation(old(e.innerHTML), old(e.innerText), old(e.highlight), store, from, to, debug)
    ensures forall e :: e in elements ==> e.innerText == old(e.innerText) && e.eligible == old(e.eligible)
  {
    var index := 0;
    while index < |elements|
      invariant 0 <= index <= |elements|
      invariant forall i :: 0 <= i < |elements| ==>
        elements[i].innerText == old(elements[i].innerText) && elements[i].eligible == old(elements[i].eligible)
        && (elements[i].innerHTML, elements[i].highlight)
           == (if i < index then
                 AfterTranslation(old(elements[i].innerHTML), old(elements[i].innerText), old(elements[i].highlight),
                                  store, from, to, debug)
               else (old(elements[i].innerHTML), old(elements[i].highlight)))
    {
      var element := elements[index];
      assert forall i :: 0 <= i < |elements| && i != index ==> elements[i] != element;
      TranslateElement(element, store, from, to, debug);
      index := index + 1;
    }
  }

  /** The markup and highlight an element has once its turn in translateElements is over. */
  function AfterTranslation(html: string, text: string, highlight: Highlight, store: seq<Entry>, from: string, to: string,
                            debug: bool): (string, Highlight)
  {
    (RewriteMarkup(html, text, store, from, to),
     if debug then Marked(LookupMatched(html, text, store, from, to)) else highlight)
  }

  /** An ASCII letter, the class `[a-zA-Z]`. */
  predicate IsAsciiLetter(c: char) {
    ('a' <= c <= 'z') || ('A' <= c <= 'Z')
  }

  // The selection test of translateElementsByQuery: the element's text is not empty and the
  // global regex `.*[a-zA-Z]+.*` finds a match in it, that is, it has an ASCII letter somewhere
  // (the `.*` on either side may match nothing).
  predicate HasAsciiLetter(s: string) {
    exists i :: 0 <= i < |s| && IsAsciiLetter(s[i])
  }

  /** The elements that pass the selection test, in their document order. */
  function EligibleOf(nodes: seq<Element>): (r: seq<Element>)
    reads set e | e in nodes
    ensures |r| <= |nodes|
    ensures forall i :: 0 <= i < |r| ==> r[i] in nodes && HasAsciiLetter(r[i].innerText)
  {
    if |nodes| == 0 then []
    else
      var rest := EligibleOf(nodes[..|nodes| - 1]);
      var last := nodes[|nodes| - 1];
      if HasAsciiLetter(last.innerText) then rest + [last] else rest
  }

  /** The selection keeps exactly the elements with a letter in their text. */
  lemma {:induction false} EligibleMembers(nodes: seq<Element>)
    ensures forall e :: e in EligibleOf(nodes) <==> e in nodes && HasAsciiLetter(e.innerText)
    decreases |nodes|
  {
    if |nodes| > 0 {
      var init := nodes[..|nodes| - 1];
      EligibleMembers(init);
      assert nodes == init + [nodes[|nodes| - 1]];
    }
  }

  /** A sub-sequence of a sequence without duplicates has none either. */
  lemma {:induction false} EligibleDistinct(nodes: seq<Element>)
    requires Distinct(nodes)
    ensures Distinct(EligibleOf(nodes))
    decreases |nodes|
  {
    if |nodes| > 0 {
      var init := nodes[..|nodes| - 1];
      assert Distinct(init);
      EligibleDistinct(init);
      assert nodes[|nodes| - 1] !in init;
    }
  }

  /** The selection loop of translateElementsByQuery: the elements with a letter in their text,
      in order, each marked `iTranslateEligible`. */
  method SelectEligible(nodes: seq<Element>) returns (eligibleElements: seq<Element>)
    modifies set e | e in nodes
    ensures eligibleElements == old(EligibleOf(nodes))
    ensures forall e :: e in nodes ==> e.eligible == (old(e.eligible) || HasAsciiLetter(old(e.innerText)))
    ensures forall e :: e in nodes ==>
      e.innerHTML == old(e.innerHTML) && e.innerText == old(e.innerText)
      && e.highlight == old(e.highlight)
  {
    eligibleElements := [];
    var index := 0;
    while index < |nodes|
      invariant 0 <= index <= |nodes|
      invariant eligibleElements == old(EligibleOf(nodes[..index]))
      invariant forall e :: e in nodes ==>
        e.innerHTML == old(e.innerHTML) && e.innerText == old(e.innerText)
        && e.highlight == old(e.highlight)
      invariant forall e :: e in nodes ==>
        e.eligible == (old(e.eligible) || (e in nodes[..index] && HasAsciiLetter(old(e.innerText))))
    {
      var element := nodes[index];
      assert nodes[..index + 1][..index] == nodes[..index];
      if HasAsciiLetter(element.innerText) {
        element.eligible := true;
        eligibleElements := eligibleElements + [element];
      }
      assert forall e :: e in nodes[..index + 1] <==> e in nodes[..index] || e == element;
      index := index + 1;
    }
    assert nodes[..index] == nodes;
  }

  /** Child counts never decrease along `s`. */
  predicate SortedByChildCount(s: seq<Element>) {
    forall i, j :: 0 <= i < j < |s| ==> s[i].childElementCount <= s[j].childElementCount
  }

  /** The elements of `s` with `n` child elements, in their order in `s`. */
  function WithChildCount(s: seq<Element>, n: nat): seq<Element> {
    if |s| == 0 then []
    else
      var rest := WithChildCount(s[..|s| - 1], n);
      if s[|s| - 1].childElementCount == n then rest + [s[|s| - 1]] else rest
  }

  /** Puts `x` into the sorted `s` after every element whose count is not greater than its own. */
  function InsertByChildCount(s: seq<Element>, x: Element): (r: seq<Element>)
    ensures multiset(r) == multiset(s) + multiset{x}
    decreases |s|
  {
    if |s| == 0 || s[|s| - 1].childElementCount <= x.childElementCount then s + [x]
    else
      var init := s[..|s| - 1];
      assert s == init + [s[|s| - 1]];
      InsertByChildCount(init, x) + [s[|s| - 1]]
  }

  /** `eligibleElements.sort((a, b) => a.childElementCount - b.childElementCount)`: the sort is
      stable, so it is the insertion sort that puts each element after the earlier ones with a
      count not greater than its own. */
  function SortByChildCount(s: seq<Element>): (r: seq<Element>)
    ensures multiset(r) == multiset(s)
    decreases |s|
  {
    if |s| == 0 then []
    else
      var init := s[..|s| - 1];
      assert s == init + [s[|s| - 1]];
      InsertByChildCount(SortByChildCount(init), s[|s| - 1])
  }

  /** A sequence is its front followed by its last element. */
  lemma LastSplit<T>(s: seq<T>)
    requires |s| > 0
    ensures s == s[..|s| - 1] + [s[|s| - 1]]
  {
  }

  /** Inserting keeps every count under a bound that `s` and `x` keep. */
  lemma {:induction false} InsertBounded(s: seq<Element>, x: Element, m: nat)
    requires forall k :: 0 <= k < |s| ==> s[k].childElementCount <= m
    requires x.childElementCount <= m
    ensures forall k :: 0 <= k < |InsertByChildCount(s, x)| ==> InsertByChildCount(s, x)[k].childElementCount <= m
    decreases |s|
  {
    if |s| > 0 && s[|s| - 1].childElementCount > x.childElementCount {
      InsertBounded(s[..|s| - 1], x, m);
    }
  }

  /** Appending an element no smaller than any before it keeps the order. */
  lemma SortedAppend(r: seq<Element>, y: Element)
    requires SortedByChildCount(r)
    requires forall k :: 0 <= k < |r| ==> r[k].childElementCount <= y.childElementCount
    ensures SortedByChildCount(r + [y])
  {
  }

  lemma {:induction false} InsertSorted(s: seq<Element>, x: Element)
    requires SortedByChildCount(s)
    ensures SortedByChildCount(InsertByChildCount(s, x))
    decreases |s|
  {
    if |s| == 0 || s[|s| - 1].childElementCount <= x.childElementCount {
      SortedAppend(s, x);
    } else {
      var init, last := s[..|s| - 1], s[|s| - 1];
      InsertSorted(init, x);
      InsertBounded(init, x, last.childElementCount);
      SortedAppend(InsertByChildCount(init, x), last);
    }
  }

  /** The sort orders the elements by child count. */
  lemma {:induction false} SortSorted(s: seq<Element>)
    ensures SortedByChildCount(SortByChildCount(s))
    decreases |s|
  {
    if |s| > 0 {
      SortSorted(s[..|s| - 1]);
      InsertSorted(SortByChildCount(s[..|s| - 1]), s[|s| - 1]);
    }
  }

  lemma WithChildCountSingle(e: Element, n: nat)
    ensures WithChildCount([e], n) == if e.childElementCount == n then [e] else []
  {
    assert [e][..0] == [];
  }

  lemma {:induction false} WithChildCountAppend(a: seq<Element>, b: seq<Element>, n: nat)
    ensures WithChildCount(a + b, n) == WithChildCount(a, n) + WithChildCount(b, n)
    decreases |b|
  {
    if |b| == 0 {
      assert a + b == a;
    } else {
      var init, last := b[..|b| - 1], b[|b| - 1];
      assert (a + b)[..|a + b| - 1] == a + init;
      assert (a + b)[|a + b| - 1] == last;
      WithChildCountAppend(a, init, n);
    }
  }

  lemma {:induction false} InsertKeepsOrder(s: seq<Element>, x: Element, n: nat)
    ensures WithChildCount(InsertByChildCount(s, x), n)
         == WithChildCount(s, n) + WithChildCount([x], n)
    decreases |s|
  {
    if |s| == 0 || s[|s| - 1].childElementCount <= x.childElementCount {
      WithChildCountAppend(s, [x], n);
    } else {
      var init, last := s[..|s| - 1], s[|s| - 1];
      var inserted := InsertByChildCount(init, x);
      var before, single, lastOnly := WithChildCount(init, n), WithChildCount([x], n), WithChildCount([last], n);
      WithChildCountSingle(x, n);
      WithChildCountSingle(last, n);
      calc {
        WithChildCount(InsertByChildCount(s, x), n);
        WithChildCount(inserted + [last], n);
        { WithChildCountAppend(inserted, [last], n); }
        WithChildCount(inserted, n) + lastOnly;
        { InsertKeepsOrder(init, x, n); }
        before + single + lastOnly;
        { assert single == [] || lastOnly == []; }
        before + lastOnly + single;
        { WithChildCountAppend(init, [last], n); LastSplit(s); }
        WithChildCount(s, n) + single;
      }
    }
  }

  /** The sort is stable: elements with the same child count keep their relative order. */
  lemma {:induction false} SortStable(s: seq<Element>, n: nat)
    ensures WithChildCount(SortByChildCount(s), n) == WithChildCount(s, n)
    decreases |s|
  {
    if |s| > 0 {
      var init, last := s[..|s| - 1], s[|s| - 1];
      assert SortByChildCount(s) == InsertByChildCount(SortByChildCount(init), last);
      SortStable(init, n);
      InsertKeepsOrder(SortByChildCount(init), last, n);
      LastSplit(s);
      WithChildCountAppend(init, [last], n);
    }
  }

  /** Reordering a sequence without duplicates keeps it without duplicates. */
  lemma PermutationDistinct(s: seq<Element>, t: seq<Element>)
    requires Distinct(s) && multiset(t) == multiset(s)
    ensures Distinct(t)
  {
    forall i, j | 0 <= i < j < |t|
      ensures t[i] != t[j]
    {
      if t[i] == t[j] {
        var x := t[i];
        assert multiset(t)[x] >= 2 by {
          assert t == t[..i] + [x] + t[i + 1..j] + [x] + t[j + 1..];
        }
        DistinctCountOne(s, x);
      }
    }
  }

  lemma DistinctCountOne(s: seq<Element>, x: Element)
    requires Distinct(s)
    ensures multiset(s)[x] <= 1
    decreases |s|
  {
    if |s| > 0 {
      var init := s[..|s| - 1];
      assert s == init + [s[|s| - 1]];
      assert Distinct(init);
      DistinctCountOne(init, x);
      if s[|s| - 1] == x {
        assert x !in init;
      }
    }
  }

  /** translateElementsByQuery, over the nodes the query selected: the eligible ones are marked,
      ordered innermost first and translated; the others are left as they were. */
  method TranslateElementsByQuery(nodes: seq<Element>, store: seq<Entry>, from: string, to: string, debug: bool)
    requires Distinct(nodes)
    modifies set e | e in nodes
    ensures forall e :: e in nodes ==> e.eligible == (old(e.eligible) || HasAsciiLetter(old(e.innerText)))
    ensures forall e :: e in nodes ==>
      (e.innerHTML, e.highlight)
        == (if HasAsciiLetter(old(e.innerText))
            then AfterTranslation(old(e.innerHTML), old(e.innerText), old(e.highlight), store, from, to, debug)
            else (old(e.innerHTML), old(e.highlight)))
    ensures forall e :: e in nodes ==> e.innerText == old(e.innerText)
  {
    EligibleDistinct(nodes);
    EligibleMembers(nodes);
    var eligibleElements := SelectEligible(nodes);
    var sorted := SortByChildCount(eligibleElements);
    PermutationDistinct(eligibleElements, sorted);
    assert forall e :: e in sorted <==> e in eligibleElements by {
      assert forall e :: e in sorted <==> e in multiset(sorted);
      assert forall e :: e in eligibleElements <==> e in multiset(eligibleElements);
    }
    TranslateElements(sorted, store, from, to, debug);
  }

  /** Each value replaced by what getTranslatedValue returns for it. */
  function TranslatedAll(values: seq<Option<string>>, store: seq<Entry>, from: string, to: string): (r: seq<Option<string>>)
    ensures |r| == |values|
  {
    seq(|values|, i requires 0 <= i < |values| => Resolve(store, values[i], from, to).text)
  }

  /** A format the store has no entry for keeps its value. */
  lemma TranslatedAllKeepsUnmatched(values: seq<Option<string>>, store: seq<Entry>, from: string, to: string, i: nat)
    requires i < |values| && !Resolve(store, values[i], from, to).matched
    ensures TranslatedAll(values, store, from, to)[i] == values[i]
  {
    ResolveUnmatchedUnchanged(store, values[i], from, to);
  }

  method TranslateFormats(formats: array<Option<string>>, store: seq<Entry>, from: string, to: string)
    modifies formats
    ensures formats[..] == TranslatedAll(old(formats[..]), store, from, to)
  {
    ghost var target := TranslatedAll(formats[..], store, from, to);
    var index := 0;
    while index < formats.Length
      invariant 0 <= index <= formats.Length
      invariant formats[..index] == target[..index]
      invariant formats[index..] == old(formats[..])[index..]
    {
      var res := Resolve(store, formats[index], from, to);
      formats[index] := res.text;
      index := index + 1;
    }
  }

  /** The `_DefaultFormName_Labels` object of the page: its own properties. */
  class FormLabels {
    var labels: map<string, Option<string>>

    constructor (initial: map<string, Option<string>>)
      ensures labels == initial
    {
      labels := initial;
    }

    /** The `for (key in labels)` part of iTranslateVariables: every own property is replaced by
        its translation, and no property is added or removed. */
    method Translate(store: seq<Entry>, from: string, to: string)
      modifies this
      ensures labels.Keys == old(labels).Keys
      ensures forall k :: k in labels ==> labels[k] == Resolve(store, old(labels)[k], from, to).text
    {
      var pending := labels.Keys;
      while pending != {}
        invariant labels.Keys == old(labels).Keys && pending <= labels.Keys
        invariant forall k :: k in labels ==>
          labels[k] == if k in pending then old(labels)[k] else Resolve(store, old(labels)[k], from, to).text
        decreases pending
      {
        var key :| key in pending;
        var res := Resolve(store, labels[key], from, to);
        labels := labels[key := res.text];
        pending := pending - {key};
      }
    }
  }
}
