/** The text resolver of iTranslate: the translation store is an ordered list of entries, each
    with a `type` and one text per language. `getTranslatedValue` finds the first entry whose
    source-language text matches the live text and produces its target-language text (a literal
    entry's text as it is, a message entry's template with the extracted token values put in);
    when nothing matches and the text holds exactly one `<script>`, it translates the part
    before the marker and keeps the rest. */
module TextResolver {
  import opened JsValues
  import opened JsStrings
  import opened TokenTemplate

  /** One entry of the translation store: its `type` property (absent when undefined) and its
      text for each language name present on it. */
  datatype Entry = Entry(msgType: Option<string>, text: map<string, string>)

  /** `item[lang]`: the entry's text for a language, undefined when the entry has none. */
  function Text(e: Entry, lang: string): Option<string> {
    if lang in e.text then Some(e.text[lang]) else None
  }

  /** Only the type "message" selects the token template matcher; any other type, or none,
      is compared literally. */
  predicate IsMessageType(msgType: Option<string>) {
    msgType == Some("message")
  }

  /** isTextMatched: the comparison its type selects. */
  predicate TextMatched(msgType: Option<string>, actual: Option<string>, current: string): (b: bool)
    ensures b ==> actual.Some?
    ensures !IsMessageType(msgType) && actual == Some(current) ==> b
  {
    if IsMessageType(msgType) then MessageMatched(actual, current) else LiteralMatched(actual, current)
  }

  /** What getTranslatedText returns. A literal entry gives its target text as it is (undefined
      when the entry has no target text). A message entry gives the target template with the
      first occurrence of each source token replaced, in token order, by the value extracted for
      it. When the source text is undefined, has no token, or the target text is undefined, the
      call throws inside the try and the live text comes back. */
  function TranslatedText(msgType: Option<string>, actual: Option<string>,
                          translated: Option<string>, current: string): Option<string>
  {
    if !IsMessageType(msgType) then translated
    else if actual.None? then Some(current)
    else
      var p := Parse(actual.value);
      if |p.tokens| == 0 || translated.None? then Some(current)
      else Some(ReplaceFirstN(translated.value, p.tokens, TokenValues(p, current), |p.tokens|))
  }

  /** getTranslatedText: a literal entry's text as it is, a message entry's target template filled. */
  method GetTranslatedText(msgType: Option<string>, actualMsg: Option<string>,
                           translatedMsg: Option<string>, currentMsg: string)
    returns (r: Option<string>)
    ensures r == TranslatedText(msgType, actualMsg, translatedMsg, currentMsg)
  {
    if !IsMessageType(msgType) {
      return translatedMsg;
    }
    if actualMsg.None? {
      return Some(currentMsg);
    }
    var p := Parse(actualMsg.value);
    if |p.tokens| == 0 || translatedMsg.None? {
      return Some(currentMsg);
    }
    var trxMsgTxt, _ := FillTokens(p, translatedMsg.value, currentMsg);
    r := Some(trxMsgTxt);
  }

  /** A literal entry is translated to its target text, verbatim. */
  lemma LiteralTranslatedVerbatim(msgType: Option<string>, actual: Option<string>,
                                  translated: Option<string>, current: string)
    requires !IsMessageType(msgType)
    ensures TranslatedText(msgType, actual, translated, current) == translated
  {
  }

  /** The point of a message entry: a live text that fills the source template with some values
      is recognised, and is translated to the target template filled with the same values. The
      target template may use the source's tokens in any order (`order[k]` is the source token in
      its slot `k`), each exactly once, and the anchors and tokens of both must be found where
      they were placed. */
  lemma MessageTranslationCarriesValues(msgType: Option<string>, source: string, p: Template,
                                        target: seq<string>, order: seq<nat>, values: seq<string>)
    requires IsMessageType(msgType) && p == Parse(source)
    requires |p.tokens| > 0 && |values| == |p.tokens|
    requires AnchorsFoundInPlace(p, values) && TokensFoundInPlace(p, values) && DollarFree(values)
    requires |target| == |order| + 1 && IsOrder(order, |p.tokens|)
    requires TargetTokensFoundInPlace(target, p.tokens, order, values)
    ensures TextMatched(msgType, Some(source), Render(p.anchors, values))
    ensures TranslatedText(msgType, Some(source), Some(Render(target, Reordered(p.tokens, order))),
                           Render(p.anchors, values))
         == Some(Render(target, Reordered(values, order)))
  {
    MessageRoundTrip(source, values);
    ReorderedSubstitution(target, p.tokens, order, values);
  }

  /** The index of the first entry whose source-language text matches `s`: what
      `store.filter(...)[0]` picks. */
  function FirstMatch(store: seq<Entry>, from: string, s: string): (r: Option<nat>)
    ensures r.Some? ==> r.value < |store|
    ensures r.Some? ==> TextMatched(store[r.value].msgType, Text(store[r.value], from), s)
    ensures r.Some? ==> forall k :: 0 <= k < r.value ==> !TextMatched(store[k].msgType, Text(store[k], from), s)
    ensures r.None? <==> forall k :: 0 <= k < |store| ==> !TextMatched(store[k].msgType, Text(store[k], from), s)
    decreases |store|
  {
    if |store| == 0 then None
    else if TextMatched(store[0].msgType, Text(store[0], from), s) then Some(0)
    else
      var rest := FirstMatch(store[1..], from, s);
      if rest.None? then None else Some(rest.value + 1)
  }

  /** The first matching entry is the one FirstMatch reports. */
  lemma FirstMatchIs(store: seq<Entry>, from: string, s: string, k: nat)
    requires k < |store| && TextMatched(store[k].msgType, Text(store[k], from), s)
    requires forall j :: 0 <= j < k ==> !TextMatched(store[j].msgType, Text(store[j], from), s)
    ensures FirstMatch(store, from, s) == Some(k)
  {
    var r := FirstMatch(store, from, s);
    assert r.Some?;
    assert !(r.value < k);
    assert !(k < r.value);
  }

  /** The marker of the recovery path. */
  const ScriptMarker := "<script>"

  /** The text getTranslatedValue returns (undefined when a literal entry lacks the target
      language) and whether an entry matched: the flag `highlightElement` is called with. */
  datatype Resolution = Resolution(text: Option<string>, matched: bool)

  /** getTranslatedValue. */
  function Resolve(store: seq<Entry>, original: Option<string>, from: string, to: string): (r: Resolution)
    ensures r.matched ==> original.Some? && original.value != ""
    ensures original.Some? && original.value != "" && FirstMatch(store, from, original.value).Some? ==> r.matched
    decreases if original.Some? then |original.value| else 0
  {
    if original.None? || original.value == "" then Resolution(original, false)
    else
      var s := original.value;
      var k := FirstMatch(store, from, s);
      if k.Some? then
        var e := store[k.value];
        Resolution(TranslatedText(e.msgType, Text(e, from), Text(e, to), s), true)
      else if CountOccurrences(s, ScriptMarker) == 1 then
        var i := IndexOf(s, ScriptMarker);
        var inner := Resolve(store, Some(s[..i]), from, to);
        Resolution(Some(ToText(inner.text) + ScriptMarker + s[i + |ScriptMarker|..]), inner.matched)
      else
        Resolution(original, false)
  }

  /** Empty or undefined text is returned as it is, with no match. */
  lemma ResolveEmpty(store: seq<Entry>, original: Option<string>, from: string, to: string)
    requires original.None? || original.value == ""
    ensures Resolve(store, original, from, to) == Resolution(original, false)
  {
  }

  /** The earliest matching entry decides the translation. */
  lemma ResolveFirstMatchWins(store: seq<Entry>, s: string, from: string, to: string, k: nat)
    requires s != ""
    requires k < |store| && TextMatched(store[k].msgType, Text(store[k], from), s)
    requires forall j :: 0 <= j < k ==> !TextMatched(store[j].msgType, Text(store[j], from), s)
    ensures Resolve(store, Some(s), from, to)
         == Resolution(TranslatedText(store[k].msgType, Text(store[k], from), Text(store[k], to), s), true)
  {
    FirstMatchIs(store, from, s, k);
  }

  /** '<' occurs in the marker only at its start. */
  lemma MarkerHasNoInnerOpen(d: nat)
    requires 0 < d < |ScriptMarker|
    ensures ScriptMarker[d] != '<'
  {
  }

  /** In `pre + "<script>" + post` with no marker inside `pre` or `post`, the marker is found
      exactly once, at the end of `pre`: an occurrence overlapping the boundaries would need a
      second '<' inside the marker. */
  lemma MarkerOnlyAt(pre: string, post: string)
    requires !Contains(pre, ScriptMarker) && !Contains(post, ScriptMarker)
    ensures IndexOf(pre + ScriptMarker + post, ScriptMarker) == |pre|
    ensures !Contains(post, ScriptMarker)
    ensures (pre + ScriptMarker + post)[|pre| + |ScriptMarker|..] == post
  {
    var m := ScriptMarker;
    var s := pre + m + post;
    assert s[|pre|..|pre| + |m|] == m;
    forall j: nat | j < |pre|
      ensures !OccursAt(s, m, j)
    {
      if OccursAt(s, m, j) {
        if j + |m| <= |pre| {
          assert pre[j..j + |m|] == s[j..j + |m|];
          assert OccursAt(pre, m, j);
        } else {
          var d := |pre| - j;
          assert s[j..j + |m|][d] == s[|pre|];
          MarkerHasNoInnerOpen(d);
        }
      }
    }
    IndexOfIs(s, m, |pre|);
    assert s[|pre| + |m|..] == post;
  }

  /** Occurrences of the marker in `pre + "<script>" + post`, with none inside `pre` or `post`,
      number exactly one. */
  lemma MarkerCountOne(pre: string, post: string)
    requires !Contains(pre, ScriptMarker) && !Contains(post, ScriptMarker)
    ensures CountOccurrences(pre + ScriptMarker + post, ScriptMarker) == 1
  {
    MarkerOnlyAt(pre, post);
    var s := pre + ScriptMarker + post;
    assert s[IndexOf(s, ScriptMarker) + |ScriptMarker|..] == post;
    CountZero(post, ScriptMarker);
  }

  /** The recovery path: when nothing matches `pre + "<script>" + post` and the marker occurs
      only there, the result is the resolution of `pre`, the marker, and `post` as it was; the
      flag is the one the resolution of `pre` reports. */
  lemma ResolveScriptRecovery(store: seq<Entry>, pre: string, post: string, from: string, to: string)
    requires !Contains(pre, ScriptMarker) && !Contains(post, ScriptMarker)
    requires FirstMatch(store, from, pre + ScriptMarker + post).None?
    ensures var inner := Resolve(store, Some(pre), from, to);
      Resolve(store, Some(pre + ScriptMarker + post), from, to)
        == Resolution(Some(ToText(inner.text) + ScriptMarker + post), inner.matched)
  {
    MarkerOnlyAt(pre, post);
    MarkerCountOne(pre, post);
    var s := pre + ScriptMarker + post;
    assert s[..|pre|] == pre;
  }

  /** The text in front of the only marker holds no marker, so the recovery path recurses at
      most once. */
  lemma ScriptPrefixHasNoMarker(s: string)
    requires CountOccurrences(s, ScriptMarker) == 1
    ensures IndexOf(s, ScriptMarker) >= 0
    ensures !Contains(s[..IndexOf(s, ScriptMarker)], ScriptMarker)
    ensures CountOccurrences(s[..IndexOf(s, ScriptMarker)], ScriptMarker) == 0
  {
    CountZero(s, ScriptMarker);
    var i := IndexOf(s, ScriptMarker);
    forall j: nat | j <= i
      ensures !OccursAt(s[..i], ScriptMarker, j)
    {
      OccursAtPrefix(s, ScriptMarker, i, j);
    }
    CountZero(s[..i], ScriptMarker);
  }

  /** With no match and no marker, or two or more, the text is returned unchanged. */
  lemma ResolveNoRecovery(store: seq<Entry>, s: string, from: string, to: string)
    requires FirstMatch(store, from, s).None?
    requires CountOccurrences(s, ScriptMarker) != 1
    ensures Resolve(store, Some(s), from, to) == Resolution(Some(s), false)
  {
  }

  /** The recovery path: the text in front of the only marker is resolved, and the marker and
      the rest follow it unchanged. */
  lemma ResolveRecovers(store: seq<Entry>, s: string, from: string, to: string)
    requires s != "" && FirstMatch(store, from, s).None? && CountOccurrences(s, ScriptMarker) == 1
    ensures var i := IndexOf(s, ScriptMarker);
      && 0 <= i
      && var inner := Resolve(store, Some(s[..i]), from, to);
         Resolve(store, Some(s), from, to)
         == Resolution(Some(ToText(inner.text) + ScriptMarker + s[i + |ScriptMarker|..]), inner.matched)
  {
    CountZero(s, ScriptMarker);
  }

  /** Cutting a text at the first occurrence of the marker and putting it back gives the text. */
  lemma MarkerRejoin(s: string)
    requires Contains(s, ScriptMarker)
    ensures var i := IndexOf(s, ScriptMarker);
      s[..i] + ScriptMarker + s[i + |ScriptMarker|..] == s
  {
    var i := IndexOf(s, ScriptMarker);
    assert s[i..i + |ScriptMarker|] == ScriptMarker;
  }

  /** Whatever path it takes, a resolution that reports no match gives back the text it was
      given: an unmatched prefix put back in front of the marker restores the original. */
  lemma {:induction false} ResolveUnmatchedUnchanged(store: seq<Entry>, original: Option<string>,
                                                      from: string, to: string)
    ensures !Resolve(store, original, from, to).matched ==> Resolve(store, original, from, to).text == original
    decreases if original.Some? then |original.value| else 0
  {
    if original.Some? && original.value != "" {
      var s := original.value;
      if FirstMatch(store, from, s).None? && CountOccurrences(s, ScriptMarker) == 1 {
        ResolveRecovers(store, s, from, to);
        CountZero(s, ScriptMarker);
        var i := IndexOf(s, ScriptMarker);
        ResolveUnmatchedUnchanged(store, Some(s[..i]), from, to);
        MarkerRejoin(s);
      }
    }
  }

  /** A reported match means some entry matched the text, or the text in front of its only
      marker. */
  lemma ResolveMatchedHasEntry(store: seq<Entry>, s: string, from: string, to: string)
    requires Resolve(store, Some(s), from, to).matched
    ensures FirstMatch(store, from, s).Some?
         || (CountOccurrences(s, ScriptMarker) == 1
             && FirstMatch(store, from, s[..IndexOf(s, ScriptMarker)]).Some?)
  {
    if FirstMatch(store, from, s).None? {
      ScriptPrefixHasNoMarker(s);
    }
  }
}
