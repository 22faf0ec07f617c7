/** The token template matcher of iTranslate: a template such as
    "Value &1 must be less than &2" is split by the global regex `&[A-Za-z0-9^_]+` into
    tokens and the anchors between them; `extractStringBetween` pulls one token's value out of
    the live text, and `isMessageMatched` rebuilds the template from those values and accepts
    the live text only when the rebuild equals it. */
module TokenTemplate {
  import opened JsValues
  import opened JsStrings

  /** A character of the class `[A-Za-z0-9^_]`. */
  predicate IsTokenChar(c: char) {
    ('A' <= c <= 'Z') || ('a' <= c <= 'z') || ('0' <= c <= '9') || c == '^' || c == '_'
  }

  /** The regex `&[A-Za-z0-9^_]+` has a match starting at index `i` of `s`. */
  predicate TokenStartsAt(s: string, i: nat) {
    i + 1 < |s| && s[i] == '&' && IsTokenChar(s[i + 1])
  }

  /** `t` is one whole match of the token regex. */
  predicate IsToken(t: string) {
    |t| >= 2 && t[0] == '&' && forall i :: 1 <= i < |t| ==> IsTokenChar(t[i])
  }

  /** No match of the token regex starts inside `a`. */
  predicate FreeOfTokens(a: string) {
    forall i: nat | i < |a| :: !TokenStartsAt(a, i)
  }

  /** A template as `actualMsg.split(regex)` and `actualMsg.match(regex)` see it:
      `anchors` are the parts, `tokens` the matches. */
  datatype Template = Template(anchors: seq<string>, tokens: seq<string>)

  /** anchors[0] + fillers[0] + anchors[1] + ... + fillers[n-1] + anchors[n]. */
  function Render(anchors: seq<string>, fillers: seq<string>): string
    requires |anchors| == |fillers| + 1
    decreases |fillers|
  {
    if |fillers| == 0 then anchors[0]
    else anchors[0] + fillers[0] + Render(anchors[1..], fillers[1..])
  }

  /** `p` is the split of `s` the global token regex produces: the pieces render `s`, every
      token is a match, no match starts inside an anchor, and every token is maximal
      (the anchor after it does not start with a token character). */
  predicate IsTokenSplit(s: string, p: Template) {
    && |p.anchors| == |p.tokens| + 1
    && Render(p.anchors, p.tokens) == s
    && (forall k :: 0 <= k < |p.tokens| ==> IsToken(p.tokens[k]))
    && (forall k :: 0 <= k < |p.anchors| ==> FreeOfTokens(p.anchors[k]))
    && (forall k :: 0 < k < |p.anchors| ==> p.anchors[k] == [] || !IsTokenChar(p.anchors[k][0]))
  }

  /** The number of token characters in `s` from index `i` on (the `+` of the regex, greedy). */
  function TokenRun(s: string, i: nat): (n: nat)
    requires i <= |s|
    ensures i + n <= |s|
    ensures forall k :: i <= k < i + n ==> IsTokenChar(s[k])
    ensures i + n == |s| || !IsTokenChar(s[i + n])
    decreases |s| - i
  {
    if i < |s| && IsTokenChar(s[i]) then 1 + TokenRun(s, i + 1) else 0
  }

  /** Scans `s` left to right the way the global regex does. */
  function Parse(s: string): (p: Template)
    ensures |p.anchors| == |p.tokens| + 1
    decreases |s|
  {
    if |s| == 0 then Template([""], [])
    else if TokenStartsAt(s, 0) then
      var n := 1 + TokenRun(s, 1);
      var rest := Parse(s[n..]);
      Template([""] + rest.anchors, [s[..n]] + rest.tokens)
    else
      var rest := Parse(s[1..]);
      Template([[s[0]] + rest.anchors[0]] + rest.anchors[1..], rest.tokens)
  }

  lemma RenderStartsWithAnchor(a: seq<string>, f: seq<string>)
    requires |a| == |f| + 1
    ensures |a[0]| <= |Render(a, f)| && Render(a, f)[..|a[0]|] == a[0]
  {
  }

  /** After a maximal token, the rendered rest does not continue the token. */
  lemma RenderHeadNotTokenChar(a: seq<string>, f: seq<string>)
    requires |a| == |f| + 1
    requires forall k :: 0 <= k < |f| ==> IsToken(f[k])
    requires a[0] == [] || !IsTokenChar(a[0][0])
    ensures Render(a, f) == [] || !IsTokenChar(Render(a, f)[0])
  {
    if |f| > 0 && a[0] == [] {
      assert Render(a, f)[0] == f[0][0];
    }
  }

  /** A maximal token in front of a split text extends the split. */
  lemma SplitStepToken(s: string, n: nat, rest: Template)
    requires TokenStartsAt(s, 0) && n == 1 + TokenRun(s, 1)
    requires IsTokenSplit(s[n..], rest)
    ensures IsTokenSplit(s, Template([""] + rest.anchors, [s[..n]] + rest.tokens))
  {
    var p := Template([""] + rest.anchors, [s[..n]] + rest.tokens);
    assert p.anchors[1..] == rest.anchors && p.tokens[1..] == rest.tokens;
    assert s == s[..n] + s[n..];
    assert IsToken(s[..n]);
    assert FreeOfTokens(p.anchors[0]);
    forall k | 0 < k < |p.anchors|
      ensures p.anchors[k] == [] || !IsTokenChar(p.anchors[k][0])
    {
      if k == 1 && p.anchors[1] != [] {
        RenderStartsWithAnchor(rest.anchors, rest.tokens);
        assert p.anchors[1][0] == s[n..][0] == s[n];
      }
    }
  }

  /** A character that starts no token, in front of a split text, joins its first anchor. */
  lemma SplitStepChar(s: string, rest: Template)
    requires |s| > 0 && !TokenStartsAt(s, 0)
    requires IsTokenSplit(s[1..], rest)
    ensures IsTokenSplit(s, Template([[s[0]] + rest.anchors[0]] + rest.anchors[1..], rest.tokens))
  {
    var a0 := [s[0]] + rest.anchors[0];
    var p := Template([a0] + rest.anchors[1..], rest.tokens);
    RenderStartsWithAnchor(rest.anchors, rest.tokens);
    if |rest.tokens| == 0 {
      assert Render(p.anchors, p.tokens) == a0;
    } else {
      assert p.anchors[1..] == rest.anchors[1..];
      assert Render(p.anchors, p.tokens)
          == a0 + rest.tokens[0] + Render(rest.anchors[1..], rest.tokens[1..]);
    }
    assert s == [s[0]] + s[1..];
    forall i: nat
      ensures !TokenStartsAt(a0, i)
    {
      if i == 0 && TokenStartsAt(a0, 0) {
        assert a0[1] == rest.anchors[0][0] == s[1];
        assert TokenStartsAt(s, 0);
      } else if i > 0 {
        assert TokenStartsAt(a0, i) == TokenStartsAt(rest.anchors[0], i - 1);
      }
    }
    forall k | 0 < k < |p.anchors|
      ensures FreeOfTokens(p.anchors[k])
      ensures p.anchors[k] == [] || !IsTokenChar(p.anchors[k][0])
    {
      assert p.anchors[k] == rest.anchors[k];
    }
  }

  /** The split the scan produces is the regex's split. */
  lemma {:induction false} ParseSplits(s: string)
    ensures IsTokenSplit(s, Parse(s))
    decreases |s|
  {
    if |s| == 0 {
    } else if TokenStartsAt(s, 0) {
      var n := 1 + TokenRun(s, 1);
      ParseSplits(s[n..]);
      SplitStepToken(s, n, Parse(s[n..]));
    } else {
      ParseSplits(s[1..]);
      SplitStepChar(s, Parse(s[1..]));
    }
  }

  lemma TokenRunExact(s: string, i: nat, m: nat)
    requires i + m <= |s|
    requires forall k :: i <= k < i + m ==> IsTokenChar(s[k])
    requires i + m == |s| || !IsTokenChar(s[i + m])
    ensures TokenRun(s, i) == m
    decreases m
  {
    if m > 0 {
      TokenRunExact(s, i + 1, m - 1);
    }
  }

  /** How a rendered template starts: with its first anchor when that is not empty
      (a token-free anchor starts no token), otherwise with its first token. */
  lemma RenderStartsToken(a: seq<string>, f: seq<string>)
    requires |a| == |f| + 1
    requires forall k :: 0 <= k < |f| ==> IsToken(f[k])
    requires FreeOfTokens(a[0])
    ensures a[0] != [] ==> !TokenStartsAt(Render(a, f), 0)
    ensures a[0] == [] && |f| > 0 ==> TokenStartsAt(Render(a, f), 0)
  {
    var s := Render(a, f);
    RenderStartsWithAnchor(a, f);
    if |f| > 0 {
      assert s == a[0] + f[0] + Render(a[1..], f[1..]);
    }
    if |a[0]| >= 2 {
      assert !TokenStartsAt(a[0], 0);
      assert s[0] == a[0][0] && s[1] == a[0][1];
    } else if |a[0]| == 1 && |f| > 0 {
      assert s[1] == f[0][0];
    } else if |a[0]| == 0 && |f| > 0 {
      assert s[0] == f[0][0] && s[1] == f[0][1];
    }
  }

  /** A split of a text that starts with a token: the first anchor is empty and the first
      token is the maximal run; the remaining pieces split the rest of the text. */
  lemma SplitAtLeadingToken(s: string, p: Template)
    requires IsTokenSplit(s, p)
    requires TokenStartsAt(s, 0)
    ensures p.anchors[0] == [] && |p.tokens| > 0
    ensures |p.tokens[0]| == 1 + TokenRun(s, 1) && s[..|p.tokens[0]|] == p.tokens[0]
    ensures IsTokenSplit(s[|p.tokens[0]|..], Template(p.anchors[1..], p.tokens[1..]))
  {
    var a, t := p.anchors, p.tokens;
    RenderStartsWithAnchor(a, t);
    if |t| > 0 {
      assert Render(a, t) == a[0] + t[0] + Render(a[1..], t[1..]);
    }
    RenderStartsToken(a, t);
    assert a[0] == [] && |t| > 0;
    var t0 := t[0];
    var q := Template(a[1..], t[1..]);
    var rest := Render(a[1..], t[1..]);
    assert s == t0 + rest;
    RenderHeadNotTokenChar(a[1..], t[1..]);
    TokenRunExact(s, 1, |t0| - 1);
    assert s[..|t0|] == t0 && s[|t0|..] == rest;
    forall k | 0 < k < |q.anchors|
      ensures q.anchors[k] == [] || !IsTokenChar(q.anchors[k][0])
    {
      assert q.anchors[k] == a[k + 1];
    }
  }

  /** A split of a text that does not start with a token: the first anchor holds the first
      character, and the pieces less that character split the rest of the text. */
  lemma SplitAtLeadingChar(s: string, p: Template)
    requires IsTokenSplit(s, p)
    requires |s| > 0 && !TokenStartsAt(s, 0)
    ensures p.anchors[0] != [] && p.anchors[0][0] == s[0]
    ensures IsTokenSplit(s[1..], Template([p.anchors[0][1..]] + p.anchors[1..], p.tokens))
  {
    var a, t := p.anchors, p.tokens;
    RenderStartsWithAnchor(a, t);
    if |t| > 0 {
      assert Render(a, t) == a[0] + t[0] + Render(a[1..], t[1..]);
    }
    RenderStartsToken(a, t);
    assert a[0] != [];
    var a0' := a[0][1..];
    var q := Template([a0'] + a[1..], t);
    assert a[0] == [s[0]] + a0';
    if |t| > 0 {
      assert q.anchors[1..] == a[1..];
    }
    assert Render(q.anchors, q.tokens) == s[1..];
    forall i: nat | i < |a0'|
      ensures !TokenStartsAt(a0', i)
    {
      assert TokenStartsAt(a0', i) == TokenStartsAt(a[0], i + 1);
    }
    forall k | 0 < k < |q.anchors|
      ensures FreeOfTokens(q.anchors[k])
      ensures q.anchors[k] == [] || !IsTokenChar(q.anchors[k][0])
    {
      assert q.anchors[k] == a[k];
    }
  }

  /** The scan of a text that starts with a token, given the scan of the rest. */
  lemma ParseTokenStep(s: string, p: Template)
    requires |p.anchors| == |p.tokens| + 1 && |p.tokens| > 0 && p.anchors[0] == []
    requires TokenStartsAt(s, 0) && |p.tokens[0]| == 1 + TokenRun(s, 1) && s[..|p.tokens[0]|] == p.tokens[0]
    requires Parse(s[|p.tokens[0]|..]) == Template(p.anchors[1..], p.tokens[1..])
    ensures Parse(s) == p
  {
    var n := 1 + TokenRun(s, 1);
    var rest := Parse(s[n..]);
    assert Parse(s) == Template([""] + rest.anchors, [s[..n]] + rest.tokens);
    assert p.anchors == [""] + p.anchors[1..] && p.tokens == [p.tokens[0]] + p.tokens[1..];
  }

  /** The scan of a text that starts with no token, given the scan of the rest. */
  lemma ParseCharStep(s: string, p: Template)
    requires |s| > 0 && !TokenStartsAt(s, 0)
    requires |p.anchors| == |p.tokens| + 1 && p.anchors[0] != [] && p.anchors[0][0] == s[0]
    requires Parse(s[1..]) == Template([p.anchors[0][1..]] + p.anchors[1..], p.tokens)
    ensures Parse(s) == p
  {
    var a := p.anchors;
    var a0 := a[0][1..];
    HeadTail(a[0]);
    HeadTail(a);
    ConsParts(a0, a[1..]);
  }

  lemma HeadTail<T>(x: seq<T>)
    requires |x| > 0
    ensures x == [x[0]] + x[1..]
  {
  }

  lemma ConsParts<T>(h: T, t: seq<T>)
    ensures ([h] + t)[0] == h && ([h] + t)[1..] == t
  {
  }

  /** The regex split is unique: any split with the properties of IsTokenSplit is the scan's. */
  lemma {:induction false} ParseUnique(s: string, p: Template)
    requires IsTokenSplit(s, p)
    ensures Parse(s) == p
    decreases |s|
  {
    var a, t := p.anchors, p.tokens;
    if |s| == 0 {
      RenderStartsToken(a, t);
    } else if TokenStartsAt(s, 0) {
      SplitAtLeadingToken(s, p);
      ParseUnique(s[|t[0]|..], Template(a[1..], t[1..]));
      ParseTokenStep(s, p);
    } else {
      SplitAtLeadingChar(s, p);
      ParseUnique(s[1..], Template([a[0][1..]] + a[1..], t));
      ParseCharStep(s, p);
    }
  }

  /** What `extractStringBetween` needs to succeed: the prefix occurs and, when the suffix is
      not empty, the suffix occurs after the prefix's first occurrence. */
  predicate ExtractionFinds(str: string, prefix: string, suffix: string) {
    IndexOf(str, prefix) >= 0 && (suffix == [] || IndexOf(After(str, prefix), suffix) >= 0)
  }

  /** The text after the first occurrence of `prefix` (what `str.substring(i + prefix.length)` keeps). */
  function After(str: string, prefix: string): string
    requires IndexOf(str, prefix) >= 0
  {
    str[IndexOf(str, prefix) + |prefix|..]
  }

  /** A prefix found at `i` followed, `j` characters later, by a suffix: the whole stretch occurs at `i`. */
  lemma OccursAround(str: string, prefix: string, suffix: string, i: nat, j: nat)
    requires OccursAt(str, prefix, i)
    requires OccursAt(str[i + |prefix|..], suffix, j)
    ensures OccursAt(str, prefix + str[i + |prefix|..][..j] + suffix, i)
  {
    var rest := str[i + |prefix|..];
    var w := prefix + rest[..j] + suffix;
    assert |w| == |prefix| + j + |suffix|;
    forall k | 0 <= k < |w|
      ensures str[i..i + |w|][k] == w[k]
    {
      if k < |prefix| {
      } else if k < |prefix| + j {
        assert w[k] == rest[k - |prefix|];
      } else {
        assert w[k] == suffix[k - |prefix| - j] == rest[j..j + |suffix|][k - |prefix| - j];
      }
    }
  }

  /** extractStringBetween: the text between the first occurrence of `prefix` and the next
      occurrence of `suffix` after it (the whole rest when `suffix` is empty); `""` when
      either search fails. */
  function ExtractBetween(str: string, prefix: string, suffix: string): (r: string)
    ensures !ExtractionFinds(str, prefix, suffix) ==> r == []
    ensures ExtractionFinds(str, prefix, suffix) ==>
      OccursAt(str, prefix + r + suffix, IndexOf(str, prefix))
    ensures ExtractionFinds(str, prefix, suffix) && suffix != [] ==>
      forall k: nat :: k < |r| ==> !OccursAt(After(str, prefix), suffix, k)
    ensures ExtractionFinds(str, prefix, suffix) && suffix == [] ==>
      r == After(str, prefix)
  {
    var i := IndexOf(str, prefix);
    if i < 0 then ""
    else
      var rest := After(str, prefix);
      if suffix == [] then
        assert rest[..|rest|] == rest;
        OccursAround(str, prefix, suffix, i, |rest|);
        rest
      else
        var j := IndexOf(rest, suffix);
        if j < 0 then ""
        else
          OccursAround(str, prefix, suffix, i, j);
          rest[..j]
  }

  /** The values extracted for each token: token i lies between part i and part i + 1. */
  function TokenValues(p: Template, current: string): (values: seq<string>)
    requires |p.anchors| == |p.tokens| + 1
    ensures |values| == |p.tokens|
  {
    seq(|p.tokens|, i requires 0 <= i < |p.tokens| =>
      ExtractBetween(current, p.anchors[i], p.anchors[i + 1]))
  }

  /** `s.replace(tokens[0], values[0])...replace(tokens[j-1], values[j-1])`: the first `j`
      replaces, in token order. */
  function ReplaceFirstN(s: string, tokens: seq<string>, values: seq<string>, j: nat): string
    requires |tokens| == |values| && j <= |tokens|
    decreases j
  {
    if j == 0 then s
    else ReplaceFirst(ReplaceFirstN(s, tokens, values, j - 1), tokens[j - 1], values[j - 1])
  }

  /** isMessageMatched: the template has at least one token (no match makes `match` return
      null and the call fail) and rebuilding it from the extracted values gives the live text. */
  predicate MessageMatched(actual: Option<string>, current: string): (b: bool)
    ensures b ==> actual.Some? && |Parse(actual.value).tokens| > 0
  {
    && actual.Some?
    && var p := Parse(actual.value);
       && |p.tokens| > 0
       && ReplaceFirstN(actual.value, p.tokens, TokenValues(p, current), |p.tokens|) == current
  }

  lemma SliceExtend<T>(v: seq<T>, i: nat)
    requires i < |v|
    ensures v[..i + 1] == v[..i] + [v[i]]
  {
  }

  /** The loop isMessageMatched and getTranslatedText share: for each token in order, extract its
      value from the live text (collected in `tokenValues`) and replace the token's first
      occurrence in `text` by it. */
  method FillTokens(p: Template, text: string, currentMsg: string) returns (filled: string, tokenValues: seq<string>)
    requires |p.anchors| == |p.tokens| + 1
    ensures tokenValues == TokenValues(p, currentMsg)
    ensures filled == ReplaceFirstN(text, p.tokens, tokenValues, |p.tokens|)
  {
    ghost var values := TokenValues(p, currentMsg);
    tokenValues := [];
    filled := text;
    for index := 0 to |p.tokens|
      invariant tokenValues == values[..index]
      invariant filled == ReplaceFirstN(text, p.tokens, values, index)
    {
      var tokenValue := ExtractBetween(currentMsg, p.anchors[index], p.anchors[index + 1]);
      TokenValueAt(p, currentMsg, index);
      SliceExtend(values, index);
      tokenValues := tokenValues + [tokenValue];
      filled := ReplaceFirst(filled, p.tokens[index], tokenValue);
    }
    assert values[..|p.tokens|] == values;
  }

  /** isMessageMatched: rebuild the template from the live text and compare. */
  method IsMessageMatched(actualMsg: Option<string>, currentMsg: string) returns (matched: bool)
    ensures matched == MessageMatched(actualMsg, currentMsg)
  {
    if actualMsg.None? {
      return false;
    }
    var p := Parse(actualMsg.value);
    if |p.tokens| == 0 {
      return false;
    }
    var derived, _ := FillTokens(p, actualMsg.value, currentMsg);
    matched := currentMsg == derived;
  }

  /** anchors[0] + fillers[0] + ... + anchors[i-1] + fillers[i-1]: the text in front of anchor i. */
  function Lead(anchors: seq<string>, fillers: seq<string>, i: nat): string
    requires i <= |fillers| < |anchors|
  {
    if i == 0 then "" else Lead(anchors, fillers, i - 1) + anchors[i - 1] + fillers[i - 1]
  }

  lemma {:induction false} RenderSplit(a: seq<string>, f: seq<string>, i: nat)
    requires |a| == |f| + 1 && i <= |f|
    ensures Render(a, f) == Lead(a, f, i) + Render(a[i..], f[i..])
    decreases i
  {
    if i > 0 {
      RenderSplit(a, f, i - 1);
      assert a[i - 1..][1..] == a[i..] && f[i - 1..][1..] == f[i..];
    }
  }

  lemma {:induction false} LeadPrefix(a: seq<string>, f: seq<string>, g: seq<string>, i: nat)
    requires i <= |f| < |a| && i <= |g| < |a|
    requires f[..i] == g[..i]
    ensures Lead(a, f, i) == Lead(a, g, i)
    decreases i
  {
    if i > 0 {
      assert f[i - 1] == f[..i][i - 1] && g[i - 1] == g[..i][i - 1];
      assert f[..i - 1] == f[..i][..i - 1] && g[..i - 1] == g[..i][..i - 1];
      LeadPrefix(a, f, g, i - 1);
    }
  }

  /** Filling a template with `values`, each anchor after the first is found, by a search from the
      start of the text, exactly where it was placed, and only the last anchor may be empty:
      then the whole-text searches of isMessageMatched recover every value. */
  predicate AnchorsFoundInPlace(p: Template, values: seq<string>)
    requires |p.anchors| == |p.tokens| + 1 && |values| == |p.tokens|
  {
    && (forall i :: 0 < i < |p.tokens| ==> p.anchors[i] != [])
    && (forall i :: 0 < i <= |p.tokens| && p.anchors[i] != [] ==>
          IndexOf(Render(p.anchors, values), p.anchors[i]) == |Lead(p.anchors, values, i)|)
  }

  /** Filling the tokens in order, each token's first occurrence in the partly filled template is
      its own placeholder: then the first-occurrence replaces put every value in its place. */
  predicate TokensFoundInPlace(p: Template, values: seq<string>)
    requires |p.anchors| == |p.tokens| + 1 && |values| == |p.tokens|
  {
    forall j :: 0 <= j < |p.tokens| ==>
      IndexOf(Render(p.anchors, PartlyFilled(p, values, j)), p.tokens[j])
        == |Lead(p.anchors, values, j)| + |p.anchors[j]|
  }

  predicate DollarFree(values: seq<string>) {
    forall i :: 0 <= i < |values| ==> '$' !in values[i]
  }

  /** Anchor `i` of a filled template sits right after the text in front of it. */
  lemma RenderAt(a: seq<string>, f: seq<string>, i: nat)
    requires |a| == |f| + 1 && i < |f|
    ensures Render(a, f) == Lead(a, f, i) + a[i] + f[i] + Render(a[i + 1..], f[i + 1..])
    ensures Lead(a, f, i + 1) == Lead(a, f, i) + a[i] + f[i]
  {
    RenderSplit(a, f, i);
    assert a[i..][1..] == a[i + 1..] && f[i..][1..] == f[i + 1..];
  }

  /** One extraction on plain strings: the prefix is first found after `lead`, and the suffix,
      when not empty, is first found right after the value. */
  lemma ExtractStep(c: string, lead: string, a0: string, v: string, a1: string, r: string)
    requires c == lead + a0 + v + r
    requires lead == [] || IndexOf(c, a0) == |lead|
    requires a1 == [] ==> r == []
    requires a1 != [] ==> IndexOf(c, a1) == |lead| + |a0| + |v|
    ensures ExtractBetween(c, a0, a1) == v
  {
    AfterAnchor(c, lead, a0, v + r);
    if a1 != [] {
      IndexOfSuffix(c, a1, |lead| + |a0|);
      TakePrefix(v, r);
    }
  }

  /** The text after an anchor found right after `lead` is what follows it in `c`. */
  lemma AfterAnchor(c: string, lead: string, a0: string, rest: string)
    requires c == lead + a0 + rest
    requires lead == [] || IndexOf(c, a0) == |lead|
    ensures IndexOf(c, a0) == |lead| && After(c, a0) == rest && c[|lead| + |a0|..] == rest
  {
    if lead == [] {
      IndexOfPrefix(c, a0, rest);
    }
    DropPrefix(lead + a0, rest);
  }

  lemma TakePrefix<T>(x: seq<T>, y: seq<T>)
    ensures (x + y)[..|x|] == x
  {
  }

  lemma DropPrefix<T>(x: seq<T>, y: seq<T>)
    ensures (x + y)[|x|..] == y
  {
  }

  lemma ExtractAt(a: seq<string>, values: seq<string>, i: nat)
    requires |a| == |values| + 1 && i < |values|
    requires i > 0 ==> IndexOf(Render(a, values), a[i]) == |Lead(a, values, i)|
    requires a[i + 1] != [] ==> IndexOf(Render(a, values), a[i + 1]) == |Lead(a, values, i + 1)|
    requires a[i + 1] == [] ==> i + 1 == |values|
    ensures ExtractBetween(Render(a, values), a[i], a[i + 1]) == values[i]
  {
    var c := Render(a, values);
    var lead := Lead(a, values, i);
    var r := Render(a[i + 1..], values[i + 1..]);
    RenderAt(a, values, i);
    if a[i + 1] == [] {
      RenderTailEnd(a, values, i);
    }
    ExtractStep(c, lead, a[i], values[i], a[i + 1], r);
  }

  /** What follows the last filler is the last anchor alone. */
  lemma RenderTailEnd(a: seq<string>, f: seq<string>, i: nat)
    requires |a| == |f| + 1 && i + 1 == |f|
    ensures Render(a[i + 1..], f[i + 1..]) == a[i + 1]
  {
    assert f[i + 1..] == [];
  }

  /** The value of token `i` is the text between anchor `i` and anchor `i + 1`. */
  lemma TokenValueAt(p: Template, current: string, i: nat)
    requires |p.anchors| == |p.tokens| + 1 && i < |p.tokens|
    ensures TokenValues(p, current)[i] == ExtractBetween(current, p.anchors[i], p.anchors[i + 1])
  {
  }

  lemma ExtractOne(p: Template, values: seq<string>, i: nat)
    requires |p.anchors| == |p.tokens| + 1 && |values| == |p.tokens|
    requires AnchorsFoundInPlace(p, values)
    requires i < |p.tokens|
    ensures TokenValues(p, Render(p.anchors, values))[i] == values[i]
  {
    ExtractAt(p.anchors, values, i);
    TokenValueAt(p, Render(p.anchors, values), i);
  }

  /** Extraction inverts filling: the values a filled-in template yields are the ones filled in. */
  lemma ExtractRoundTrip(p: Template, values: seq<string>)
    requires |p.anchors| == |p.tokens| + 1 && |values| == |p.tokens|
    requires AnchorsFoundInPlace(p, values)
    ensures TokenValues(p, Render(p.anchors, values)) == values
  {
    forall i | 0 <= i < |p.tokens|
      ensures TokenValues(p, Render(p.anchors, values))[i] == values[i]
    {
      ExtractOne(p, values, i);
    }
  }

  /** The template with its first `j` tokens filled and the rest still in place. */
  function PartlyFilled(p: Template, values: seq<string>, j: nat): seq<string>
    requires |values| == |p.tokens| && j <= |p.tokens|
  {
    values[..j] + p.tokens[j..]
  }

  lemma FilledAll<T>(v: seq<T>, t: seq<T>)
    requires |v| == |t|
    ensures v[..|v|] + t[|t|..] == v
  {
    assert v[..|v|] == v;
    assert t[|t|..] == [];
  }

  /** Filling token `j` of the partly filled template turns it into the next one. */
  lemma FillStep(p: Template, values: seq<string>, j: nat)
    requires |p.anchors| == |p.tokens| + 1 && |values| == |p.tokens|
    requires j < |p.tokens|
    requires '$' !in values[j]
    requires IndexOf(Render(p.anchors, PartlyFilled(p, values, j)), p.tokens[j])
          == |Lead(p.anchors, values, j)| + |p.anchors[j]|
    ensures ReplaceFirst(Render(p.anchors, PartlyFilled(p, values, j)), p.tokens[j], values[j])
         == Render(p.anchors, PartlyFilled(p, values, j + 1))
  {
    var a, t := p.anchors, p.tokens;
    var before, after := PartlyFilled(p, values, j), PartlyFilled(p, values, j + 1);
    var post := Render(a[j + 1..], t[j + 1..]);
    RenderAt(a, before, j);
    RenderAt(a, after, j);
    LeadPrefix(a, before, values, j);
    LeadPrefix(a, after, values, j);
    assert before[j] == t[j] && after[j] == values[j];
    assert before[j + 1..] == t[j + 1..] && after[j + 1..] == t[j + 1..];
    ReplaceFirstAt(Lead(a, values, j) + a[j], t[j], post, values[j]);
  }

  lemma {:induction false} ReplaceFirstNFills(p: Template, values: seq<string>, j: nat)
    requires |p.anchors| == |p.tokens| + 1 && |values| == |p.tokens|
    requires TokensFoundInPlace(p, values) && DollarFree(values)
    requires j <= |p.tokens|
    ensures ReplaceFirstN(Render(p.anchors, p.tokens), p.tokens, values, j)
         == Render(p.anchors, PartlyFilled(p, values, j))
    decreases j
  {
    if j == 0 {
      assert PartlyFilled(p, values, 0) == p.tokens;
    } else {
      ReplaceFirstNFills(p, values, j - 1);
      FillStep(p, values, j - 1);
    }
  }

  /** Filling the tokens one after the other, by first-occurrence replaces, renders the template
      with the values in place of its tokens. */
  lemma SubstituteRoundTrip(p: Template, values: seq<string>)
    requires |p.anchors| == |p.tokens| + 1 && |values| == |p.tokens|
    requires TokensFoundInPlace(p, values) && DollarFree(values)
    ensures ReplaceFirstN(Render(p.anchors, p.tokens), p.tokens, values, |p.tokens|)
         == Render(p.anchors, values)
  {
    ReplaceFirstNFills(p, values, |p.tokens|);
    FilledAll(values, p.tokens);
  }

  /** `order[k]` is the source token that slot `k` of a target template holds: every slot holds
      a source token, no two slots hold the same one, and every source token has its slot. */
  predicate IsOrder(order: seq<nat>, n: nat) {
    && (forall k :: 0 <= k < |order| ==> order[k] < n)
    && (forall k, l :: 0 <= k < |order| && 0 <= l < |order| && k != l ==> order[k] != order[l])
    && (forall i :: 0 <= i < n ==> i in order)
  }

  /** The source's items placed in the target's slots. */
  function Reordered(xs: seq<string>, order: seq<nat>): (r: seq<string>)
    requires forall k :: 0 <= k < |order| ==> order[k] < |xs|
    ensures |r| == |order|
    ensures forall k :: 0 <= k < |order| ==> r[k] == xs[order[k]]
  {
    seq(|order|, k requires 0 <= k < |order| => xs[order[k]])
  }

  /** The target's slots once the source tokens before `i` are filled: a slot holds its value
      when its source token comes before `i`, and its token otherwise. */
  function FilledBefore(tokens: seq<string>, values: seq<string>, order: seq<nat>, i: nat): seq<string>
    requires |tokens| == |values| == |order|
  {
    seq(|order|, k requires 0 <= k < |order| => if order[k] < i then values[k] else tokens[k])
  }

  /** Filling the source tokens in source order, each token's first occurrence in the partly
      filled target template is its own slot. */
  predicate TargetTokensFoundInPlace(target: seq<string>, tokens: seq<string>, order: seq<nat>,
                                     values: seq<string>)
    requires |target| == |order| + 1 && |values| == |tokens|
    requires forall k :: 0 <= k < |order| ==> order[k] < |tokens|
  {
    var tt, tv := Reordered(tokens, order), Reordered(values, order);
    forall k :: 0 <= k < |order| ==>
      IndexOf(Render(target, FilledBefore(tt, tv, order, order[k])), tokens[order[k]])
        == |Lead(target, FilledBefore(tt, tv, order, order[k]), k)| + |target[k]|
  }

  /** Replacing the filler of slot `k`, found first in its own place, fills that slot alone. */
  lemma FillSlot(a: seq<string>, f: seq<string>, k: nat, v: string)
    requires |a| == |f| + 1 && k < |f| && '$' !in v
    requires IndexOf(Render(a, f), f[k]) == |Lead(a, f, k)| + |a[k]|
    ensures ReplaceFirst(Render(a, f), f[k], v) == Render(a, f[k := v])
  {
    var g := f[k := v];
    RenderAt(a, f, k);
    RenderAt(a, g, k);
    assert f[..k] == g[..k];
    LeadPrefix(a, f, g, k);
    assert f[k + 1..] == g[k + 1..];
    ReplaceFirstAt(Lead(a, f, k) + a[k], f[k], Render(a[k + 1..], f[k + 1..]), v);
  }

  /** Filling source token `i`, which sits in slot `k`, fills that slot alone. */
  lemma FilledBeforeStep(tt: seq<string>, tv: seq<string>, order: seq<nat>, i: nat, k: nat)
    requires |tt| == |tv| == |order| && k < |order| && order[k] == i
    requires forall l :: 0 <= l < |order| && l != k ==> order[l] != i
    ensures FilledBefore(tt, tv, order, i)[k] == tt[k]
    ensures FilledBefore(tt, tv, order, i)[k := tv[k]] == FilledBefore(tt, tv, order, i + 1)
  {
  }

  /** One step of getTranslatedText's fill: source token `i`, first found in its slot `k`. */
  lemma SlotStep(target: seq<string>, tt: seq<string>, tv: seq<string>, order: seq<nat>,
                 i: nat, k: nat)
    requires |target| == |order| + 1 && |tt| == |tv| == |order|
    requires k < |order| && order[k] == i && '$' !in tv[k]
    requires forall l :: 0 <= l < |order| && l != k ==> order[l] != i
    requires IndexOf(Render(target, FilledBefore(tt, tv, order, i)), tt[k])
          == |Lead(target, FilledBefore(tt, tv, order, i), k)| + |target[k]|
    ensures ReplaceFirst(Render(target, FilledBefore(tt, tv, order, i)), tt[k], tv[k])
         == Render(target, FilledBefore(tt, tv, order, i + 1))
  {
    FilledBeforeStep(tt, tv, order, i, k);
    FillSlot(target, FilledBefore(tt, tv, order, i), k, tv[k]);
  }

  /** Source token `i` is replaced in its own slot, whichever that is. */
  lemma ReorderStep(target: seq<string>, tokens: seq<string>, order: seq<nat>, values: seq<string>,
                    tt: seq<string>, tv: seq<string>, i: nat)
    requires |target| == |order| + 1 && |values| == |tokens| && IsOrder(order, |tokens|)
    requires tt == Reordered(tokens, order) && tv == Reordered(values, order)
    requires TargetTokensFoundInPlace(target, tokens, order, values) && DollarFree(values)
    requires i < |tokens|
    ensures ReplaceFirst(Render(target, FilledBefore(tt, tv, order, i)), tokens[i], values[i])
         == Render(target, FilledBefore(tt, tv, order, i + 1))
  {
    assert i in order;
    var k :| 0 <= k < |order| && order[k] == i;
    SlotStep(target, tt, tv, order, i, k);
  }

  /** The first-occurrence replaces, one after the other, pass through `stages`. */
  lemma {:induction false} ReplaceFirstNStages(stages: seq<string>, tokens: seq<string>,
                                               values: seq<string>, i: nat)
    requires |values| == |tokens| && |stages| == |tokens| + 1 && i <= |tokens|
    requires forall j :: 0 <= j < |tokens| ==>
      ReplaceFirst(stages[j], tokens[j], values[j]) == stages[j + 1]
    ensures ReplaceFirstN(stages[0], tokens, values, i) == stages[i]
    decreases i
  {
    if i > 0 {
      ReplaceFirstNStages(stages, tokens, values, i - 1);
    }
  }

  /** Before any token is filled the target holds its tokens; after all, its values. */
  lemma FilledBeforeEnds(tt: seq<string>, tv: seq<string>, order: seq<nat>, n: nat)
    requires |tt| == |tv| == |order| && forall k :: 0 <= k < |order| ==> order[k] < n
    ensures FilledBefore(tt, tv, order, 0) == tt
    ensures FilledBefore(tt, tv, order, n) == tv
  {
  }

  /** Every source token, replaced in turn, fills its own slot. */
  lemma ReorderSteps(target: seq<string>, tokens: seq<string>, order: seq<nat>,
                     values: seq<string>, tt: seq<string>, tv: seq<string>)
    requires |target| == |order| + 1 && |values| == |tokens| && IsOrder(order, |tokens|)
    requires tt == Reordered(tokens, order) && tv == Reordered(values, order)
    requires TargetTokensFoundInPlace(target, tokens, order, values) && DollarFree(values)
    ensures forall j :: 0 <= j < |tokens| ==>
      ReplaceFirst(Render(target, FilledBefore(tt, tv, order, j)), tokens[j], values[j])
        == Render(target, FilledBefore(tt, tv, order, j + 1))
  {
    forall j | 0 <= j < |tokens|
      ensures ReplaceFirst(Render(target, FilledBefore(tt, tv, order, j)), tokens[j], values[j])
           == Render(target, FilledBefore(tt, tv, order, j + 1))
    {
      ReorderStep(target, tokens, order, values, tt, tv, j);
    }
  }

  lemma ReorderedStages(target: seq<string>, tokens: seq<string>, order: seq<nat>,
                        values: seq<string>, tt: seq<string>, tv: seq<string>)
    requires |target| == |order| + 1 && |values| == |tokens| && |tt| == |tv| == |order|
    requires forall j :: 0 <= j < |tokens| ==>
      ReplaceFirst(Render(target, FilledBefore(tt, tv, order, j)), tokens[j], values[j])
        == Render(target, FilledBefore(tt, tv, order, j + 1))
    ensures ReplaceFirstN(Render(target, FilledBefore(tt, tv, order, 0)), tokens, values, |tokens|)
         == Render(target, FilledBefore(tt, tv, order, |tokens|))
  {
    var stages := seq(|tokens| + 1, j requires 0 <= j <= |tokens| =>
                      Render(target, FilledBefore(tt, tv, order, j)));
    ReplaceFirstNStages(stages, tokens, values, |tokens|);
  }

  /** getTranslatedText's fill of a target template whose slots hold the source tokens in any
      order: every slot ends up with the value of its own source token. */
  lemma ReorderedSubstitution(target: seq<string>, tokens: seq<string>, order: seq<nat>,
                              values: seq<string>)
    requires |target| == |order| + 1 && |values| == |tokens| && IsOrder(order, |tokens|)
    requires TargetTokensFoundInPlace(target, tokens, order, values) && DollarFree(values)
    ensures ReplaceFirstN(Render(target, Reordered(tokens, order)), tokens, values, |tokens|)
         == Render(target, Reordered(values, order))
  {
    var tt, tv := Reordered(tokens, order), Reordered(values, order);
    ReorderSteps(target, tokens, order, values, tt, tv);
    ReorderedStages(target, tokens, order, values, tt, tv);
    FilledBeforeEnds(tt, tv, order, |tokens|);
  }

  /** The round trip of isMessageMatched: a live text made by filling a template's tokens is
      matched, and the values extracted from it are the ones filled in, whenever the anchors and
      the tokens are found where they were placed and no value holds a `$`. */
  lemma MessageRoundTrip(template: string, values: seq<string>)
    requires |Parse(template).tokens| > 0 && |values| == |Parse(template).tokens|
    requires AnchorsFoundInPlace(Parse(template), values)
    requires TokensFoundInPlace(Parse(template), values)
    requires DollarFree(values)
    ensures TokenValues(Parse(template), Render(Parse(template).anchors, values)) == values
    ensures MessageMatched(Some(template), Render(Parse(template).anchors, values))
  {
    var p := Parse(template);
    ParseSplits(template);
    ExtractRoundTrip(p, values);
    SubstituteRoundTrip(p, values);
  }

  /** A token right after a token-free anchor is found there first. */
  lemma TokenFirstAfterAnchor(a0: string, tok: string, rest: string)
    requires FreeOfTokens(a0) && IsToken(tok)
    ensures IndexOf(a0 + tok + rest, tok) == |a0|
  {
    var s := a0 + tok + rest;
    assert s[|a0|..|a0| + |tok|] == tok;
    forall k: nat | k < |a0|
      ensures !OccursAt(s, tok, k)
    {
      if k + |tok| <= |s| {
        assert s[k..k + |tok|][0] == s[k] && s[k..k + |tok|][1] == s[k + 1];
        if k + 1 < |a0| {
          assert !TokenStartsAt(a0, k);
          assert s[k] == a0[k] && s[k + 1] == a0[k + 1];
        } else {
          assert s[k + 1] == tok[0];
        }
      }
    }
    IndexOfIs(s, tok, |a0|);
  }

  lemma SingleAnchorsInPlace(p: Template, v: string)
    requires |p.anchors| == 2 && |p.tokens| == 1
    requires p.anchors[1] == [] || IndexOf(p.anchors[0] + v + p.anchors[1], p.anchors[1])
                                   == |p.anchors[0]| + |v|
    ensures AnchorsFoundInPlace(p, [v])
  {
    var a := p.anchors;
    assert Render(a, [v]) == a[0] + v + a[1];
    assert Lead(a, [v], 1) == a[0] + v;
  }

  lemma SingleTokensInPlace(p: Template, v: string)
    requires |p.anchors| == 2 && |p.tokens| == 1
    requires FreeOfTokens(p.anchors[0]) && IsToken(p.tokens[0])
    ensures TokensFoundInPlace(p, [v])
  {
    var a, t := p.anchors, p.tokens;
    assert PartlyFilled(p, [v], 0) == t;
    assert Render(a, t) == a[0] + t[0] + a[1];
    TokenFirstAfterAnchor(a[0], t[0], a[1]);
  }

  /** The single-token case needs no more than this: the trailing anchor, if any, is first found
      right after the value. Then the live text is matched and the value comes back. */
  lemma SingleTokenRoundTrip(template: string, v: string)
    requires |Parse(template).tokens| == 1
    requires '$' !in v
    requires var a := Parse(template).anchors;
      a[1] == [] || IndexOf(a[0] + v + a[1], a[1]) == |a[0]| + |v|
    ensures var a := Parse(template).anchors;
      && MessageMatched(Some(template), a[0] + v + a[1])
      && TokenValues(Parse(template), a[0] + v + a[1]) == [v]
  {
    var p := Parse(template);
    ParseSplits(template);
    SingleAnchorsInPlace(p, v);
    SingleTokensInPlace(p, v);
    MessageRoundTrip(template, [v]);
    assert Render(p.anchors, [v]) == p.anchors[0] + v + p.anchors[1];
  }

  /** Text without an ampersand has no token in it. */
  lemma NoAmpersandFree(a: string)
    requires '&' !in a
    ensures FreeOfTokens(a)
  {
  }

  /** The split of the template "From &1 to &2 to &3". */
  lemma ParseFromToTo()
    ensures Parse("From &1 to &2 to &3")
         == Template(["From ", " to ", " to ", ""], ["&1", "&2", "&3"])
  {
    var p := Template(["From ", " to ", " to ", ""], ["&1", "&2", "&3"]);
    assert Render(p.anchors, p.tokens) == "From &1 to &2 to &3";
    NoAmpersandFree("From ");
    NoAmpersandFree(" to ");
    NoAmpersandFree("");
    assert IsToken("&1") && IsToken("&2") && IsToken("&3");
    ParseUnique("From &1 to &2 to &3", p);
  }

  /** " to " is first found at index 1 of a text that continues a one-letter value. */
  lemma ToAfterLetter(c: char, rest: string)
    requires c != ' '
    ensures IndexOf([c] + " to " + rest, " to ") == 1
  {
    var s := [c] + " to " + rest;
    assert s[1..5] == " to ";
    assert s[0..4][0] == c;
    IndexOfIs(s, " to ", 1);
  }

  /** " to " is first found at index 6 of "From a to b to c". */
  lemma ToInFromAToBToC(c: string)
    requires c == "From a to b to c"
    ensures IndexOf(c, " to ") == 6
  {
    assert c[6..10] == " to ";
    forall k: nat | k < 6
      ensures !OccursAt(c, " to ", k)
    {
      assert c[k..k + 4][0] == c[k] && c[k..k + 4][1] == c[k + 1];
      if k < 4 {
        assert c[k] != ' ';
      } else {
        assert c[k + 1] != 't';
      }
    }
    IndexOfIs(c, " to ", 6);
  }

  /** The value found between a prefix at the start and the first separator after one character. */
  lemma ExtractLetter(c: string, prefix: string, x: char, sep: string, rest: string)
    requires c == prefix + [x] + sep + rest
    requires IndexOf(c, prefix) == 0
    requires IndexOf([x] + sep + rest, sep) == 1
    ensures ExtractBetween(c, prefix, sep) == [x]
  {
    assert c[|prefix|..] == [x] + sep + rest;
    assert After(c, prefix) == [x] + sep + rest;
    assert ([x] + sep + rest)[..1] == [x];
  }

  lemma ExtractFirstValue(c: string)
    requires c == "From a to b to c"
    ensures ExtractBetween(c, "From ", " to ") == "a"
  {
    assert c == "From " + ['a'] + " to " + "b to c";
    IndexOfPrefix(c, "From ", "a to b to c");
    ToAfterLetter('a', "b to c");
    ExtractLetter(c, "From ", 'a', " to ", "b to c");
  }

  lemma ExtractLaterValues(c: string)
    requires c == "From a to b to c"
    ensures ExtractBetween(c, " to ", " to ") == "b"
    ensures ExtractBetween(c, " to ", "") == "b to c"
  {
    ToInFromAToBToC(c);
    var rest := c[10..];
    assert rest == ['b'] + " to " + "c";
    assert After(c, " to ") == rest;
    ToAfterLetter('b', "c");
    assert rest[..1] == "b";
  }

  /** Replacing a token that follows an ampersand-free text. */
  lemma ReplaceTokenAfter(pre: string, tok: string, post: string, v: string)
    requires '&' !in pre && IsToken(tok) && '$' !in v
    ensures ReplaceFirst(pre + tok + post, tok, v) == pre + v + post
  {
    NoAmpersandFree(pre);
    TokenFirstAfterAnchor(pre, tok, post);
    ReplaceFirstAt(pre, tok, post, v);
  }

  /** Three replaces in a row are the first three steps of the rebuild. */
  lemma ThreeSteps(s: string, tokens: seq<string>, values: seq<string>)
    requires |tokens| == |values| == 3
    ensures ReplaceFirstN(s, tokens, values, 3)
         == ReplaceFirst(ReplaceFirst(ReplaceFirst(s, tokens[0], values[0]), tokens[1], values[1]),
                         tokens[2], values[2])
  {
  }

  lemma Regroup(x0: string, x1: string, x2: string, x3: string, x4: string, x5: string)
    ensures x0 + x1 + x2 + x3 + x4 + x5 == x0 + x1 + (x2 + x3 + x4 + x5)
    ensures x0 + x1 + x2 + x3 + x4 + x5 == (x0 + x1 + x2) + x3 + (x4 + x5)
    ensures x0 + x1 + x2 + x3 + x4 + x5 == (x0 + x1 + x2 + x3 + x4) + x5 + ""
  {
  }

  /** Rebuilding a three-token template whose anchors and first two values hold no ampersand. */
  lemma RebuildThree(a0: string, a1: string, a2: string, t1: string, t2: string, t3: string,
                     v1: string, v2: string, v3: string)
    requires '&' !in a0 && '&' !in a1 && '&' !in a2 && '&' !in v1 && '&' !in v2
    requires IsToken(t1) && IsToken(t2) && IsToken(t3)
    requires '$' !in v1 && '$' !in v2 && '$' !in v3
    ensures ReplaceFirstN(a0 + t1 + a1 + t2 + a2 + t3, [t1, t2, t3], [v1, v2, v3], 3)
         == a0 + v1 + a1 + v2 + a2 + v3
  {
    var s := a0 + t1 + a1 + t2 + a2 + t3;
    ThreeSteps(s, [t1, t2, t3], [v1, v2, v3]);
    var s1 := a0 + v1 + a1 + t2 + a2 + t3;
    var s2 := a0 + v1 + a1 + v2 + a2 + t3;
    Regroup(a0, t1, a1, t2, a2, t3);
    Regroup(a0, v1, a1, t2, a2, t3);
    Regroup(a0, v1, a1, v2, a2, t3);
    Regroup(a0, v1, a1, v2, a2, v3);
    ReplaceTokenAfter(a0, t1, a1 + t2 + a2 + t3, v1);
    assert '&' !in a0 + v1 + a1;
    ReplaceTokenAfter(a0 + v1 + a1, t2, a2 + t3, v2);
    assert '&' !in a0 + v1 + a1 + v2 + a2;
    ReplaceTokenAfter(a0 + v1 + a1 + v2 + a2, t3, "", v3);
  }

  /** The values of a three-token template, one extraction each. */
  lemma ThreeValues(p: Template, c: string, x: string, y: string, z: string)
    requires |p.anchors| == 4 && |p.tokens| == 3
    requires ExtractBetween(c, p.anchors[0], p.anchors[1]) == x
    requires ExtractBetween(c, p.anchors[1], p.anchors[2]) == y
    requires ExtractBetween(c, p.anchors[2], p.anchors[3]) == z
    ensures TokenValues(p, c) == [x, y, z]
  {
    TokenValueAt(p, c, 0);
    TokenValueAt(p, c, 1);
    TokenValueAt(p, c, 2);
  }

  lemma ValuesFromToTo(p: Template, c: string)
    requires p == Template(["From ", " to ", " to ", ""], ["&1", "&2", "&3"])
    requires c == "From a to b to c"
    ensures TokenValues(p, c) == ["a", "b", "b to c"]
  {
    ExtractFirstValue(c);
    ExtractLaterValues(c);
    ThreeValues(p, c, "a", "b", "b to c");
  }

  lemma RebuildFromToTo(template: string, tokens: seq<string>, values: seq<string>)
    requires template == "From &1 to &2 to &3"
    requires tokens == ["&1", "&2", "&3"] && values == ["a", "b", "b to c"]
    ensures ReplaceFirstN(template, tokens, values, 3) == "From " + "a" + " to " + "b" + " to " + "b to c"
  {
    assert IsToken("&1") && IsToken("&2") && IsToken("&3");
    assert template == "From " + "&1" + " to " + "&2" + " to " + "&3";
    RebuildThree("From ", " to ", " to ", "&1", "&2", "&3", "a", "b", "b to c");
  }

  /** Every anchor is searched for from the start of the live text, not after the previous
      value: with a repeated anchor the third value is read from the first " to ", so a text
      that fills "From &1 to &2 to &3" with a, b and c is not recognised. */
  lemma RepeatedAnchorNotMatched()
    ensures TokenValues(Parse("From &1 to &2 to &3"), "From a to b to c") == ["a", "b", "b to c"]
    ensures !MessageMatched(Some("From &1 to &2 to &3"), "From a to b to c")
  {
    ParseFromToTo();
    ValuesFromToTo(Parse("From &1 to &2 to &3"), "From a to b to c");
    RebuildFromToTo("From &1 to &2 to &3", ["&1", "&2", "&3"], ["a", "b", "b to c"]);
    assert |"From " + "a" + " to " + "b" + " to " + "b to c"| == 21;
  }

  /** The literal comparison of isTextMatched: upper case, then drop the first newline. */
  function NormalizeLiteral(s: string): string {
    ReplaceFirst(ToUpper(s), "\n", "")
  }

  /** isTextMatched for an entry whose type is not "message". */
  predicate LiteralMatched(actual: Option<string>, current: string): (b: bool)
    ensures b ==> actual.Some?
    ensures actual == Some(current) ==> b
  {
    actual.Some? && NormalizeLiteral(actual.value) == NormalizeLiteral(current)
  }

  /** Upper-casing moves no newline. */
  lemma UpperNewlineAt(s: string, i: nat)
    ensures OccursAt(ToUpper(s), "\n", i) <==> OccursAt(s, "\n", i)
  {
    var u := ToUpper(s);
    if i + 1 <= |s| {
      assert u[i..i + 1] == [u[i]] && s[i..i + 1] == [s[i]];
    }
  }

  /** The first newline of `ToUpper(s)` is the first newline of `s`. */
  lemma UpperKeepsNewlines(s: string)
    ensures IndexOf(ToUpper(s), "\n") == IndexOf(s, "\n")
  {
    var u := ToUpper(s);
    var k := IndexOf(s, "\n");
    if k >= 0 {
      UpperNewlineAt(s, k);
      forall j: nat | j < k
        ensures !OccursAt(u, "\n", j)
      {
        UpperNewlineAt(s, j);
      }
      IndexOfIs(u, "\n", k);
    } else {
      forall j: nat | j <= |u|
        ensures !OccursAt(u, "\n", j)
      {
        UpperNewlineAt(s, j);
      }
    }
  }

  /** A newline character is an occurrence of the one-character text "\n". */
  lemma NewlineOccurs(s: string)
    ensures '\n' in s <==> Contains(s, "\n")
  {
    if '\n' in s {
      var j :| 0 <= j < |s| && s[j] == '\n';
      assert s[j..j + 1] == [s[j]];
      assert OccursAt(s, "\n", j);
    }
    if Contains(s, "\n") {
      var j: nat :| j <= |s| && OccursAt(s, "\n", j);
      assert s[j..j + 1][0] == s[j];
    }
  }

  /** Only the first newline is dropped; every other character is kept, in order. */
  lemma NormalizeDropsFirstNewline(s: string)
    ensures '\n' !in s ==> NormalizeLiteral(s) == ToUpper(s)
    ensures '\n' in s ==>
      var k := IndexOf(s, "\n");
      0 <= k && NormalizeLiteral(s) == ToUpper(s)[..k] + ToUpper(s)[k + 1..]
  {
    var u := ToUpper(s);
    UpperKeepsNewlines(s);
    NewlineOccurs(s);
    if '\n' in s {
      ReplaceFirstPlain(u, "\n", "");
    }
  }

  /** Texts that differ only in the case of ASCII letters match as literals. */
  lemma LiteralMatchIgnoresCase(a: string, b: string)
    requires ToUpper(a) == ToUpper(b)
    ensures LiteralMatched(Some(a), b)
  {
  }

  /** A text followed by one newline matches the text alone. */
  lemma NormalizeTrailingNewline(s: string)
    requires '\n' !in s
    ensures NormalizeLiteral(s + "\n") == ToUpper(s)
    ensures NormalizeLiteral(s) == ToUpper(s)
  {
    NormalizeDropsFirstNewline(s);
    var t := s + "\n";
    assert t[|s|] == '\n';
    FirstNewlineAtEnd(s, t);
    NormalizeDropsFirstNewline(t);
    var u := ToUpper(t);
    assert u[|s| + 1..] == [];
    assert u[..|s|] == ToUpper(s);
  }

  /** The newline appended to a text without one is its first. */
  lemma FirstNewlineAtEnd(s: string, t: string)
    requires '\n' !in s && t == s + "\n"
    ensures IndexOf(t, "\n") == |s|
  {
    assert OccursAt(t, "\n", |s|) by { assert t[|s|..|s| + 1] == "\n"; }
    forall i: nat | i < |s|
      ensures !OccursAt(t, "\n", i)
    {
      assert t[i..i + 1] == [s[i]];
    }
    IndexOfIs(t, "\n", |s|);
  }

  /** A text followed by one newline matches a text without a newline that is equal up to case. */
  lemma TrailingNewlineMatches(a: string, c: string)
    requires '\n' !in a && '\n' !in c && ToUpper(a) == ToUpper(c)
    ensures LiteralMatched(Some(a + "\n"), c)
  {
    NormalizeTrailingNewline(a);
    NormalizeTrailingNewline(c);
  }

  lemma UpperHello(s: string)
    requires s == "Hello" || s == "HELLO"
    ensures ToUpper(s) == "HELLO"
  {
    var u := ToUpper(s);
    assert u[0] == 'H' && u[1] == 'E' && u[2] == 'L' && u[3] == 'L' && u[4] == 'O';
  }

  /** "Hello\n" and "HELLO" match: case and one newline are ignored. */
  lemma LiteralExampleMatches()
    ensures LiteralMatched(Some("Hello\n"), "HELLO")
  {
    UpperHello("Hello");
    UpperHello("HELLO");
    TrailingNewlineMatches("Hello", "HELLO");
    assert "Hello" + "\n" == "Hello\n";
  }

  /** Other white space and a second newline are significant. */
  lemma LiteralExamplesDiffer()
    ensures !LiteralMatched(Some("Hello \n"), "HELLO")
    ensures !LiteralMatched(Some("Hello\n\n"), "HELLO")
  {
    NormalizeTrailingNewline("Hello ");
    NormalizeTrailingNewline("HELLO");
    NormalizeDropsFirstNewline("Hello\n\n");
    assert |NormalizeLiteral("Hello\n\n")| == 6;
  }
}
