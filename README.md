# iTranslate in Dafny

iTranslate translates a web page in the browser. A translation store lists entries, each with
a `type` and one text per language. The page elements picked by CSS queries are looked up in
the store, and their markup is rewritten with the translation.

This project models the string-matching and substitution engine of `js/iTranslate.js` and
proves what it does. That covers:

- the token templates of message entries;
- the literal comparison;
- the store lookup with its `<script>` recovery;
- the element rewrite loop, with its eligibility filter and stable sort;
- the in-place translation of the page's form-validation variables;
- the `addQuery`/`addTranslations` accumulators and the `getCookie` parser.

Modules:

- `JsValues` (`js_values.dfy`): JavaScript `undefined` as `Option`, truthiness,
  `isEmptyOrUndefined` and `nvl`.
- `JsStrings` (`js_strings.dfy`): the JavaScript string built-ins the engine relies on, over
  `seq<char>`.
  - `indexOf`, `includes` and `trim`.
  - `replace` with a string pattern. It replaces only the first occurrence, and `$` patterns in
    the replacement are expanded as GetSubstitution does.
  - `toUpperCase`, on ASCII letters.
  - The match count of a global regex of fixed text.
  - `split` on one character.
- `TokenTemplate` (`token_template.dfy`): the message matcher.
  - A template splits into `n` tokens `&[A-Za-z0-9^_]+` and `n + 1` anchors (`Parse`, proved
    to be the unique such split).
  - `extractStringBetween` (`ExtractBetween`).
  - `isMessageMatched` (`IsMessageMatched`, proved against `MessageMatched`; its token loop is
    `FillTokens`).
  - `isTextMatched`'s literal comparison (`LiteralMatched`).
  - The token loop shared by `isMessageMatched` and `getTranslatedText` (`FillTokens`).
- `TextResolver` (`text_resolver.dfy`): store entries, `isTextMatched`, `getTranslatedText` and
  `getTranslatedValue` (`Resolve`).
  - `Resolve` returns the text together with the flag that `highlightElement` receives.
- `ElementTranslator` (`elements.dfy`): elements are objects whose markup,
  eligibility mark and highlight are updated in place.
  - `translateElements` and the selection loop of `translateElementsByQuery` are loops.
  - `Array.prototype.sort` is the stable insertion order `SortByChildCount`.
  - `iTranslateVariables` updates an array of formats and an object of labels.
- `PageState` (`page_state.dfy`): the globals `g_query` and `g_translations`, and `getCookie`
  over a given cookie string.

Each token value is searched for from the start of the whole live text, as the code does,
rather than from the end of the previous value. So a template whose anchor repeats can fail to
match a text that fills it. The lemma
`TokenTemplate.RepeatedAnchorNotMatched` shows this with "From &1 to &2 to &3" and
"From a to b to c".

## Model

| member | source | states |
|---|---|---|
| JsValues.ToText | js/iTranslate.js:335 | a template literal prints a string as it is and `undefined` as the word "undefined" |
| JsValues.IsEmptyOrUndefined | js/iTranslate.js:599-612 | a string counts as empty or undefined exactly when it is "", "undefined" or "null"; `undefined` and `null` count, an object does not |
| JsValues.Nvl | js/iTranslate.js:617-627 | the result is `value1` when `value1` is not empty or undefined, and `value2` when it is; it is empty or undefined exactly when both arguments are |
| JsStrings.IndexOf | js/iTranslate.js:214 | `indexOf` gives an index where the pattern occurs with no occurrence before it, and -1 exactly when the pattern does not occur |
| JsStrings.IndexOfSuffix | js/iTranslate.js:216-222 | searching the text after a cut at or before the first occurrence finds that occurrence, shifted |
| JsStrings.ReplaceFirstPlain | js/iTranslate.js:249 | `replace` with a `$`-free replacement swaps the first occurrence and keeps all text before and after it |
| JsStrings.ReplaceFirstAt | js/iTranslate.js:289 | a pattern whose first occurrence is right after `pre` is replaced there, with the rest kept |
| JsStrings.Trim | js/iTranslate.js:376 | `trim` yields the text found after the leading white space, with no white space at either end, and only white space removed around it |
| JsStrings.ToUpper | js/iTranslate.js:265 | `toUpperCase` keeps the length and upper-cases each ASCII letter in place |
| JsStrings.CountZero | js/iTranslate.js:333 | the global `<script>` regex finds no match exactly when the marker does not occur |
| JsStrings.SplitOn | js/iTranslate.js:99 | `split(';')` gives at least one piece, none holds the separator, and joining them with it gives back the input |
| TokenTemplate.ParseSplits | js/iTranslate.js:242-243 | `Parse` splits a template into anchors and maximal tokens that render back to it; no anchor holds a token or continues the token before it |
| TokenTemplate.ParseUnique | js/iTranslate.js:242-243 | any split with those properties is the one `Parse` gives, so `match` and `split` by the token regex are determined |
| TokenTemplate.ExtractBetween | js/iTranslate.js:212-235 | "" when the prefix is missing, or a non-empty suffix is missing after it; otherwise prefix + result + suffix occurs at the first prefix occurrence, the result holds no occurrence of the suffix, and with an empty suffix it is the whole rest |
| TokenTemplate.FillTokens | js/iTranslate.js:244-250 | the token loop collects the value of each token, in order, and replaces each token's first occurrence by its value |
| TokenTemplate.MessageMatched | js/iTranslate.js:240-257 | a message entry matches only a defined source template with at least one token |
| TokenTemplate.IsMessageMatched | js/iTranslate.js:240-257 | true exactly when the template has a token and the template with the extracted values put in equals the live text; false for an undefined template or a template without a token |
| TokenTemplate.ExtractRoundTrip | js/iTranslate.js:246-248 | when each anchor is first found where it was placed, extraction from a filled-in template yields the values filled in |
| TokenTemplate.SubstituteRoundTrip | js/iTranslate.js:249 | when each token is first found where it was placed and the values have no `$`, replacing the tokens in order fills the template with the values |
| TokenTemplate.ReorderedSubstitution | js/iTranslate.js:283-289 | replacing the source tokens, in source order, in a target template that holds each of them once in any order fills every slot with the value of its own token, when each token is first found in its slot |
| TokenTemplate.MessageRoundTrip | js/iTranslate.js:240-251 | a live text that fills a template with such values matches it and yields those values |
| TokenTemplate.SingleTokenRoundTrip | js/iTranslate.js:240-251 | a one-token template matches every filling whose closing anchor is first found right after the value |
| TokenTemplate.ParseFromToTo | js/iTranslate.js:242-243 | "From &1 to &2 to &3" splits into anchors "From ", " to ", " to ", "" and tokens &1, &2, &3 |
| TokenTemplate.RepeatedAnchorNotMatched | js/iTranslate.js:246-251 | because every value is searched from the start, "From a to b to c" yields the values a, b, "b to c" and does not match "From &1 to &2 to &3" |
| TokenTemplate.LiteralMatched | js/iTranslate.js:264-265 | a literal entry matches only when its source text is defined, and always matches the live text it equals |
| TokenTemplate.NormalizeDropsFirstNewline | js/iTranslate.js:265 | the literal form is the upper-cased text with only its first newline removed |
| TokenTemplate.LiteralMatchIgnoresCase | js/iTranslate.js:264-265 | texts equal up to ASCII case match literally |
| TokenTemplate.NormalizeTrailingNewline | js/iTranslate.js:265 | a text without a newline matches itself with one newline appended |
| TokenTemplate.TrailingNewlineMatches | js/iTranslate.js:265 | a text followed by one newline matches a newline-free text equal to it up to case |
| TokenTemplate.LiteralExampleMatches | js/iTranslate.js:265 | "Hello\n" matches "HELLO" |
| TokenTemplate.LiteralExamplesDiffer | js/iTranslate.js:265 | other white space, and a second newline, still count: "Hello \n" and "Hello\n\n" do not match "HELLO" |
| TextResolver.TextMatched | js/iTranslate.js:262-273 | an entry with an undefined source text never matches; a non-message entry whose source text equals the live text matches it |
| TextResolver.GetTranslatedText | js/iTranslate.js:278-297 | a literal entry gives its target text; a message entry gives its target template with each source token replaced by its extracted value; an undefined source or target, or a source without a token, gives back the live text |
| TextResolver.LiteralTranslatedVerbatim | js/iTranslate.js:280-281 | a non-message entry is translated to its target text verbatim, undefined included |
| TextResolver.MessageTranslationCarriesValues | js/iTranslate.js:262-291 | a live text that fills a message entry's source template matches the entry, and is translated to the target template filled with the same values, each in the slot of its own token; the target may place the source's tokens in any order, each once |
| TextResolver.FirstMatch | js/iTranslate.js:327-328 | the index of an entry that matches with no matching entry before it; none exactly when no entry matches |
| TextResolver.Resolve | js/iTranslate.js:321-347 | only a defined, non-empty text can be reported as matched, and such a text is reported as matched whenever some store entry matches it |
| TextResolver.ResolveEmpty | js/iTranslate.js:323-326 | an empty or undefined text comes back unchanged, unmatched |
| TextResolver.ResolveFirstMatchWins | js/iTranslate.js:327-331 | the earliest matching entry decides the translation, and the text counts as matched |
| TextResolver.ResolveScriptRecovery | js/iTranslate.js:333-336 | with no matching entry and one `<script>`, the result is the translated prefix, the marker, then the suffix unchanged; the flag is the prefix's |
| TextResolver.ScriptPrefixHasNoMarker | js/iTranslate.js:333-335 | the prefix before the only marker holds no marker, so the recursion goes at most one level deep |
| TextResolver.ResolveNoRecovery | js/iTranslate.js:337-340 | with no matching entry and zero or several markers, the text comes back unchanged, unmatched |
| TextResolver.ResolveUnmatchedUnchanged | js/iTranslate.js:321-347 | whenever no entry matched, the text comes back exactly as it was |
| TextResolver.ResolveMatchedHasEntry | js/iTranslate.js:327-336 | a matched text has a matching entry, or exactly one marker and a prefix with a matching entry |
| ElementTranslator.SpliceFirstOccurrence | js/iTranslate.js:377-378 | the markup's first occurrence of the looked-up text is replaced and the markup around it kept |
| ElementTranslator.RewriteWholeMarkup | js/iTranslate.js:380-381 | markup that does not contain the looked-up text is replaced by the translation as a whole |
| ElementTranslator.RewriteUnmatchedKeepsMarkup | js/iTranslate.js:367-379 | an element whose text has no translation keeps its markup when the markup contains the text |
| ElementTranslator.RewriteUnmatchedFlattens | js/iTranslate.js:367-382 | an untranslated element whose markup does not contain its trimmed text has its markup replaced by that text |
| ElementTranslator.TranslateElement | js/iTranslate.js:366-382 | one element's markup is rewritten from its own markup and text, and with debugging on it is highlighted with the lookup's outcome |
| ElementTranslator.TranslateElements | js/iTranslate.js:364-388 | every element gets the markup and highlight its own old markup and text determine; the stored text and the eligibility mark are not written |
| ElementTranslator.EligibleMembers | js/iTranslate.js:397-402 | the selected elements are exactly the given ones whose text has an ASCII letter |
| ElementTranslator.EligibleDistinct | js/iTranslate.js:397-402 | the selection holds no element twice |
| ElementTranslator.SelectEligible | js/iTranslate.js:396-402 | the selection loop collects the elements with a letter in their text, in order, and marks them; nothing else changes |
| ElementTranslator.SortByChildCount | js/iTranslate.js:403 | the sort is a permutation of its input |
| ElementTranslator.SortSorted | js/iTranslate.js:403 | the sorted elements ascend by child count |
| ElementTranslator.SortStable | js/iTranslate.js:403 | elements with equal child counts keep their relative order |
| ElementTranslator.TranslateElementsByQuery | js/iTranslate.js:393-409 | the elements with a letter in their text are marked eligible and translated; the others keep their markup and highlight; the stored text is not written |
| ElementTranslator.TranslateFormats | js/iTranslate.js:416 | each format in the array is replaced in place by what the lookup returns for it |
| ElementTranslator.TranslatedAllKeepsUnmatched | js/iTranslate.js:416 | a format the store has no entry for keeps its value |
| ElementTranslator.FormLabels.Translate | js/iTranslate.js:417-424 | every label is replaced by its translation, and no label is added or removed |
| PageState.Settings.AddQuery | js/iTranslate.js:178-190 | `g_query` becomes `AddedQuery` of its old value and the query: the query itself after a falsy `g_query`, else the old list, ", " and the query; the store is unchanged |
| PageState.Settings.AddTranslations | js/iTranslate.js:195-207 | `g_translations` becomes the old entries, or none when undefined, followed by the new ones; `g_query` is unchanged |
| PageState.AddedTranslations | js/iTranslate.js:195-207 | the store after addTranslations is the old entries, or none when undefined, followed by the new ones |
| PageState.QueriesJoin | js/iTranslate.js:178-190 | addQuery calls with non-empty queries, from an undefined `g_query`, build the list of all of them separated by ", " in call order |
| PageState.FirstMatchAppendKeeps | js/iTranslate.js:195-207 | entries added later never displace an earlier entry that matches a text |
| PageState.FirstMatchAppendFalls | js/iTranslate.js:195-207 | a text no earlier entry matches is matched by the first added entry that matches it |
| PageState.AddTranslationsKeepsPriority | js/iTranslate.js:195-207 | a text the store already translates is translated the same way after addTranslations |
| PageState.CookieValue | js/iTranslate.js:93-113 | the value read is "" or the rest, after `name=`, of some trimmed cookie that starts with `name=` |
| PageState.GetCookie | js/iTranslate.js:93-113 | the cookie loop yields the value of the last trimmed cookie starting with `name=`, or "" |
| PageState.CookieLastWins | js/iTranslate.js:101-106 | the last cookie that starts with `name=` decides the value |
| PageState.CookieMissing | js/iTranslate.js:95-106 | without such a cookie the value is "" |
| PageState.CookieRoundTrip | js/iTranslate.js:82 | a `name=value` pair listed last after "; " is read back as `value`, whatever cookies come before it |

## Left out

- `getjson` and `initITranslate`: network requests and promises.
- `createCookie` and the `document.cookie` access: the date arithmetic and the browser cookie jar. `getCookie` takes the cookie string as a parameter.
- `alterJSFunction` and `enableReTranslate`: dynamic code and timers.
- The language-selector user interface: DOM construction only.
- `iTranslateInputTitles`: a DOM query.
- `document.querySelectorAll`: elements are given as a sequence of distinct objects. The model does not relate them to a DOM tree.
  - Rewriting one element's markup cannot change another's.
  - So the child-count order matters only in the page, not in the model.
- `innerText` after a markup change: the model keeps `innerText` as a stored field that the translation loops do not write. In the page, assigning `innerHTML` (js/iTranslate.js:378 and 381) re-renders the element, so its `innerText` changes to the text of the new markup. The model does not recompute it.
- `highlightElement`: only what it leaves on the element is modelled, as the `Highlight` value. The border style strings are not.
- `getText`'s `catch` branch (an element without `innerText`): every element has an `innerText` string.
- `logException` and `console.log`: the `try`/`catch` blocks are modelled by their outcomes.
  - `isMessageMatched` gives false for an undefined template or one without a token.
  - `getTranslatedText` gives the live text back in those cases.
- `isTextMatched`: a store entry whose source text is undefined never matches literally. Non-string values in the store or in the format array are not modelled.
- An undefined or non-array store passed to `getTranslatedValue`: the store is always a sequence.
- JsStrings.ToUpper: restricted to ASCII. Unicode case mapping, including characters whose upper case is longer, is not modelled.
- UTF-16 code units: strings are sequences of characters.
- iTranslateVariables: the `typeof` tests that skip absent page variables. The model starts from an existing array and object.
- `g_query` set by `initITranslate` through `nvl` to a non-string value: `g_query` is a string or undefined here.
- PageState.QueriesJoin: states the list for non-empty queries only. An empty query after the first one is appended as ", ".
- TextResolver.MessageTranslationCarriesValues: a target template that uses a source token twice, or leaves one out, is not covered. `replace` then fills only the first use, or finds the token elsewhere.
- Properties that need values without `$`: the substitution itself models `$` patterns exactly. The round-trip lemmas assume `$`-free values, because a `$&` in a value changes what `replace` inserts.
