/** The page-level state of iTranslate: the selector accumulated by `addQuery`, the
    translation store extended by `addTranslations`, and the cookie lookup of `getCookie`
    over the text of `document.cookie`. */
module PageState {
  import opened JsValues
  import opened JsStrings
  import opened TextResolver

  /** `g_query` after `addQuery(q)`: a falsy accumulator (undefined or "") becomes `q`,
      any other gets `", " + q` appended, with `q` printed as JavaScript prints it. */
  function AddedQuery(g: Option<string>, q: Option<string>): Option<string> {
    if g.None? || g.value == "" then q else Some(g.value + ", " + ToText(q))
  }

  /** `g_translations` after `addTranslations(ts)`: an undefined store becomes `ts`, an array
      (even an empty one, which is truthy) is concatenated with `ts`. */
  function AddedTranslations(g: Option<seq<Entry>>, ts: seq<Entry>): (r: Option<seq<Entry>>)
    ensures r.Some? && r.value == g.GetOr([]) + ts
  {
    if g.None? then Some(ts) else Some(g.value + ts)
  }

  /** The globals `g_query` and `g_translations`. */
  class Settings {
    var query: Option<string>
    var translations: Option<seq<Entry>>

    /** `let g_query;` and `let g_translations = [];` */
    constructor ()
      ensures query == None && translations == Some([])
    {
      query := None;
      translations := Some([]);
    }

    /** addQuery */
    method AddQuery(q: Option<string>)
      modifies this
      ensures query == AddedQuery(old(query), q)
      ensures translations == old(translations)
    {
      if query.None? || query.value == "" {
        query := q;
      } else {
        query := Some(query.value + ", " + ToText(q));
      }
    }

    /** addTranslations */
    method AddTranslations(ts: seq<Entry>)
      modifies this
      ensures translations == AddedTranslations(old(translations), ts)
      ensures query == old(query)
    {
      if translations.None? {
        translations := Some(ts);
      } else {
        translations := Some(translations.value + ts);
      }
    }
  }

  /** `g_query` after `addQuery` was called with each of `qs` in turn, starting from `g`. */
  function Queries(g: Option<string>, qs: seq<string>): Option<string>
    decreases |qs|
  {
    if |qs| == 0 then g else AddedQuery(Queries(g, qs[..|qs| - 1]), Some(qs[|qs| - 1]))
  }

  /** A selector list: the parts separated by ", ". */
  function Selector(parts: seq<string>): string
    requires |parts| > 0
    decreases |parts|
  {
    if |parts| == 1 then parts[0] else parts[0] + ", " + Selector(parts[1..])
  }

  /** One more part goes at the end of the list. */
  lemma {:induction false} SelectorAppend(parts: seq<string>, q: string)
    requires |parts| > 0
    ensures Selector(parts + [q]) == Selector(parts) + ", " + q
    decreases |parts|
  {
    if |parts| > 1 {
      assert (parts + [q])[1..] == parts[1..] + [q];
      SelectorAppend(parts[1..], q);
    } else {
      assert (parts + [q])[1..] == [q];
    }
  }

  /** A selector list of non-empty parts is not empty. */
  lemma SelectorNotEmpty(parts: seq<string>)
    requires |parts| > 0 && parts[0] != ""
    ensures Selector(parts) != ""
  {
  }

  /** Calling addQuery with non-empty queries, from an undefined `g_query`, builds the
      selector list of all of them in call order. */
  lemma {:induction false} QueriesJoin(qs: seq<string>)
    requires |qs| > 0
    requires forall i :: 0 <= i < |qs| ==> qs[i] != ""
    ensures Queries(None, qs) == Some(Selector(qs))
    decreases |qs|
  {
    var init, last := qs[..|qs| - 1], qs[|qs| - 1];
    if |init| > 0 {
      QueriesJoin(init);
      SelectorNotEmpty(init);
      SelectorAppend(init, last);
      assert init + [last] == qs;
    } else {
      assert qs == [last];
    }
  }

  /** Entries added later never take a text away from an earlier entry that matches it. */
  lemma FirstMatchAppendKeeps(store: seq<Entry>, more: seq<Entry>, from: string, s: string)
    requires FirstMatch(store, from, s).Some?
    ensures FirstMatch(store + more, from, s) == FirstMatch(store, from, s)
  {
    var k := FirstMatch(store, from, s).value;
    assert forall j :: 0 <= j <= k ==> (store + more)[j] == store[j];
    FirstMatchIs(store + more, from, s, k);
  }

  /** A text no earlier entry matches is matched by the first added entry that matches it. */
  lemma {:induction false} FirstMatchAppendFalls(store: seq<Entry>, more: seq<Entry>, from: string, s: string)
    requires FirstMatch(store, from, s).None?
    ensures FirstMatch(store + more, from, s)
         == if FirstMatch(more, from, s).None? then None else Some(|store| + FirstMatch(more, from, s).value)
    decreases |store|
  {
    if |store| == 0 {
      assert store + more == more;
    } else {
      var all := store + more;
      assert all[0] == store[0];
      assert all[1..] == store[1..] + more;
      FirstMatchAppendFalls(store[1..], more, from, s);
    }
  }

  /** addTranslations keeps the earlier entries' priority: a text the store already
      translates is translated the same way afterwards. */
  lemma AddTranslationsKeepsPriority(g: Option<seq<Entry>>, ts: seq<Entry>, s: string, from: string, to: string)
    requires s != ""
    requires FirstMatch(g.GetOr([]), from, s).Some?
    ensures Resolve(AddedTranslations(g, ts).value, Some(s), from, to) == Resolve(g.GetOr([]), Some(s), from, to)
  {
    var store := g.GetOr([]);
    var k := FirstMatch(store, from, s).value;
    FirstMatchAppendKeeps(store, ts, from, s);
    assert (store + ts)[k] == store[k];
  }

  /** The value of the last cookie whose trimmed text starts with `key` (the name and "="),
      or "" when there is none. */
  function CookieValue(parts: seq<string>, key: string): (r: string)
    ensures r == "" || exists i :: 0 <= i < |parts| && IndexOf(Trim(parts[i]), key) == 0 && r == Trim(parts[i])[|key|..]
    decreases |parts|
  {
    if |parts| == 0 then ""
    else
      var cookie := Trim(parts[|parts| - 1]);
      if IndexOf(cookie, key) == 0 then cookie[|key|..] else CookieValue(parts[..|parts| - 1], key)
  }

  /** getCookie, over the text of `document.cookie`: the cookies are split on ';', each is
      trimmed, and each one that starts with `cookieName=` overwrites the value found so far. */
  method GetCookie(cookies: string, cookieName: string) returns (cookieValue: string)
    ensures cookieValue == CookieValue(SplitOn(cookies, ';'), cookieName + "=")
  {
    cookieValue := "";
    var key := cookieName + "=";
    var parts := SplitOn(cookies, ';');
    for index := 0 to |parts|
      invariant cookieValue == CookieValue(parts[..index], key)
    {
      var cookie := Trim(parts[index]);
      if IndexOf(cookie, key) == 0 {
        cookieValue := cookie[|key|..];
      }
      assert parts[..index + 1][..index] == parts[..index];
    }
    assert parts[..|parts|] == parts;
  }

  /** The last cookie that starts with the key decides the value. */
  lemma {:induction false} CookieLastWins(parts: seq<string>, key: string, i: nat)
    requires i < |parts| && IndexOf(Trim(parts[i]), key) == 0
    requires forall j :: i < j < |parts| ==> IndexOf(Trim(parts[j]), key) != 0
    ensures CookieValue(parts, key) == Trim(parts[i])[|key|..]
    decreases |parts|
  {
    if i < |parts| - 1 {
      var init := parts[..|parts| - 1];
      assert forall j :: i < j < |init| ==> init[j] == parts[j];
      CookieLastWins(init, key, i);
    }
  }

  /** Without a cookie that starts with the key, the value is "". */
  lemma {:induction false} CookieMissing(parts: seq<string>, key: string)
    requires forall j :: 0 <= j < |parts| ==> IndexOf(Trim(parts[j]), key) != 0
    ensures CookieValue(parts, key) == ""
    decreases |parts|
  {
    if |parts| > 0 {
      var init := parts[..|parts| - 1];
      assert forall j :: 0 <= j < |init| ==> init[j] == parts[j];
      CookieMissing(init, key);
    }
  }

  /** A text without the separator splits into itself alone. */
  lemma {:induction false} SplitWithout(y: string, sep: char)
    requires sep !in y
    ensures SplitOn(y, sep) == [y]
    decreases |y|
  {
    if |y| > 0 {
      assert sep !in y[1..];
      SplitWithout(y[1..], sep);
      assert [y[0]] + y[1..] == y;
    }
  }

  /** The text after the last separator is the last piece. */
  lemma {:induction false} SplitLast(x: string, y: string, sep: char)
    requires sep !in y
    ensures |SplitOn(x + [sep] + y, sep)| >= 2
    ensures SplitOn(x + [sep] + y, sep)[|SplitOn(x + [sep] + y, sep)| - 1] == y
    decreases |x|
  {
    var s := x + [sep] + y;
    if |x| == 0 {
      assert s[1..] == y;
      SplitWithout(y, sep);
    } else {
      assert s[1..] == x[1..] + [sep] + y;
      SplitLast(x[1..], y, sep);
    }
  }

  /** Trimming a blank followed by a text with no white space at its ends gives the text. */
  lemma TrimAfterBlank(t: string)
    requires |t| > 0 && !IsJsWhitespace(t[0]) && !IsJsWhitespace(t[|t| - 1])
    ensures Trim(" " + t) == t
  {
    var s := " " + t;
    assert s[1..] == t;
    assert LeadingSpace(t) == 0;
    assert LeadingSpace(s) == 1;
    assert TrailingSpace(t) == 0;
    assert t[..|t|] == t;
  }

  /** The pair that createCookie writes, listed last in `document.cookie` after "; ", is read
      back by getCookie whatever cookies come before it. */
  lemma CookieRoundTrip(cookies: string, others: string, name: string, value: string)
    requires cookies == others + "; " + name + "=" + value
    requires ';' !in name && ';' !in value
    requires |name| > 0 && !IsJsWhitespace(name[0])
    requires value == [] || !IsJsWhitespace(value[|value| - 1])
    ensures CookieValue(SplitOn(cookies, ';'), name + "=") == value
  {
    var pair := name + "=" + value;
    CookieAfterSeparator(cookies, others, name, value);
    var parts := SplitOn(cookies, ';');
    PairTrimmed(name, value);
    PairValue(name, value);
    assert parts[|parts| - 1] == " " + pair;
  }

  lemma CookieAfterSeparator(cookies: string, others: string, name: string, value: string)
    requires cookies == others + "; " + name + "=" + value
    requires ';' !in name && ';' !in value
    ensures |SplitOn(cookies, ';')| >= 2
    ensures SplitOn(cookies, ';')[|SplitOn(cookies, ';')| - 1] == " " + (name + "=" + value)
  {
    var blankPair := " " + (name + "=" + value);
    assert cookies == others + [';'] + blankPair;
    assert ';' !in blankPair;
    SplitLast(others, blankPair, ';');
  }

  lemma PairTrimmed(name: string, value: string)
    requires |name| > 0 && !IsJsWhitespace(name[0])
    requires value == [] || !IsJsWhitespace(value[|value| - 1])
    ensures Trim(" " + (name + "=" + value)) == name + "=" + value
  {
    var pair := name + "=" + value;
    assert pair[0] == name[0];
    assert pair[|pair| - 1] == if value == [] then '=' else value[|value| - 1];
    TrimAfterBlank(pair);
  }

  lemma PairValue(name: string, value: string)
    ensures IndexOf(name + "=" + value, name + "=") == 0
    ensures (name + "=" + value)[|name + "="|..] == value
  {
    IndexOfPrefix(name + "=" + value, name + "=", value);
  }
}
