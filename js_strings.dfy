/** The JavaScript string primitives iTranslate relies on, over `seq<char>`:
    indexOf, includes, replace with a string pattern, trim, toUpperCase (ASCII),
    occurrence counting for a global regex of a fixed text, and split on one character. */
module JsStrings {

  /** `p` occurs in `s` starting at index `i`. */
  predicate OccursAt(s: string, p: string, i: nat) {
    i + |p| <= |s| && s[i..i + |p|] == p
  }

  /** `s.includes(p)`: `p` occurs somewhere in `s`. */
  predicate Contains(s: string, p: string) {
    exists i: nat | i <= |s| :: OccursAt(s, p, i)
  }

  /** The first occurrence of `p` in `s` at or after index `k`, or -1. */
  function IndexFrom(s: string, p: string, k: nat): (r: int)
    requires k <= |s|
    ensures r == -1 || (k <= r && OccursAt(s, p, r))
    ensures r == -1 ==> forall i: nat :: k <= i ==> !OccursAt(s, p, i)
    ensures r != -1 ==> forall i: nat :: k <= i < r ==> !OccursAt(s, p, i)
    decreases |s| - k
  {
    if k + |p| > |s| then -1
    else if s[k..k + |p|] == p then k
    else IndexFrom(s, p, k + 1)
  }

  /** `s.indexOf(p)`: the least index where `p` occurs, or -1 when it does not occur. */
  function IndexOf(s: string, p: string): (r: int)
    ensures r == -1 || 0 <= r <= |s| - |p|
    ensures r >= 0 ==> OccursAt(s, p, r)
    ensures r >= 0 ==> forall i: nat :: i < r ==> !OccursAt(s, p, i)
    ensures r < 0 <==> !Contains(s, p)
  {
    IndexFrom(s, p, 0)
  }

  /** An occurrence with none before it is the one indexOf reports. */
  lemma IndexOfIs(s: string, p: string, i: nat)
    requires OccursAt(s, p, i)
    requires forall k: nat :: k < i ==> !OccursAt(s, p, k)
    ensures IndexOf(s, p) == i
  {
  }

  /** A string that starts with `p` finds it at index 0. */
  lemma IndexOfPrefix(s: string, p: string, rest: string)
    requires s == p + rest
    ensures IndexOf(s, p) == 0
  {
    assert s[0..|p|] == p;
    IndexOfIs(s, p, 0);
  }

  lemma OccursAtShift(s: string, p: string, m: nat, i: nat)
    requires m <= |s|
    ensures OccursAt(s[m..], p, i) <==> OccursAt(s, p, m + i)
  {
    if OccursAt(s, p, m + i) {
      assert s[m..][i..i + |p|] == s[m + i..m + i + |p|];
    }
    if OccursAt(s[m..], p, i) {
      assert s[m..][i..i + |p|] == s[m + i..m + i + |p|];
    }
  }

  /** Searching a suffix that starts at or before the first occurrence finds the same occurrence. */
  lemma IndexOfSuffix(s: string, p: string, m: nat)
    requires m <= |s|
    requires IndexOf(s, p) >= m
    ensures IndexOf(s[m..], p) == IndexOf(s, p) - m
  {
    var r := IndexOf(s, p);
    OccursAtShift(s, p, m, r - m);
    forall k: nat | k < r - m
      ensures !OccursAt(s[m..], p, k)
    {
      OccursAtShift(s, p, m, k);
    }
    IndexOfIs(s[m..], p, r - m);
  }

  /** A prefix with no occurrence of `p` at an index `i` is still without one in `s[..j]`. */
  lemma OccursAtPrefix(s: string, p: string, j: nat, i: nat)
    requires j <= |s|
    ensures OccursAt(s[..j], p, i) <==> OccursAt(s, p, i) && i + |p| <= j
  {
    if i + |p| <= j {
      assert s[..j][i..i + |p|] == s[i..i + |p|];
    }
  }

  /** The text `String.prototype.replace` inserts for one match of a string pattern
      (GetSubstitution with no capture groups): `$$` gives `$`, `$&` the matched text,
      `` $` `` the text before the match and `$'` the text after it; any other `$` is kept. */
  function Substitution(matched: string, before: string, after: string, repl: string): string
    decreases |repl|
  {
    if |repl| == 0 then []
    else if repl[0] == '$' && |repl| >= 2 && repl[1] == '$' then
      "$" + Substitution(matched, before, after, repl[2..])
    else if repl[0] == '$' && |repl| >= 2 && repl[1] == '&' then
      matched + Substitution(matched, before, after, repl[2..])
    else if repl[0] == '$' && |repl| >= 2 && repl[1] == '`' then
      before + Substitution(matched, before, after, repl[2..])
    else if repl[0] == '$' && |repl| >= 2 && repl[1] == '\'' then
      after + Substitution(matched, before, after, repl[2..])
    else
      [repl[0]] + Substitution(matched, before, after, repl[1..])
  }

  /** A replacement without `$` is inserted as it is. */
  lemma {:induction false} SubstitutionPlain(matched: string, before: string, after: string, repl: string)
    requires '$' !in repl
    ensures Substitution(matched, before, after, repl) == repl
    decreases |repl|
  {
    if |repl| > 0 {
      assert repl[0] != '$';
      assert forall c :: c in repl[1..] ==> c in repl;
      SubstitutionPlain(matched, before, after, repl[1..]);
      assert repl == [repl[0]] + repl[1..];
    }
  }

  /** `s.replace(pat, repl)` with a string pattern: only the first occurrence is replaced. */
  function ReplaceFirst(s: string, pat: string, repl: string): (r: string)
    ensures !Contains(s, pat) ==> r == s
  {
    var i := IndexOf(s, pat);
    if i < 0 then s
    else s[..i] + Substitution(pat, s[..i], s[i + |pat|..], repl) + s[i + |pat|..]
  }

  /** With a `$`-free replacement, the first occurrence of `pat` is swapped for `repl`
      and everything before and after it is kept. */
  lemma ReplaceFirstPlain(s: string, pat: string, repl: string)
    requires '$' !in repl
    requires Contains(s, pat)
    ensures ReplaceFirst(s, pat, repl)
         == s[..IndexOf(s, pat)] + repl + s[IndexOf(s, pat) + |pat|..]
  {
    var i := IndexOf(s, pat);
    SubstitutionPlain(pat, s[..i], s[i + |pat|..], repl);
  }

  /** Replacing a placeholder that sits at the first occurrence of its own text. */
  lemma ReplaceFirstAt(pre: string, pat: string, post: string, repl: string)
    requires '$' !in repl
    requires IndexOf(pre + pat + post, pat) == |pre|
    ensures ReplaceFirst(pre + pat + post, pat, repl) == pre + repl + post
  {
    var s := pre + pat + post;
    assert s[..|pre|] == pre;
    assert s[|pre| + |pat|..] == post;
    SubstitutionPlain(pat, pre, post, repl);
  }

  /** White space and line terminators as `String.prototype.trim` removes them. */
  predicate IsJsWhitespace(c: char) {
    c == '\t' || c == '\n' || c == '\U{000B}' || c == '\U{000C}' || c == '\r' || c == ' '
    || c == '\U{00A0}' || c == '\U{1680}' || ('\U{2000}' <= c <= '\U{200A}')
    || c == '\U{2028}' || c == '\U{2029}' || c == '\U{202F}' || c == '\U{205F}'
    || c == '\U{3000}' || c == '\U{FEFF}'
  }

  /** The number of white-space characters at the start of `s`. */
  function LeadingSpace(s: string): (n: nat)
    ensures n <= |s|
    ensures forall i :: 0 <= i < n ==> IsJsWhitespace(s[i])
    ensures n == |s| || !IsJsWhitespace(s[n])
  {
    if |s| > 0 && IsJsWhitespace(s[0]) then 1 + LeadingSpace(s[1..]) else 0
  }

  /** The number of white-space characters at the end of `s`. */
  function TrailingSpace(s: string): (n: nat)
    ensures n <= |s|
    ensures forall i :: |s| - n <= i < |s| ==> IsJsWhitespace(s[i])
    ensures n == |s| || !IsJsWhitespace(s[|s| - n - 1])
  {
    if |s| > 0 && IsJsWhitespace(s[|s| - 1]) then 1 + TrailingSpace(s[..|s| - 1]) else 0
  }

  /** `s.trim()`: `s` less its leading and trailing white space. */
  function Trim(s: string): (r: string)
    ensures r == [] || (!IsJsWhitespace(r[0]) && !IsJsWhitespace(r[|r| - 1]))
    ensures OccursAt(s, r, LeadingSpace(s))
    ensures forall i :: 0 <= i < LeadingSpace(s) ==> IsJsWhitespace(s[i])
    ensures forall i :: LeadingSpace(s) + |r| <= i < |s| ==> IsJsWhitespace(s[i])
  {
    var a := LeadingSpace(s);
    var t := s[a..];
    var r := t[..|t| - TrailingSpace(t)];
    assert s[a..a + |r|] == r;
    r
  }

  /** `toUpperCase` on one character, for the ASCII letters. */
  function UpperChar(c: char): char {
    if 'a' <= c <= 'z' then (c as int - 32) as char else c
  }

  /** `s.toUpperCase()`, restricted to ASCII case mapping. */
  function ToUpper(s: string): (r: string)
    ensures |r| == |s|
    ensures forall i :: 0 <= i < |s| ==> r[i] == UpperChar(s[i])
  {
    seq(|s|, i requires 0 <= i < |s| => UpperChar(s[i]))
  }

  /** The number of matches of the global regex `/p/g` for a non-empty fixed text `p`:
      occurrences counted left to right, each search resuming after the previous match. */
  function CountOccurrences(s: string, p: string): nat
    requires |p| > 0
    decreases |s|
  {
    var i := IndexOf(s, p);
    if i < 0 then 0 else 1 + CountOccurrences(s[i + |p|..], p)
  }

  /** No match at all exactly when the text does not occur. */
  lemma CountZero(s: string, p: string)
    requires |p| > 0
    ensures CountOccurrences(s, p) == 0 <==> !Contains(s, p)
  {
  }

  /** The pieces joined back with the separator character between them. */
  function Join(parts: seq<string>, sep: char): string
    requires |parts| > 0
  {
    if |parts| == 1 then parts[0] else parts[0] + [sep] + Join(parts[1..], sep)
  }

  /** `s.split(sep)` for a one-character separator string. */
  function SplitOn(s: string, sep: char): (parts: seq<string>)
    ensures |parts| > 0
    ensures Join(parts, sep) == s
    ensures forall i :: 0 <= i < |parts| ==> sep !in parts[i]
    decreases |s|
  {
    if |s| == 0 then [""]
    else if s[0] == sep then
      var rest := SplitOn(s[1..], sep);
      assert s == [] + [sep] + s[1..];
      [""] + rest
    else
      var rest := SplitOn(s[1..], sep);
      assert Join([[s[0]] + rest[0]] + rest[1..], sep) == [s[0]] + Join(rest, sep);
      [[s[0]] + rest[0]] + rest[1..]
  }
}
