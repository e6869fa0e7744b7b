/**
 * The JavaScript string operations that the `$ref` rewriting relies on:
 * `startsWith`, `indexOf`, the first piece of `split` and `replace` with a
 * string pattern. Strings are sequences of characters.
 */
module JsStrings {
  import opened Wrappers

  /** `s` holds `p` at index `i`. */
  predicate OccursAt(s: string, p: string, i: nat) {
    i + |p| <= |s| && s[i..i + |p|] == p
  }

  /** `s.startsWith(p)` */
  predicate StartsWith(s: string, p: string) {
    OccursAt(s, p, 0)
  }

  /** What occurs in a prefix of `s` occurs at the same place in `s`. */
  lemma OccursInPrefix(s: string, t: string, p: string, i: nat)
    requires StartsWith(s, t) && OccursAt(t, p, i)
    ensures OccursAt(s, p, i)
  {
    assert s[i..i + |p|] == t[i..i + |p|];
  }

  /** `s.endsWith(p)` */
  predicate EndsWith(s: string, p: string) {
    |p| <= |s| && s[|s| - |p|..] == p
  }

  /** The first index at or after `from` where `p` occurs in `s`. */
  function IndexOfFrom(s: string, p: string, from: nat): (r: Option<nat>)
    requires from <= |s|
    ensures r.Some? ==> from <= r.value && OccursAt(s, p, r.value)
    ensures r.Some? ==> forall j :: from <= j < r.value ==> !OccursAt(s, p, j)
    ensures r.None? ==> forall j :: from <= j ==> !OccursAt(s, p, j)
    decreases |s| - from
  {
    if OccursAt(s, p, from) then Some(from)
    else if from == |s| then None
    else IndexOfFrom(s, p, from + 1)
  }

  /** `s.indexOf(p)`, with None for -1. */
  function IndexOf(s: string, p: string): (r: Option<nat>)
    ensures r.Some? ==> OccursAt(s, p, r.value)
    ensures r.Some? ==> forall j :: 0 <= j < r.value ==> !OccursAt(s, p, j)
    ensures r.None? ==> forall j :: 0 <= j ==> !OccursAt(s, p, j)
  {
    IndexOfFrom(s, p, 0)
  }

  /**
   * `s.split(sep)[0]`. For a non-empty separator this is the text before its
   * first occurrence (all of `s` when it does not occur). An empty separator
   * splits `s` into its characters, so the first piece is the first
   * character, and is undefined (None) when `s` is empty too.
   */
  function SplitHead(s: string, sep: string): (r: Option<string>)
    ensures r.None? <==> s == "" && sep == ""
    ensures r.Some? ==> StartsWith(s, r.value)
    ensures sep == "" && r.Some? ==> |r.value| == 1
    ensures sep != "" ==> r.Some? && forall i :: 0 <= i < |r.value| ==> !OccursAt(s, sep, i)
    ensures sep != "" ==> r.value == s || OccursAt(s, sep, |r.value|)
  {
    if sep == "" then
      if s == "" then None else Some(s[..1])
    else
      match IndexOf(s, sep)
      case Some(i) => Some(s[..i])
      case None => Some(s)
  }

  /**
   * The replacement text that `replace` inserts for `template` when the
   * pattern is a string: `$$` gives `$`, `$&` the matched text, `` $` `` the
   * text before the match and `$'` the text after it. A string pattern has
   * no capture groups, so every other character, `$1` and `$<` included, is
   * copied as it is.
   */
  function Expand(template: string, matched: string, before: string, after: string): string
    decreases |template|
  {
    if |template| >= 2 && template[0] == '$' && template[1] in "$&`'" then
      var piece := match template[1]
        case '$' => "$"
        case '&' => matched
        case '`' => before
        case _ => after;
      piece + Expand(template[2..], matched, before, after)
    else if template == "" then ""
    else [template[0]] + Expand(template[1..], matched, before, after)
  }

  /** `s.replace(pattern, replacement)` with a string pattern: only the first occurrence is replaced. */
  function Replace(s: string, pattern: string, replacement: string): string
  {
    match IndexOf(s, pattern)
    case None => s
    case Some(i) =>
      var after := s[i + |pattern|..];
      s[..i] + Expand(replacement, pattern, s[..i], after) + after
  }

  /**
   * `replace` touches only the first occurrence: the text before and after
   * it is kept, and a pattern that does not occur changes nothing.
   */
  lemma ReplaceKeepsContext(s: string, pattern: string, replacement: string)
    ensures IndexOf(s, pattern).None? ==> Replace(s, pattern, replacement) == s
    ensures IndexOf(s, pattern).Some? ==>
      var i := IndexOf(s, pattern).value;
      StartsWith(Replace(s, pattern, replacement), s[..i])
      && EndsWith(Replace(s, pattern, replacement), s[i + |pattern|..])
  {
    if IndexOf(s, pattern).Some? {
      var i := IndexOf(s, pattern).value;
      var after := s[i + |pattern|..];
      var r := Replace(s, pattern, replacement);
      assert r == s[..i] + Expand(replacement, pattern, s[..i], after) + after;
      assert r[..i] == s[..i];
      assert r[|r| - |after|..] == after;
    }
  }

  /** A template without `$` is inserted literally. */
  lemma {:induction false} ExpandWithoutDollar(template: string, matched: string, before: string, after: string)
    requires '$' !in template
    ensures Expand(template, matched, before, after) == template
  {
    if template != "" {
      assert template[0] != '$';
      assert '$' !in template[1..];
      ExpandWithoutDollar(template[1..], matched, before, after);
    }
  }

  /** Replacing a prefix of `s` puts the expanded replacement in front of the rest of `s`. */
  lemma ReplacePrefix(s: string, pattern: string, replacement: string)
    requires StartsWith(s, pattern)
    ensures Replace(s, pattern, replacement)
            == Expand(replacement, pattern, "", s[|pattern|..]) + s[|pattern|..]
  {
    assert IndexOf(s, pattern) == Some(0);
  }

  /** A pattern that does not occur leaves `s` as it is. */
  lemma ReplaceAbsent(s: string, pattern: string, replacement: string)
    requires forall i :: 0 <= i ==> !OccursAt(s, pattern, i)
    ensures Replace(s, pattern, replacement) == s
  {
  }
}
