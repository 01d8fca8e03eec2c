/** The JavaScript string operations the codemods use: `endsWith`,
    `includes`, and `replace` with a string pattern (first occurrence only). */
module Strings {
  import opened Ast

  predicate StartsWith(s: string, prefix: string) {
    |prefix| <= |s| && s[..|prefix|] == prefix
  }

  predicate EndsWith(s: string, suffix: string) {
    |suffix| <= |s| && s[|s| - |suffix|..] == suffix
  }

  /** `pat` occurs in `s` starting at index `k`. */
  predicate OccursAt(s: string, pat: string, k: int) {
    0 <= k && k + |pat| <= |s| && s[k..k + |pat|] == pat
  }

  /** `s.indexOf(pat)`: the first index at which `pat` occurs, if any. */
  function IndexOf(s: string, pat: string): (r: Option<nat>)
    ensures r.Some? ==> OccursAt(s, pat, r.value)
    ensures r.Some? ==> forall j :: 0 <= j < r.value ==> !OccursAt(s, pat, j)
    ensures r.None? ==> forall j :: !OccursAt(s, pat, j)
  {
    IndexFrom(s, pat, 0)
  }

  /** The first index at or after `i` at which `pat` occurs, if any. */
  function IndexFrom(s: string, pat: string, i: nat): (r: Option<nat>)
    ensures r.Some? ==> i <= r.value && OccursAt(s, pat, r.value)
    ensures r.Some? ==> forall j :: i <= j < r.value ==> !OccursAt(s, pat, j)
    ensures r.None? ==> forall j :: i <= j ==> !OccursAt(s, pat, j)
    decreases |s| - i
  {
    if i + |pat| > |s| then None
    else if s[i..i + |pat|] == pat then Some(i)
    else IndexFrom(s, pat, i + 1)
  }

  /** `s.includes(pat)`. */
  predicate Contains(s: string, pat: string) {
    IndexOf(s, pat).Some?
  }

  /** `s.replace(pat, replacement)`: the first occurrence of `pat` is replaced, and `s`
      is returned as it is when there is none. */
  function ReplaceFirst(s: string, pat: string, replacement: string): string {
    match IndexOf(s, pat)
    case None => s
    case Some(k) => s[..k] + replacement + s[k + |pat|..]
  }

  /** `includes` agrees with the plain definition "occurs somewhere". */
  lemma ContainsIffOccurs(s: string, pat: string)
    ensures Contains(s, pat) <==> exists j :: OccursAt(s, pat, j)
  {
    if Contains(s, pat) {
      assert OccursAt(s, pat, IndexOf(s, pat).value);
    }
  }

  /** Deleting the first occurrence of `pat` is undone by putting `pat` back
      at that index: the result is exactly `|pat|` shorter and nothing but
      that one occurrence is removed. */
  lemma DeleteFirstRestores(s: string, pat: string)
    requires Contains(s, pat)
    ensures var k := IndexOf(s, pat).value;
            var r := ReplaceFirst(s, pat, "");
            && |r| == |s| - |pat|
            && k <= |r|
            && r[..k] + pat + r[k..] == s
            && forall j :: 0 <= j < k ==> !OccursAt(s, pat, j)
  {
    var k := IndexOf(s, pat).value;
    var r := ReplaceFirst(s, pat, "");
    assert r == s[..k] + s[k + |pat|..];
    assert r[..k] == s[..k];
    assert r[k..] == s[k + |pat|..];
    assert s[k..k + |pat|] == pat;
    assert s == s[..k] + s[k..k + |pat|] + s[k + |pat|..];
  }

  /** `pat` is found first right after a prefix that lacks its first
      character. */
  lemma IndexOfAfterPrefix(pre: string, pat: string, post: string)
    requires |pat| > 0 && pat[0] !in pre
    ensures IndexOf(pre + pat + post, pat) == Some(|pre|)
  {
    var s := pre + pat + post;
    assert s[|pre|..|pre| + |pat|] == pat;
    forall j | 0 <= j < |pre|
      ensures !OccursAt(s, pat, j)
    {
      assert s[j] == pre[j];
    }
    assert OccursAt(s, pat, |pre|);
    var r := IndexOf(s, pat);
    assert r.Some?;
    assert !(r.value < |pre|);
  }

  /** A string without the first character of `pat` does not contain `pat`. */
  lemma NoFirstCharNoOccurrence(s: string, pat: string)
    requires |pat| > 0 && pat[0] !in s
    ensures !Contains(s, pat)
  {
  }
}
