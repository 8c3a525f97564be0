/**
 * First-occurrence string search and Python's `unicode.strip()`.
 * Every regular expression of the extractor is modelled on top of these.
 */
module Text {
  import opened Wrappers

  /** `pat` occurs in `s` starting at index `i`. */
  predicate OccursAt(s: string, pat: string, i: nat)
  {
    i + |pat| <= |s| && s[i..i + |pat|] == pat
  }

  /** An occurrence fixes each character it covers. */
  lemma OccursAtChar(s: string, pat: string, i: nat, t: nat)
    requires OccursAt(s, pat, i) && t < |pat|
    ensures s[i + t] == pat[t]
  {
    assert s[i..i + |pat|][t] == s[i + t];
  }

  /** `pat[k..]` occurs in `s` at index `i + k`, compared one character at a time. */
  predicate MatchesFrom(s: string, pat: string, i: nat, k: nat)
    requires k <= |pat|
    ensures MatchesFrom(s, pat, i, k) <==>
      i + |pat| <= |s| && forall t :: k <= t < |pat| ==> s[i + t] == pat[t]
    decreases |pat| - k
  {
    if k == |pat| then i + |pat| <= |s|
    else i + k < |s| && s[i + k] == pat[k] && MatchesFrom(s, pat, i, k + 1)
  }

  /** `pat` occurs somewhere in `s`. */
  ghost predicate Contains(s: string, pat: string)
  {
    exists j :: OccursAt(s, pat, j)
  }

  /** The first index at or after `from` where `pat` occurs (Python `str.find(pat, from)`). */
  function IndexOf(s: string, pat: string, from: nat): (r: Option<nat>)
    ensures r.Some? ==> from <= r.value && OccursAt(s, pat, r.value)
    ensures r.Some? ==> forall j :: from <= j < r.value ==> !OccursAt(s, pat, j)
    ensures r.None? ==> forall j :: from <= j ==> !OccursAt(s, pat, j)
    decreases |s| - from
  {
    if from + |pat| > |s| then None
    else if MatchesFrom(s, pat, from, 0) then
      assert s[from..from + |pat|] == pat;
      Some(from)
    else IndexOf(s, pat, from + 1)
  }

  /** The first index at or after `from` whose character is in `cs`. */
  function FindAny(s: string, cs: set<char>, from: nat): (r: Option<nat>)
    ensures r.Some? ==> from <= r.value < |s| && s[r.value] in cs
    ensures r.Some? ==> forall j :: from <= j < r.value ==> s[j] !in cs
    ensures r.None? ==> forall j :: from <= j < |s| ==> s[j] !in cs
    decreases |s| - from
  {
    if from >= |s| then None
    else if s[from] in cs then Some(from)
    else FindAny(s, cs, from + 1)
  }

  /** An occurrence inside a slice is an occurrence in the whole string, shifted by the slice's start. */
  lemma OccursInSlice(s: string, pat: string, a: nat, b: nat, j: nat)
    requires a <= b <= |s| && OccursAt(s[a..b], pat, j)
    ensures OccursAt(s, pat, a + j) && a + j + |pat| <= b
  {
    var u, w := s[a..b][j..j + |pat|], s[a + j..a + j + |pat|];
    assert |u| == |w|;
    forall x | 0 <= x < |u| ensures u[x] == w[x] {
      assert u[x] == s[a..b][j + x];
    }
    assert u == w;
  }

  /** Python 2 `unicode.isspace()`: bidirectional classes WS, B, S and category Zs. */
  predicate IsSpace(c: char)
  {
    || ('\t' <= c <= '\r')
    || ('\U{1C}' <= c <= '\U{1F}')
    || c == ' ' || c == '\U{85}' || c == '\U{A0}' || c == '\U{1680}' || c == '\U{180E}'
    || ('\U{2000}' <= c <= '\U{200A}')
    || c == '\U{2028}' || c == '\U{2029}' || c == '\U{202F}' || c == '\U{205F}' || c == '\U{3000}'
  }

  /** `[0-9]` in a Python regular expression. */
  predicate IsDigit(c: char)
  {
    '0' <= c <= '9'
  }

  ghost predicate AllSpace(s: string)
  {
    forall k :: 0 <= k < |s| ==> IsSpace(s[k])
  }

  /** No whitespace at either end. */
  predicate NoEdgeSpace(s: string)
  {
    s == [] || (!IsSpace(s[0]) && !IsSpace(s[|s| - 1]))
  }

  /** Index of the first non-space character at or after `i`. */
  function SkipSpaces(s: string, i: nat): (k: nat)
    requires i <= |s|
    ensures i <= k <= |s|
    ensures forall j :: i <= j < k ==> IsSpace(s[j])
    ensures k < |s| ==> !IsSpace(s[k])
    decreases |s| - i
  {
    if i == |s| || !IsSpace(s[i]) then i else SkipSpaces(s, i + 1)
  }

  /** One past the last non-space character in `s[lo..j]`, or `lo` if there is none. */
  function SkipSpacesBack(s: string, lo: nat, j: nat): (k: nat)
    requires lo <= j <= |s|
    ensures lo <= k <= j
    ensures forall t :: k <= t < j ==> IsSpace(s[t])
    ensures lo < k ==> !IsSpace(s[k - 1])
    decreases j
  {
    if j == lo || !IsSpace(s[j - 1]) then j else SkipSpacesBack(s, lo, j - 1)
  }

  /** Python `unicode.strip()` with no argument. */
  function Strip(s: string): (r: string)
    ensures |r| <= |s|
    ensures NoEdgeSpace(r)
  {
    var lo := SkipSpaces(s, 0);
    s[lo..SkipSpacesBack(s, lo, |s|)]
  }

  /** `strip()` removes exactly the surrounding whitespace and nothing else. */
  lemma StripExact(pre: string, r: string, post: string)
    requires AllSpace(pre) && AllSpace(post) && NoEdgeSpace(r)
    ensures Strip(pre + r + post) == r
  {
    var s := pre + r + post;
    var lo := SkipSpaces(s, 0);
    if r == [] {
      assert forall j :: 0 <= j < |s| ==> IsSpace(s[j]) by {
        forall j | 0 <= j < |s| ensures IsSpace(s[j]) {
          if j < |pre| { assert s[j] == pre[j]; } else { assert s[j] == post[j - |pre|]; }
        }
      }
      assert lo == |s|;
    } else {
      assert s[|pre|] == r[0];
      assert forall j :: 0 <= j < |pre| ==> s[j] == pre[j];
      assert lo == |pre|;
      var hi := SkipSpacesBack(s, lo, |s|);
      assert s[|pre| + |r| - 1] == r[|r| - 1];
      assert forall j :: |pre| + |r| <= j < |s| ==> s[j] == post[j - |pre| - |r|];
      assert hi == |pre| + |r|;
      assert s[lo..hi] == r;
    }
  }

  /** A stripped string strips to itself. */
  lemma StripIdempotent(s: string)
    ensures Strip(Strip(s)) == Strip(s)
  {
    StripExact([], Strip(s), []);
    assert [] + Strip(s) + [] == Strip(s);
  }
}
