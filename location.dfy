/**
 * The split of the region text into a department code and a place name:
 * `re.search('([0-9]+) - (.*)', location)` on the stripped text, without
 * DOTALL, so the place name stops at the first newline.
 */
module LocationSplit {
  import opened Wrappers
  import opened Text

  const Separator: string := " - "

  /** `[0-9]+` matches `s[p..e]` and the separator follows it. */
  ghost predicate LocMatch(s: string, p: nat, e: nat)
  {
    p < e <= |s| && (forall t :: p <= t < e ==> IsDigit(s[t])) && OccursAt(s, Separator, e)
  }

  /** One past the digit run that starts at `i`. */
  function DigitRunEnd(s: string, i: nat): (e: nat)
    requires i <= |s|
    ensures i <= e <= |s|
    ensures forall t :: i <= t < e ==> IsDigit(s[t])
    ensures e < |s| ==> !IsDigit(s[e])
    decreases |s| - i
  {
    if i < |s| && IsDigit(s[i]) then DigitRunEnd(s, i + 1) else i
  }

  /** The greedy `[0-9]+` gives back no digit: a match from `p` always ends where the digit run ends. */
  lemma LocMatchEnd(s: string, p: nat, e: nat)
    requires LocMatch(s, p, e)
    ensures e == DigitRunEnd(s, p)
  {
    OccursAtChar(s, Separator, e, 0);
  }

  /** The leftmost match at or after `from`, as `re.search` finds it. */
  function FindDepartment(s: string, from: nat): (r: Option<(nat, nat)>)
    ensures r.Some? ==> from <= r.value.0 && LocMatch(s, r.value.0, r.value.1)
    ensures r.Some? ==> forall p, e :: from <= p && LocMatch(s, p, e) ==> r.value.0 <= p
    ensures r.None? ==> forall p, e :: from <= p ==> !LocMatch(s, p, e)
    decreases |s| - from
  {
    if from >= |s| then None
    else
      var run := DigitRunEnd(s, from);
      if IsDigit(s[from]) && OccursAt(s, Separator, run) then Some((from, run))
      else
        assert forall e :: !LocMatch(s, from, e) by {
          forall e: nat | LocMatch(s, from, e) ensures false {
            LocMatchEnd(s, from, e);
          }
        }
        FindDepartment(s, from + 1)
  }

  /** Where `.*` without DOTALL stops: the first newline at or after `from`, or the end. */
  function LineEnd(s: string, from: nat): (n: nat)
    requires from <= |s|
    ensures from <= n <= |s|
    ensures forall t :: from <= t < n ==> s[t] != '\n'
    ensures n < |s| ==> s[n] == '\n'
  {
    match FindAny(s, {'\n'}, from)
    case None => |s|
    case Some(n) => n
  }

  /** The split of an already stripped text. */
  function SplitStripped(loc: string): (r: (Option<string>, string))
    requires NoEdgeSpace(loc)
    ensures r.0.None? <==> forall p, e :: !LocMatch(loc, p, e)
    ensures r.0.None? ==> r.1 == loc
    ensures NoEdgeSpace(r.1)
  {
    match FindDepartment(loc, 0)
    case None => (None, loc)
    case Some((p, e)) =>
      var rest := e + |Separator|;
      (Some(Strip(loc[p..e])), Strip(loc[rest..LineEnd(loc, rest)]))
  }

  /**
   * Department and location of a region text (`li.text.strip()`): on a match,
   * the digits and the stripped rest of that line; otherwise no department and
   * the whole stripped text.
   */
  function SplitLocation(text: string): (r: (Option<string>, string))
    ensures r.0.None? <==> forall p, e :: !LocMatch(Strip(text), p, e)
    ensures r.0.None? ==> r.1 == Strip(text)
    ensures NoEdgeSpace(r.1)
  {
    SplitStripped(Strip(text))
  }

  /** On a match, the department is exactly the leftmost digit run and the location the stripped rest of its line. */
  lemma SplitStrippedMatch(s: string, p: nat, e: nat)
    requires NoEdgeSpace(s)
    requires LocMatch(s, p, e)
    requires forall p', e' :: LocMatch(s, p', e') ==> p <= p'
    ensures SplitStripped(s) == (Some(s[p..e]), Strip(s[e + |Separator|..LineEnd(s, e + |Separator|)]))
  {
    LeftmostFound(s, FindDepartment(s, 0), p, e);
    SplitStrippedOfFound(s, p, e);
    DigitsStripToThemselves(s, p, e);
  }

  /** The split once the search has found the digit run `s[p..e]`. */
  lemma SplitStrippedOfFound(s: string, p: nat, e: nat)
    requires NoEdgeSpace(s) && FindDepartment(s, 0) == Some((p, e))
    ensures e + |Separator| <= |s|
    ensures SplitStripped(s) == (Some(Strip(s[p..e])), Strip(s[e + |Separator|..LineEnd(s, e + |Separator|)]))
  {
  }

  /** A search result with the properties of `FindDepartment` from 0 is the leftmost match. */
  lemma LeftmostFound(s: string, r: Option<(nat, nat)>, p: nat, e: nat)
    requires r.Some? ==> LocMatch(s, r.value.0, r.value.1)
    requires r.Some? ==> forall p, e :: LocMatch(s, p, e) ==> r.value.0 <= p
    requires r.None? ==> forall p, e :: !LocMatch(s, p, e)
    requires LocMatch(s, p, e) && forall p', e' :: LocMatch(s, p', e') ==> p <= p'
    ensures r == Some((p, e))
  {
    var (p0, e0) := r.value;
    assert p0 == p;
    LocMatchEnd(s, p, e);
    LocMatchEnd(s, p0, e0);
  }

  /** A digit run has no whitespace to strip. */
  lemma DigitsStripToThemselves(s: string, p: nat, e: nat)
    requires p < e <= |s| && forall t :: p <= t < e ==> IsDigit(s[t])
    ensures Strip(s[p..e]) == s[p..e]
  {
    var digits := s[p..e];
    assert digits[0] == s[p] && digits[|digits| - 1] == s[e - 1];
    StripExact([], digits, []);
    assert [] + digits + [] == digits;
  }

  /** A stripped string strips to itself, so the split of a stripped text is the split of that text. */
  lemma SplitLocationOfStripped(s: string)
    requires NoEdgeSpace(s)
    ensures SplitLocation(s) == SplitStripped(s)
  {
    StripExact([], s, []);
    assert [] + s + [] == s;
  }

  /** `"75 - Paris"` gives department `"75"` and location `"Paris"`. */
  lemma ParisExample()
    ensures SplitLocation("75 - Paris") == (Some("75"), "Paris")
  {
    var s := "75 - Paris";
    assert SplitStripped(s) == (Some("75"), "Paris") by {
      assert LocMatch(s, 0, 2) by {
        assert s[2..5] == Separator;
      }
      assert LineEnd(s, 5) == |s| by {
        assert forall t :: 0 <= t < |s| ==> s[t] != '\n';
      }
      assert s[0..2] == "75" && s[5..10] == "Paris";
      assert Strip("Paris") == "Paris" by {
        StripExact([], "Paris", []);
        assert [] + "Paris" + [] == "Paris";
      }
      SplitStrippedMatch(s, 0, 2);
    }
    SplitLocationOfStripped(s);
  }

  /** `"Remote"` has no department: the location is the whole text. */
  lemma RemoteExample()
    ensures SplitLocation("Remote") == (None, "Remote")
  {
    var s := "Remote";
    assert NoEdgeSpace(s) by {
      assert s[0] == 'R' && s[|s| - 1] == 'e';
    }
    SplitLocationOfStripped(s);
    forall p, e | LocMatch(s, p, e) ensures false {
      NoDigitInRemote(p);
    }
    assert SplitStripped(s).0.None?;
  }

  /** `"Remote"` has no digit. */
  lemma NoDigitInRemote(p: nat)
    requires p < |"Remote"|
    ensures !IsDigit("Remote"[p])
  {
  }
}
