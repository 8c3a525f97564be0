/**
 * URL discovery: each feed page is cut into table rows with
 * `<tr.*?>(.*?)</tr>` (DOTALL, `finditer`), and the first offer link of a row,
 * `href="./resultats.tableauresultatrechercheoffre:detailOffre/(.*?)"`,
 * becomes one `[feedid, detail URL]` pair.
 */
module UrlDiscovery {
  import opened Wrappers
  import opened Text
  import opened OfferIds

  /** A cached feed page: its page identifier and its HTML. */
  datatype Feed = Feed(pageid: string, content: string)

  /** One discovered offer: the feed it came from and the detail URL to fetch. */
  datatype UrlPair = UrlPair(feedid: string, url: string)

  const RowOpen: string := "<tr"
  const TagEnd: string := ">"
  const RowClose: string := "</tr>"
  const LinkOpen: string := "href=\"./resultats.tableauresultatrechercheoffre:detailOffre/"

  /** The characters a lazy `(.*?)"` without DOTALL stops at. */
  const QuoteOrNewline: set<char> := {'"', '\n'}

  /**
   * `<tr.*?>(.*?)</tr>` matches with `<tr` at `p`, the tag's `>` at `q` and
   * `</tr>` at `e`; the captured row body is `s[q + 1..e]`.
   */
  ghost predicate RowMatch(s: string, p: nat, q: nat, e: nat)
  {
    OccursAt(s, RowOpen, p) && p + |RowOpen| <= q && OccursAt(s, TagEnd, q)
    && q + 1 <= e && OccursAt(s, RowClose, e)
  }

  /** Lexicographic order on match positions: the order in which a backtracking engine with lazy quantifiers tries them. */
  predicate Before3(a: (nat, nat, nat), b: (nat, nat, nat))
  {
    a.0 < b.0 || (a.0 == b.0 && (a.1 < b.1 || (a.1 == b.1 && a.2 <= b.2)))
  }

  /** The match the regular expression engine finds when it searches from `from`. */
  function NextRow(s: string, from: nat): (r: Option<(nat, nat, nat)>)
    ensures r.Some? ==> from <= r.value.0 && RowMatch(s, r.value.0, r.value.1, r.value.2)
    ensures r.Some? ==> forall p, q, e :: from <= p && RowMatch(s, p, q, e) ==> Before3(r.value, (p, q, e))
    ensures r.None? ==> forall p, q, e :: from <= p ==> !RowMatch(s, p, q, e)
  {
    match IndexOf(s, RowOpen, from)
    case None => None
    case Some(p) =>
      match IndexOf(s, TagEnd, p + |RowOpen|)
      case None => None
      case Some(q) =>
        match IndexOf(s, RowClose, q + 1)
        case None => None
        case Some(e) => Some((p, q, e))
  }

  /** The match with no other match from `from` before it. */
  ghost predicate LeastRow(s: string, from: nat, h: (nat, nat, nat))
  {
    from <= h.0 && RowMatch(s, h.0, h.1, h.2)
    && forall p, q, e :: from <= p && RowMatch(s, p, q, e) ==> Before3(h, (p, q, e))
  }

  /** The match the row pattern defines when searched from `from`: the least one, if any. */
  ghost function RowHit(s: string, from: nat): Option<(nat, nat, nat)>
  {
    if exists h :: LeastRow(s, from, h) then Some(var h :| LeastRow(s, from, h); h) else None
  }

  /** There is at most one least match. */
  lemma LeastRowUnique(s: string, from: nat, g: (nat, nat, nat), h: (nat, nat, nat))
    requires LeastRow(s, from, g) && LeastRow(s, from, h)
    ensures g == h
  {
    assert Before3(g, h);
    assert Before3(h, g);
  }

  /** The search finds exactly the match the pattern defines. */
  lemma NextRowIsRowHit(s: string, from: nat)
    ensures NextRow(s, from) == RowHit(s, from)
  {
    if NextRow(s, from).Some? {
      var h := NextRow(s, from).value;
      assert LeastRow(s, from, h);
      LeastRowUnique(s, from, RowHit(s, from).value, h);
    } else {
      forall h ensures !LeastRow(s, from, h) {
      }
    }
  }

  /** The row found lies inside the text, after `from`, and the scan resumes past its `</tr>`. */
  lemma RowBounds(s: string, from: nat, p: nat, q: nat, e: nat)
    requires RowHit(s, from) == Some((p, q, e))
    ensures from <= p && p + |RowOpen| <= q && q + 1 <= e && e + |RowClose| <= |s|
  {
    assert LeastRow(s, from, (p, q, e));
    assert RowMatch(s, p, q, e);
  }

  /** The row bodies `finditer` yields from `from` on: each search resumes where the previous match ended. */
  ghost function Rows(s: string, from: nat): seq<string>
    decreases |s| - from
  {
    match RowHit(s, from)
    case None => []
    case Some((p, q, e)) =>
      RowBounds(s, from, p, q, e);
      [s[q + 1..e]] + Rows(s, e + |RowClose|)
  }

  /** One search of `finditer`: the row found, then the rows after its `</tr>`. */
  lemma RowsStep(s: string, from: nat, p: nat, q: nat, e: nat, resume: nat)
    requires RowHit(s, from) == Some((p, q, e)) && resume == e + |RowClose|
    requires q + 1 <= e <= |s|
    ensures Rows(s, from) == [s[q + 1..e]] + Rows(s, resume)
  {
  }

  /** The body of the first row found from `from` holds no `</tr>`. */
  lemma RowBodyHasNoClose(s: string, from: nat, p: nat, q: nat, e: nat)
    requires RowHit(s, from) == Some((p, q, e))
    ensures q + 1 <= e <= |s| && !Contains(s[q + 1..e], RowClose)
  {
    RowBounds(s, from, p, q, e);
    assert LeastRow(s, from, (p, q, e));
    assert RowMatch(s, p, q, e);
    var body := s[q + 1..e];
    forall j | OccursAt(body, RowClose, j) ensures false {
      OccursInSlice(s, RowClose, q + 1, e, j);
      assert RowMatch(s, p, q, q + 1 + j);
    }
  }

  /** The lazy body never runs past a `</tr>`: no row body contains one. */
  lemma {:induction false} RowsHaveNoClose(s: string, from: nat)
    ensures forall k :: 0 <= k < |Rows(s, from)| ==> !Contains(Rows(s, from)[k], RowClose)
    decreases |s| - from
  {
    match RowHit(s, from)
    case None =>
    case Some((p, q, e)) =>
      RowBounds(s, from, p, q, e);
      RowsStep(s, from, p, q, e, e + |RowClose|);
      RowsHaveNoClose(s, e + |RowClose|);
      RowBodyHasNoClose(s, from, p, q, e);
  }

  /** The link regex matches with its literal part at `i` and the closing quote at `k`. */
  ghost predicate LinkMatch(s: string, i: nat, k: nat)
  {
    OccursAt(s, LinkOpen, i) && i + |LinkOpen| <= k < |s| && s[k] == '"'
    && forall t :: i + |LinkOpen| <= t < k ==> s[t] != '\n'
  }

  predicate Before2(a: (nat, nat), b: (nat, nat))
  {
    a.0 < b.0 || (a.0 == b.0 && a.1 <= b.1)
  }

  /** With no closing quote or newline left after `i`'s literal, no match starts at or after `i`. */
  lemma NoLinkFrom(s: string, i: nat)
    requires forall j :: i + |LinkOpen| <= j < |s| ==> s[j] !in QuoteOrNewline
    ensures forall i', k' :: i <= i' ==> !LinkMatch(s, i', k')
  {
    forall i': nat, k': nat | i <= i' && LinkMatch(s, i', k') ensures false {
    }
  }

  /** A newline met before any closing quote rules out every match at `i`. */
  lemma NoLinkAt(s: string, i: nat, k: nat)
    requires i + |LinkOpen| <= k < |s| && s[k] == '\n'
    requires forall j :: i + |LinkOpen| <= j < k ==> s[j] !in QuoteOrNewline
    ensures forall k' :: !LinkMatch(s, i, k')
  {
  }

  /** When no match starts at the first literal, every match starts after it. */
  lemma LinkAfter(s: string, from: nat, i: nat)
    requires from <= i && forall j :: from <= j < i ==> !OccursAt(s, LinkOpen, j)
    requires forall k' :: !LinkMatch(s, i, k')
    ensures forall i', k' :: from <= i' && LinkMatch(s, i', k') ==> i + 1 <= i'
  {
  }

  /** The first closing quote after the first literal gives the least match. */
  lemma LeastLink(s: string, from: nat, i: nat, k: nat)
    requires from <= i && OccursAt(s, LinkOpen, i)
    requires forall j :: from <= j < i ==> !OccursAt(s, LinkOpen, j)
    requires i + |LinkOpen| <= k < |s| && s[k] == '"'
    requires forall j :: i + |LinkOpen| <= j < k ==> s[j] !in QuoteOrNewline
    ensures LinkMatch(s, i, k)
    ensures forall i', k' :: from <= i' && LinkMatch(s, i', k') ==> Before2((i, k), (i', k'))
  {
    forall i': nat, k': nat | from <= i' && LinkMatch(s, i', k') ensures Before2((i, k), (i', k')) {
    }
  }

  /** The first link match at or after `from`, as `re.search` finds it. */
  function FindLink(s: string, from: nat): (r: Option<(nat, nat)>)
    ensures r.Some? ==> from <= r.value.0 && LinkMatch(s, r.value.0, r.value.1)
    ensures r.Some? ==> forall i, k :: from <= i && LinkMatch(s, i, k) ==> Before2(r.value, (i, k))
    ensures r.None? ==> forall i, k :: from <= i ==> !LinkMatch(s, i, k)
    decreases |s| - from
  {
    match IndexOf(s, LinkOpen, from)
    case None => None
    case Some(i) =>
      match FindAny(s, QuoteOrNewline, i + |LinkOpen|)
      case None =>
        NoLinkFrom(s, i);
        None
      case Some(k) =>
        if s[k] == '"' then
          LeastLink(s, from, i, k);
          Some((i, k))
        else
          NoLinkAt(s, i, k);
          LinkAfter(s, from, i);
          FindLink(s, i + 1)
  }

  /** Between the literal and the quote of the least match there is neither a quote nor a newline. */
  lemma LinkBodyClean(s: string, i: nat, k: nat)
    requires LinkMatch(s, i, k)
    requires forall i', k' :: LinkMatch(s, i', k') ==> Before2((i, k), (i', k'))
    ensures forall t :: i + |LinkOpen| <= t < k ==> s[t] != '"' && s[t] != '\n'
  {
    forall t | i + |LinkOpen| <= t < k && s[t] == '"' ensures false {
      assert LinkMatch(s, i, t);
    }
  }

  /** The offer identifier a row links to (the link regex's group 1). */
  function LinkId(row: string): (r: Option<string>)
    ensures r.None? <==> forall i, k :: !LinkMatch(row, i, k)
    ensures r.Some? ==> '"' !in r.value && '\n' !in r.value
  {
    match FindLink(row, 0)
    case None => None
    case Some((i, k)) =>
      LinkBodyClean(row, i, k);
      var id := row[i + |LinkOpen|..k];
      assert forall x :: 0 <= x < |id| ==> id[x] == row[i + |LinkOpen| + x];
      Some(id)
  }

  /** The identifier is the capture of the least link match. */
  lemma LinkIdOfLeast(row: string, i: nat, k: nat)
    requires LinkMatch(row, i, k)
    requires forall i', k' :: LinkMatch(row, i', k') ==> Before2((i, k), (i', k'))
    ensures LinkId(row) == Some(row[i + |LinkOpen|..k])
  {
    assert FindLink(row, 0) == Some((i, k)) by {
      LeastLinkFound(row, FindLink(row, 0), i, k);
    }
    LinkIdOfFound(row);
  }

  /** The identifier is the capture of the match the search finds. */
  lemma LinkIdOfFound(row: string)
    requires FindLink(row, 0).Some?
    ensures var (i, k) := FindLink(row, 0).value; LinkId(row) == Some(row[i + |LinkOpen|..k])
  {
  }

  /** A search result with the properties of `FindLink` from the start is the least match. */
  lemma LeastLinkFound(row: string, r: Option<(nat, nat)>, i: nat, k: nat)
    requires r.Some? ==> LinkMatch(row, r.value.0, r.value.1)
    requires r.Some? ==> forall i, k :: LinkMatch(row, i, k) ==> Before2(r.value, (i, k))
    requires r.None? ==> forall i, k :: !LinkMatch(row, i, k)
    requires LinkMatch(row, i, k)
    requires forall i', k' :: LinkMatch(row, i', k') ==> Before2((i, k), (i', k'))
    ensures r == Some((i, k))
  {
    assert Before2(r.value, (i, k));
    assert Before2((i, k), r.value);
  }

  /** The pairs one row contributes: one if it holds a link, none otherwise. */
  function RowUrls(feedid: string, row: string): (r: seq<UrlPair>)
    ensures |r| <= 1
  {
    match LinkId(row)
    case None => []
    case Some(id) => [UrlPair(feedid, DetailUrl(id))]
  }

  /** A row gives a pair exactly when it holds a link match. */
  lemma RowUrlsIffLink(feedid: string, row: string)
    ensures |RowUrls(feedid, row)| == 1 <==> exists i, k :: LinkMatch(row, i, k)
  {
  }

  /** The pair of a row holds the feed's id and the detail URL of the least link match's capture. */
  lemma RowUrlsOfLeast(feedid: string, row: string, i: nat, k: nat)
    requires LinkMatch(row, i, k)
    requires forall i', k' :: LinkMatch(row, i', k') ==> Before2((i, k), (i', k'))
    ensures RowUrls(feedid, row) == [UrlPair(feedid, DetailUrl(row[i + |LinkOpen|..k]))]
  {
    LinkIdOfLeast(row, i, k);
  }

  /** The pairs one feed contributes, from its rows in document order. */
  ghost function FeedUrls(feedid: string, rows: seq<string>): seq<UrlPair>
  {
    if rows == [] then [] else RowUrls(feedid, rows[0]) + FeedUrls(feedid, rows[1..])
  }

  /** All pairs of all feeds, feed after feed. */
  ghost function DiscoverUrls(feeds: seq<Feed>): seq<UrlPair>
  {
    if feeds == [] then []
    else
      var last := feeds[|feeds| - 1];
      DiscoverUrls(feeds[..|feeds| - 1]) + FeedUrls(last.pageid, Rows(last.content, 0))
  }

  /** Row by row: a row contributes its one pair if it holds a link and nothing otherwise, in row order. */
  lemma {:induction false} FeedUrlsConcat(feedid: string, a: seq<string>, b: seq<string>)
    ensures FeedUrls(feedid, a + b) == FeedUrls(feedid, a) + FeedUrls(feedid, b)
  {
    if a == [] {
      assert a + b == b;
    } else {
      assert (a + b)[0] == a[0] && (a + b)[1..] == a[1..] + b;
      FeedUrlsConcat(feedid, a[1..], b);
    }
  }

  /** A single row gives the pairs of that row. */
  lemma FeedUrlsSingleton(feedid: string, row: string)
    ensures FeedUrls(feedid, [row]) == RowUrls(feedid, row)
  {
    assert [row][1..] == [];
  }

  /** Appending pairs is associative. */
  lemma PairsAssoc(a: seq<UrlPair>, b: seq<UrlPair>, c: seq<UrlPair>)
    ensures a + (b + c) == (a + b) + c
  {
  }

  /**
   * The loop that scans one feed keeps `total == pairs + FeedUrls(feedid, Rows(s, from))`,
   * where `total` is every pair of the feed and `pairs` those collected so far:
   * adding the pairs of the row just found and resuming after it keeps it.
   */
  lemma ScanStep(feedid: string, s: string, from: nat, p: nat, q: nat, e: nat, resume: nat,
                 total: seq<UrlPair>, before: seq<UrlPair>, after: seq<UrlPair>)
    requires RowHit(s, from) == Some((p, q, e)) && resume == e + |RowClose|
    requires q + 1 <= e <= |s|
    requires total == before + FeedUrls(feedid, Rows(s, from))
    requires after == before + RowUrls(feedid, s[q + 1..e])
    ensures total == after + FeedUrls(feedid, Rows(s, resume))
  {
    var row, rest := s[q + 1..e], Rows(s, resume);
    RowsStep(s, from, p, q, e, resume);
    FeedUrlsConcat(feedid, [row], rest);
    FeedUrlsSingleton(feedid, row);
    PairsAssoc(before, RowUrls(feedid, row), FeedUrls(feedid, rest));
  }

  /** When no further row is found, the pairs collected so far are all the feed's pairs. */
  lemma ScanEnd(feedid: string, s: string, from: nat, total: seq<UrlPair>, pairs: seq<UrlPair>)
    requires RowHit(s, from).None?
    requires total == pairs + FeedUrls(feedid, Rows(s, from))
    ensures total == pairs
  {
    assert Rows(s, from) == [];
    assert pairs + [] == pairs;
  }

  /** No row gives more than one pair. */
  lemma {:induction false} FeedUrlsAtMostOnePerRow(feedid: string, rows: seq<string>)
    ensures |FeedUrls(feedid, rows)| <= |rows|
  {
    if rows != [] {
      FeedUrlsAtMostOnePerRow(feedid, rows[1..]);
    }
  }

  /** A URL built from a captured link, from which the analyser reads the same identifier back. */
  ghost predicate IsDetailUrl(url: string)
  {
    exists id :: url == DetailUrl(id) && ExtractOfferId(url) == Some(id) && '"' !in id && '\n' !in id
  }

  /** Every pair of a feed carries that feed's identifier and a detail URL built from a captured identifier. */
  lemma {:induction false} FeedUrlsWellFormed(feedid: string, rows: seq<string>)
    ensures forall k :: 0 <= k < |FeedUrls(feedid, rows)| ==>
      FeedUrls(feedid, rows)[k].feedid == feedid && IsDetailUrl(FeedUrls(feedid, rows)[k].url)
  {
    if rows != [] {
      FeedUrlsWellFormed(feedid, rows[1..]);
      RowUrlsWellFormed(feedid, rows[0]);
      WellFormedConcat(feedid, RowUrls(feedid, rows[0]), FeedUrls(feedid, rows[1..]));
    }
  }

  /** The pair of a row, if any, carries the feed's identifier and a detail URL. */
  lemma RowUrlsWellFormed(feedid: string, row: string)
    ensures forall k :: 0 <= k < |RowUrls(feedid, row)| ==>
      RowUrls(feedid, row)[k].feedid == feedid && IsDetailUrl(RowUrls(feedid, row)[k].url)
  {
    match LinkId(row)
    case None =>
    case Some(id) => ExtractDetailUrl(id);
  }

  /** Pairs that are well formed stay so when put one after the other. */
  lemma WellFormedConcat(feedid: string, a: seq<UrlPair>, b: seq<UrlPair>)
    requires forall k :: 0 <= k < |a| ==> a[k].feedid == feedid && IsDetailUrl(a[k].url)
    requires forall k :: 0 <= k < |b| ==> b[k].feedid == feedid && IsDetailUrl(b[k].url)
    ensures forall k :: 0 <= k < |a + b| ==> (a + b)[k].feedid == feedid && IsDetailUrl((a + b)[k].url)
  {
    forall k | 0 <= k < |a + b| ensures (a + b)[k].feedid == feedid && IsDetailUrl((a + b)[k].url) {
      if k < |a| { assert (a + b)[k] == a[k]; } else { assert (a + b)[k] == b[k - |a|]; }
    }
  }

  /** Discovering over two lists of feeds gives the first list's pairs, then the second's. */
  lemma {:induction false} DiscoverUrlsConcat(a: seq<Feed>, b: seq<Feed>)
    ensures DiscoverUrls(a + b) == DiscoverUrls(a) + DiscoverUrls(b)
    decreases |b|
  {
    if b != [] {
      var c := b[..|b| - 1];
      assert (a + b)[..|a + b| - 1] == a + c;
      DiscoverUrlsConcat(a, c);
    } else {
      assert a + b == a;
    }
  }

  /** The pairs of the first `i + 1` feeds: those of the first `i`, then those of feed `i`. */
  lemma DiscoverUrlsSnoc(feeds: seq<Feed>, i: nat)
    requires i < |feeds|
    ensures DiscoverUrls(feeds[..i + 1]) == DiscoverUrls(feeds[..i]) + FeedUrls(feeds[i].pageid, Rows(feeds[i].content, 0))
  {
    assert feeds[..i + 1][..i] == feeds[..i];
  }

  /** Every discovered pair names one of the feeds and a well-formed detail URL. */
  lemma {:induction false} DiscoveredPairsWellFormed(feeds: seq<Feed>)
    ensures forall k :: 0 <= k < |DiscoverUrls(feeds)| ==>
      (exists j :: 0 <= j < |feeds| && DiscoverUrls(feeds)[k].feedid == feeds[j].pageid)
      && IsDetailUrl(DiscoverUrls(feeds)[k].url)
  {
    if feeds != [] {
      var init, last := feeds[..|feeds| - 1], feeds[|feeds| - 1];
      DiscoveredPairsWellFormed(init);
      FeedUrlsWellFormed(last.pageid, Rows(last.content, 0));
      var d := DiscoverUrls(feeds);
      assert d == DiscoverUrls(init) + FeedUrls(last.pageid, Rows(last.content, 0));
      forall k | 0 <= k < |d|
        ensures (exists j :: 0 <= j < |feeds| && d[k].feedid == feeds[j].pageid) && IsDetailUrl(d[k].url)
      {
        if k < |DiscoverUrls(init)| {
          assert d[k] == DiscoverUrls(init)[k];
          var j :| 0 <= j < |init| && d[k].feedid == init[j].pageid;
          assert feeds[j] == init[j];
        } else {
          assert d[k] == FeedUrls(last.pageid, Rows(last.content, 0))[k - |DiscoverUrls(init)|];
          assert d[k].feedid == feeds[|feeds| - 1].pageid;
        }
      }
    } else {
      assert DiscoverUrls(feeds) == [];
    }
  }
}
