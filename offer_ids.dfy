/**
 * The detail-page URL that URL discovery builds from a feed link, and the
 * offer identifier the analyser reads back out of a page URL.
 */
module OfferIds {
  import opened Wrappers
  import opened Text

  const SiteRoot: string := "http://candidat.pole-emploi.fr"
  const SearchPath: string := "/candidat/rechercheoffres"

  /** The path component that introduces the offer identifier in a page URL. */
  const DetailMarker: string := "/detail/"

  /** `http://candidat.pole-emploi.fr/candidat/rechercheoffres/detail/`, the literal part of every built URL. */
  const DetailPrefix: string := SiteRoot + SearchPath + DetailMarker

  /** The URL built for a discovered offer link. */
  function DetailUrl(id: string): (url: string)
    ensures |url| == |DetailPrefix| + |id|
    ensures url[..|DetailPrefix|] == DetailPrefix && url[|DetailPrefix|..] == id
  {
    DetailPrefix + id
  }

  /** `i` is the first index where the marker occurs in `url`. */
  ghost predicate FirstMarker(url: string, i: nat)
  {
    OccursAt(url, DetailMarker, i) && forall j :: 0 <= j < i ==> !OccursAt(url, DetailMarker, j)
  }

  /**
   * The offer identifier of a page: with DOTALL, `.*?/detail/(.*)` captures
   * everything after the first `/detail/`, and finds nothing when there is none.
   */
  function ExtractOfferId(url: string): (r: Option<string>)
    ensures r.None? <==> forall j :: !OccursAt(url, DetailMarker, j)
    ensures r.Some? ==> exists i: nat :: FirstMarker(url, i) && r.value == url[i + |DetailMarker|..]
  {
    match IndexOf(url, DetailMarker, 0)
    case None => None
    case Some(i) => assert FirstMarker(url, i); Some(url[i + |DetailMarker|..])
  }

  /** Before index 55 the prefix never has a `/` followed by a `d`, so the marker cannot start there. */
  lemma NoEarlyMarker(id: string, j: nat)
    requires j < |SiteRoot| + |SearchPath|
    ensures !OccursAt(DetailUrl(id), DetailMarker, j)
  {
    var url := DetailUrl(id);
    assert url[j] == DetailPrefix[j] && url[j + 1] == DetailPrefix[j + 1];
    if j < |SiteRoot| {
      assert DetailPrefix[j] == SiteRoot[j];
      assert DetailPrefix[j + 1] == if j + 1 < |SiteRoot| then SiteRoot[j + 1] else SearchPath[0];
      NoSlashDInRoot(j);
    } else {
      assert DetailPrefix[j] == SearchPath[j - |SiteRoot|];
      assert DetailPrefix[j + 1] ==
        if j + 1 < |SiteRoot| + |SearchPath| then SearchPath[j + 1 - |SiteRoot|] else DetailMarker[0];
      NoSlashDInPath(j - |SiteRoot|);
    }
    if OccursAt(url, DetailMarker, j) {
      OccursAtChar(url, DetailMarker, j, 0);
      OccursAtChar(url, DetailMarker, j, 1);
    }
  }

  /** No `/` of the site root is followed by a `d`. */
  lemma NoSlashDInRoot(j: nat)
    requires j < |SiteRoot|
    ensures SiteRoot[j] == '/' ==> (if j + 1 < |SiteRoot| then SiteRoot[j + 1] else SearchPath[0]) != 'd'
  {
  }

  /** No `/` of the search path is followed by a `d`, nor by the marker's own `/`. */
  lemma NoSlashDInPath(j: nat)
    requires j < |SearchPath|
    ensures SearchPath[j] == '/' ==> (if j + 1 < |SearchPath| then SearchPath[j + 1] else DetailMarker[0]) != 'd'
  {
  }

  /** Reading the identifier back from a URL built by discovery gives exactly that identifier. */
  lemma ExtractDetailUrl(id: string)
    ensures ExtractOfferId(DetailUrl(id)) == Some(id)
  {
    var url := DetailUrl(id);
    var at := |SiteRoot| + |SearchPath|;
    assert url[at..at + |DetailMarker|] == DetailMarker;
    assert OccursAt(url, DetailMarker, at);
    forall j | 0 <= j < at ensures !OccursAt(url, DetailMarker, j) {
      NoEarlyMarker(id, j);
    }
    assert IndexOf(url, DetailMarker, 0) == Some(at);
    assert url[at + |DetailMarker|..] == id;
  }
}
