/**
 * Label/value field extraction: with DOTALL,
 * `<div class="label"><span>CAPTION</span></div>.*?<div class="value"><span.*?>(.*?)</span></div>`
 * is searched in the serialised scope, and the captured value is converted
 * to plain text and stripped.
 */
module FieldExtractor {
  import opened Wrappers
  import opened Text

  const ValueOpen: string := "<div class=\"value\"><span"
  const TagEnd: string := ">"
  const ValueClose: string := "</span></div>"

  /** The literal caption block the pattern starts with. */
  function LabelBlock(caption: string): string
  {
    "<div class=\"label\"><span>" + caption + "</span></div>"
  }

  /**
   * The pattern matches with the caption block at `p`, the value `<span` at `b`,
   * that tag's `>` at `g` and the closing `</span></div>` at `e`; the captured
   * value is `html[g + 1..e]`.
   */
  ghost predicate FieldMatch(html: string, caption: string, p: nat, b: nat, g: nat, e: nat)
  {
    OccursAt(html, LabelBlock(caption), p) && p + |LabelBlock(caption)| <= b
    && OccursAt(html, ValueOpen, b) && b + |ValueOpen| <= g
    && OccursAt(html, TagEnd, g) && g + 1 <= e
    && OccursAt(html, ValueClose, e)
  }

  /** Lexicographic order on match positions, the order a backtracking engine with lazy quantifiers tries them in. */
  predicate Before4(x: (nat, nat, nat, nat), y: (nat, nat, nat, nat))
  {
    x.0 < y.0 || (x.0 == y.0 && (x.1 < y.1 || (x.1 == y.1 && (x.2 < y.2 || (x.2 == y.2 && x.3 <= y.3)))))
  }

  /** The match `re.search` finds: the least one, or none at all. */
  function FindField(html: string, caption: string): (r: Option<(nat, nat, nat, nat)>)
    ensures r.Some? ==> FieldMatch(html, caption, r.value.0, r.value.1, r.value.2, r.value.3)
    ensures r.Some? ==> forall p, b, g, e :: FieldMatch(html, caption, p, b, g, e) ==> Before4(r.value, (p, b, g, e))
    ensures r.None? ==> forall p, b, g, e :: !FieldMatch(html, caption, p, b, g, e)
  {
    var block := LabelBlock(caption);
    match IndexOf(html, block, 0)
    case None => None
    case Some(p) =>
      match IndexOf(html, ValueOpen, p + |block|)
      case None => None
      case Some(b) =>
        match IndexOf(html, TagEnd, b + |ValueOpen|)
        case None => None
        case Some(g) =>
          match IndexOf(html, ValueClose, g + 1)
          case None => None
          case Some(e) => Some((p, b, g, e))
  }

  /**
   * `_regexExtract(caption, scope)`: the stripped plain text of the captured
   * value, or `None` when the pattern does not match. `htmlToText` stands for
   * the host's HTML-to-text converter.
   */
  function RegexExtract(caption: string, html: string, htmlToText: string -> string): (r: Option<string>)
    ensures r.None? <==> forall p, b, g, e :: !FieldMatch(html, caption, p, b, g, e)
    ensures r.Some? ==> NoEdgeSpace(r.value)
  {
    match FindField(html, caption)
    case None => None
    case Some((p, b, g, e)) => Some(Strip(htmlToText(html[g + 1..e])))
  }

  /** A match no other match precedes. */
  ghost predicate LeastFieldMatch(html: string, caption: string, p: nat, b: nat, g: nat, e: nat)
  {
    FieldMatch(html, caption, p, b, g, e)
    && forall p', b', g', e' :: FieldMatch(html, caption, p', b', g', e') ==> Before4((p, b, g, e), (p', b', g', e'))
  }

  /** The extracted value is the stripped text of the value that the least match captures. */
  lemma RegexExtractValue(caption: string, html: string, htmlToText: string -> string, p: nat, b: nat, g: nat, e: nat)
    requires LeastFieldMatch(html, caption, p, b, g, e)
    ensures RegexExtract(caption, html, htmlToText) == Some(Strip(htmlToText(html[g + 1..e])))
  {
    LeastMatchFound(html, caption, FindField(html, caption), p, b, g, e);
  }

  /** A search result with the properties of `FindField` is the least match. */
  lemma LeastMatchFound(html: string, caption: string, r: Option<(nat, nat, nat, nat)>, p: nat, b: nat, g: nat, e: nat)
    requires r.Some? ==> FieldMatch(html, caption, r.value.0, r.value.1, r.value.2, r.value.3)
    requires r.Some? ==> forall p, b, g, e :: FieldMatch(html, caption, p, b, g, e) ==> Before4(r.value, (p, b, g, e))
    requires r.None? ==> forall p, b, g, e :: !FieldMatch(html, caption, p, b, g, e)
    requires LeastFieldMatch(html, caption, p, b, g, e)
    ensures r == Some((p, b, g, e))
  {
    assert Before4(r.value, (p, b, g, e));
    assert Before4((p, b, g, e), r.value);
  }

  /** The value stops at the first `</span></div>` after its tag: it never contains one. */
  lemma CapturedValueHasNoClose(caption: string, html: string)
    requires FindField(html, caption).Some?
    ensures var (p, b, g, e) := FindField(html, caption).value; !Contains(html[g + 1..e], ValueClose)
  {
    var (p, b, g, e) := FindField(html, caption).value;
    var value := html[g + 1..e];
    forall j | OccursAt(value, ValueClose, j) ensures false {
      OccursInSlice(html, ValueClose, g + 1, e, j);
    }
  }
}
