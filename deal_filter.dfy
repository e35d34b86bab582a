/**
 * The deal-link filter: which of the document's anchors are kept, in
 * document order, without removing repeated URLs.
 */
module DealFilter {
  import opened JsString
  import opened Page
  import opened Seqs

  /** The text every kept link's URL must contain (a substring test, not a
      host check). */
  const SourceDomain: string := "fly4free.com"

  /** At least one sign that the link is about a deal: a currency symbol in
      the text, a keyword in the lower-cased text, or a deal or flight path in
      the URL. */
  predicate HasSignal(text: string, href: string) {
    Contains(text, "€") || Contains(text, "$") || Contains(text, "£")
    || Contains(ToLower(text), "flight")
    || Contains(ToLower(text), "deal")
    || Contains(ToLower(text), "from")
    || Contains(href, "/deal/") || Contains(href, "/flight/")
  }

  /** The filter callback: trimmed text longer than 20 code units, a URL
      containing `fly4free.com`, and a signal. */
  predicate IsDealLink(a: Anchor) {
    var text := Trim(a.textContent);
    Utf16Length(text) > 20 && Contains(a.href, SourceDomain) && HasSignal(text, a.href)
  }

  /** `Array.from(document.querySelectorAll('a')).filter(IsDealLink)`. */
  function DealLinks(anchors: seq<Anchor>): seq<Anchor> {
    Filter(anchors, IsDealLink)
  }

  /** An anchor is kept exactly when it is one of the document's anchors
      and passes the filter. */
  lemma DealLinksMembership(anchors: seq<Anchor>, a: Anchor)
    ensures a in DealLinks(anchors) <==> a in anchors && IsDealLink(a)
  {
  }

  /** Filtering distributes over concatenation: the links of a longer page
      are those of its first part followed by those of the rest. */
  lemma DealLinksAppend(xs: seq<Anchor>, ys: seq<Anchor>)
    ensures DealLinks(xs + ys) == DealLinks(xs) + DealLinks(ys)
  {
    FilterAppend(xs, ys, IsDealLink);
  }

  /** Nothing is de-duplicated: an anchor that passes is kept exactly as
      often as it occurs, and one that fails never. */
  lemma DealLinksMultiplicity(anchors: seq<Anchor>, a: Anchor)
    ensures multiset(DealLinks(anchors))[a] == if IsDealLink(a) then multiset(anchors)[a] else 0
  {
    FilterMultiplicity(anchors, IsDealLink, a);
  }

  /** The document positions of the anchors the filter keeps. */
  function DealIndices(anchors: seq<Anchor>): seq<nat> {
    Positions(anchors, IsDealLink)
  }

  /** The kept links are an order-preserving subsequence of the anchors: the
      k-th kept link is the anchor at the k-th passing position, positions
      strictly increase, and a position is listed exactly when its anchor
      passes the filter. */
  lemma DealLinksSubsequence(anchors: seq<Anchor>)
    ensures |DealIndices(anchors)| == |DealLinks(anchors)|
    ensures forall k :: 0 <= k < |DealIndices(anchors)| ==>
              DealIndices(anchors)[k] < |anchors|
              && DealLinks(anchors)[k] == anchors[DealIndices(anchors)[k]]
    ensures Increasing(DealIndices(anchors))
    ensures forall i :: 0 <= i < |anchors| ==> (i in DealIndices(anchors) <==> IsDealLink(anchors[i]))
  {
    FilterSubsequence(anchors, IsDealLink);
  }

  /** A link whose trimmed text is 20 code units or shorter is never kept,
      whatever its URL. */
  lemma ShortTextExcluded(anchors: seq<Anchor>, a: Anchor)
    requires Utf16Length(Trim(a.textContent)) <= 20
    ensures a !in DealLinks(anchors)
  {
  }

  /** Trimming only shortens, and a character is at most two code units, so
      a link whose raw text has at most ten characters is never kept. */
  lemma FewCharsExcluded(anchors: seq<Anchor>, a: Anchor)
    requires |a.textContent| <= 10
    ensures a !in DealLinks(anchors)
  {
    assert |Trim(a.textContent)| <= |a.textContent|;
    ShortTextExcluded(anchors, a);
  }

  /** A navigation link whose text is "Home" is dropped, whatever its URL
      and markup. */
  lemma HomeLinkExcluded(anchors: seq<Anchor>, a: Anchor)
    requires a.textContent == "Home"
    ensures a !in DealLinks(anchors)
  {
    FewCharsExcluded(anchors, a);
  }
}
