/**
 * The deal records built from the kept links:
 * `dealLinks.map((link, index) => ({ id: index + 1, rawText, url, htmlContent }))`.
 */
module Deals {
  import opened JsString
  import opened Whitespace
  import opened Markup
  import opened Page
  import opened Seqs
  import opened DealFilter

  datatype RawDeal = RawDeal(id: nat, rawText: string, url: string, htmlContent: string)

  /** `innerHTML.replace(/<[^>]*>/g, ' ').replace(/\s+/g, ' ').trim()`. */
  function HtmlContent(innerHTML: string): string {
    Normalize(StripTags(innerHTML))
  }

  /** The record for the link at 0-based `index` of the filtered list. */
  function ToDeal(link: Anchor, index: nat): RawDeal {
    RawDeal(index + 1, Trim(link.textContent), link.href, HtmlContent(link.innerHTML))
  }

  /** `links.map(ToDeal)`, the index being the position in `links`. */
  function RawDeals(links: seq<Anchor>): seq<RawDeal> {
    MapIndexed(links, ToDeal)
  }

  /** The cleaned markup is in whitespace normal form (no edge whitespace, no
      two adjacent whitespace characters, only plain spaces), holds no
      complete tag, and keeps the words of the tag-stripped markup. */
  lemma HtmlContentClean(innerHTML: string)
    ensures NormalForm(HtmlContent(innerHTML))
    ensures NoCompleteTag(HtmlContent(innerHTML))
    ensures Words(HtmlContent(innerHTML)) == Words(StripTags(innerHTML))
  {
    NormalizeNormalForm(StripTags(innerHTML));
    StripTagsNoTag(innerHTML);
    NormalizeNoTag(StripTags(innerHTML));
    NormalizeKeepsWords(StripTags(innerHTML));
  }

  /** Cleaning already-cleaned markup changes nothing. */
  lemma HtmlContentIdempotent(innerHTML: string)
    ensures HtmlContent(HtmlContent(innerHTML)) == HtmlContent(innerHTML)
  {
    var h := HtmlContent(innerHTML);
    HtmlContentClean(innerHTML);
    StripTagsFixpoint(h);
    NormalizeFixpoint(h);
  }

  /** The deals of a document correspond one to one, in order, to the anchors
      the filter keeps: the k-th deal has id k + 1 and is built from the
      anchor at the k-th passing position. */
  lemma DealsFromAnchors(anchors: seq<Anchor>)
    ensures var deals := RawDeals(DealLinks(anchors));
      var ix := DealIndices(anchors);
      |deals| == |ix|
      && forall k :: 0 <= k < |deals| ==>
           ix[k] < |anchors|
           && deals[k].id == k + 1
           && deals[k].rawText == Trim(anchors[ix[k]].textContent)
           && deals[k].url == anchors[ix[k]].href
           && deals[k].htmlContent == HtmlContent(anchors[ix[k]].innerHTML)
  {
    DealLinksSubsequence(anchors);
  }

  /** Every emitted deal keeps what the filter demanded of its link and what
      the record construction promises: trimmed text longer than 20 code
      units, a URL containing `fly4free.com`, a deal signal, and clean
      markup. */
  lemma DealInvariants(anchors: seq<Anchor>)
    ensures forall d :: d in RawDeals(DealLinks(anchors)) ==>
      Utf16Length(d.rawText) > 20
      && NoEdgeWs(d.rawText)
      && Contains(d.url, SourceDomain)
      && HasSignal(d.rawText, d.url)
      && NormalForm(d.htmlContent)
      && NoCompleteTag(d.htmlContent)
  {
    var links := DealLinks(anchors);
    var deals := RawDeals(links);
    forall d | d in deals
      ensures Utf16Length(d.rawText) > 20
      ensures NoEdgeWs(d.rawText)
      ensures Contains(d.url, SourceDomain)
      ensures HasSignal(d.rawText, d.url)
      ensures NormalForm(d.htmlContent)
      ensures NoCompleteTag(d.htmlContent)
    {
      var k :| 0 <= k < |deals| && deals[k] == d;
      var link := links[k];
      assert link in links;
      assert IsDealLink(link);
      TrimSpec(link.textContent);
      HtmlContentClean(link.innerHTML);
    }
  }

  lemma RawDealsSingle(a: Anchor)
    ensures RawDeals([a]) == [ToDeal(a, 0)]
  {
    MapIndexedSingle(a, ToDeal);
  }

  lemma RawDealsPair(a: Anchor, b: Anchor)
    ensures RawDeals([a, b]) == [ToDeal(a, 0), ToDeal(b, 1)]
  {
    MapIndexedPair(a, b, ToDeal);
  }

  /** A single passing anchor is kept. */
  lemma SingleLink(a: Anchor)
    requires IsDealLink(a)
    ensures DealLinks([a]) == [a]
  {
    FilterAllPass([a], IsDealLink);
  }

  /** Two links to the same URL that both pass are both emitted, with
      consecutive ids: URLs are not de-duplicated. */
  lemma SameUrlKept(a: Anchor, b: Anchor)
    requires IsDealLink(a) && IsDealLink(b) && a.href == b.href
    ensures RawDeals(DealLinks([a, b])) == [ToDeal(a, 0), ToDeal(b, 1)]
  {
    assert DealLinks([a, b]) == [a, b] by {
      SingleLink(a);
      SingleLink(b);
      assert [a, b] == [a] + [b];
      DealLinksAppend([a], [b]);
    }
    RawDealsPair(a, b);
  }

  /** An example deal link of the listing page. */
  const ParisText: string := "Paris from €49 - amazing deal!"
  const ParisHref: string := "https://www.fly4free.com/deal/paris"

  lemma ParisTextTrimmed()
    ensures Trim(ParisText) == ParisText
  {
    assert TrimStart(ParisText) == ParisText;
    assert TrimEnd(ParisText) == ParisText;
  }

  lemma ParisTextHasEuro()
    ensures Contains(ParisText, "€")
  {
    assert OccursAt(ParisText, "€", 11);
  }

  lemma ParisHrefHasDomain()
    ensures Contains(ParisHref, SourceDomain)
  {
    assert ParisHref == "https://www." + SourceDomain + "/deal/paris";
    assert OccursAt(ParisHref, SourceDomain, 12);
  }

  /** A link with a long enough trimmed text containing a euro sign, whose
      URL contains `fly4free.com`, passes the filter. */
  lemma EuroLinkPasses(a: Anchor)
    requires Utf16Length(Trim(a.textContent)) > 20
    requires Contains(a.href, SourceDomain)
    requires Contains(Trim(a.textContent), "€")
    ensures IsDealLink(a)
  {
  }

  /** The example link passes the filter: long enough, a URL containing
      `fly4free.com`, and a euro sign in its text. */
  lemma ParisLinkPasses(innerHTML: string)
    ensures IsDealLink(Anchor(ParisText, ParisHref, innerHTML))
  {
    var a := Anchor(ParisText, ParisHref, innerHTML);
    assert Utf16Length(Trim(a.textContent)) > 20 by {
      ParisTextTrimmed();
    }
    assert Contains(a.href, SourceDomain) by {
      ParisHrefHasDomain();
    }
    assert Contains(Trim(a.textContent), "€") by {
      ParisTextTrimmed();
      ParisTextHasEuro();
    }
    EuroLinkPasses(a);
  }

  /** A page whose only anchor passes the filter yields exactly one deal,
      with id 1. */
  lemma SingleDeal(a: Anchor)
    requires IsDealLink(a)
    ensures RawDeals(DealLinks([a])) == [ToDeal(a, 0)]
  {
    SingleLink(a);
    RawDealsSingle(a);
  }

  /** A page whose only anchor is the example link yields exactly one deal,
      with id 1 and the link's text and URL. */
  lemma ParisDealKept(innerHTML: string)
    ensures RawDeals(DealLinks([Anchor(ParisText, ParisHref, innerHTML)]))
      == [RawDeal(1, ParisText, ParisHref, HtmlContent(innerHTML))]
  {
    var a := Anchor(ParisText, ParisHref, innerHTML);
    assert DealLinks([a]) == [a] by {
      ParisLinkPasses(innerHTML);
      SingleLink(a);
    }
    RawDealsSingle(a);
    assert ToDeal(a, 0) == RawDeal(1, ParisText, ParisHref, HtmlContent(innerHTML)) by {
      ParisTextTrimmed();
    }
  }
}
