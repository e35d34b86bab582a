/**
 * The extraction callback run inside the loaded page: the content root, the
 * deal records, the title, the meta description and the page text.
 */
module Extraction {
  import opened JsString
  import opened Whitespace
  import opened Page
  import opened DealFilter
  import opened Deals

  /** The object the callback returns. */
  datatype ExtractionResult = ExtractionResult(
    pageTitle: string,
    metaDescription: string,
    rawDeals: seq<RawDeal>,
    pageText: string
  )

  /** The callback: deals from all anchors of the document, the page text from
      the content root only. */
  function Extract(doc: Document): ExtractionResult {
    ExtractionResult(
      doc.title,
      MetaDescription(doc),
      RawDeals(DealLinks(doc.anchors)),
      Normalize(SelectRoot(doc).textContent))
  }

  /** The title is the document's; the meta description is its content when
      there is such a tag and the empty string otherwise. */
  lemma ExtractHeader(doc: Document)
    ensures Extract(doc).pageTitle == doc.title
    ensures doc.metaDescription.None? ==> Extract(doc).metaDescription == ""
    ensures doc.metaDescription.Some? ==> Extract(doc).metaDescription == doc.metaDescription.value
  {
  }

  /** The page text is the root's text in whitespace normal form: the same
      words, separated by single spaces, nothing at either end; it is empty
      exactly when the root's text is all whitespace. */
  lemma PageTextSpec(doc: Document)
    ensures var root := SelectRoot(doc).textContent;
      var text := Extract(doc).pageText;
      NormalForm(text)
      && Words(text) == Words(root)
      && text == Join(Words(root))
      && (text == [] <==> forall i :: 0 <= i < |root| ==> IsWs(root[i]))
  {
    var root := SelectRoot(doc).textContent;
    NormalizeNormalForm(root);
    NormalizeKeepsWords(root);
    NormalizeIsJoinedWords(root);
    NormalizeEmpty(root);
  }

  /** Normalising the page text again changes nothing. */
  lemma PageTextStable(doc: Document)
    ensures Normalize(Extract(doc).pageText) == Extract(doc).pageText
  {
    NormalizeIdempotent(SelectRoot(doc).textContent);
  }

  /** There is one deal per anchor the filter keeps, numbered 1, 2, ... in
      document order, each built from its anchor. */
  lemma ExtractDeals(doc: Document)
    ensures var deals := Extract(doc).rawDeals;
      var ix := DealIndices(doc.anchors);
      |deals| == |ix|
      && forall k :: 0 <= k < |deals| ==>
           ix[k] < |doc.anchors|
           && deals[k].id == k + 1
           && deals[k] == ToDeal(doc.anchors[ix[k]], k)
  {
    var links := DealLinks(doc.anchors);
    var deals := RawDeals(links);
    var ix := DealIndices(doc.anchors);
    assert Extract(doc).rawDeals == deals;
    DealLinksSubsequence(doc.anchors);
    forall k | 0 <= k < |deals|
      ensures ix[k] < |doc.anchors| && deals[k] == ToDeal(doc.anchors[ix[k]], k)
    {
      assert links[k] == doc.anchors[ix[k]];
    }
  }

  /** The deals do not depend on which element is the content root: anchors
      are collected from the whole document. */
  lemma DealsIgnoreRoot(d1: Document, d2: Document)
    requires d1.anchors == d2.anchors
    ensures Extract(d1).rawDeals == Extract(d2).rawDeals
  {
  }
}
