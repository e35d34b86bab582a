/**
 * The loaded page as the extraction callback sees it, as plain data, and the
 * choice of the content root: `main`, then `#main`, then `.main-content`,
 * then `document.body`.
 */
module Page {
  import opened Wrappers

  /** An element, seen only through its `textContent`. */
  datatype Element = Element(textContent: string)

  /** An anchor: its `textContent`, its `href` as the browser resolved it, and
      its `innerHTML`. */
  datatype Anchor = Anchor(textContent: string, href: string, innerHTML: string)

  /** What the callback reads from `document`. Each `Option` is the result of
      a `querySelector`: the first matching element, or nothing. */
  datatype Document = Document(
    title: string,                     // document.title
    main: Option<Element>,             // querySelector('main')
    mainById: Option<Element>,         // querySelector('#main')
    mainContentClass: Option<Element>, // querySelector('.main-content')
    body: Element,                     // document.body
    anchors: seq<Anchor>,              // querySelectorAll('a'), in document order
    metaDescription: Option<string>    // querySelector('meta[name="description"]')?.content
  )

  /** The root candidates in the order the `||` chain tries them. */
  function RootCandidates(doc: Document): seq<Option<Element>> {
    [doc.main, doc.mainById, doc.mainContentClass]
  }

  /** `c0 || c1 || ... || fallback` over lookups that are either an element
      or nothing: the first element found, else the fallback. */
  function FirstPresent(candidates: seq<Option<Element>>, fallback: Element): (r: Element)
    ensures (forall k :: 0 <= k < |candidates| ==> candidates[k].None?) ==> r == fallback
    ensures forall k :: (0 <= k < |candidates| && candidates[k].Some?
              && forall j :: 0 <= j < k ==> candidates[j].None?) ==> r == candidates[k].value
  {
    if candidates == [] then fallback
    else if candidates[0].Some? then candidates[0].value
    else FirstPresent(candidates[1..], fallback)
  }

  /** The content root: its text becomes the page text. */
  function SelectRoot(doc: Document): Element {
    FirstPresent(RootCandidates(doc), doc.body)
  }

  /** The root is the first present candidate, and the body when none is. */
  lemma SelectRootSpec(doc: Document)
    ensures doc.main.Some? ==> SelectRoot(doc) == doc.main.value
    ensures doc.main.None? && doc.mainById.Some? ==> SelectRoot(doc) == doc.mainById.value
    ensures (doc.main.None? && doc.mainById.None? && doc.mainContentClass.Some?)
      ==> SelectRoot(doc) == doc.mainContentClass.value
    ensures (doc.main.None? && doc.mainById.None? && doc.mainContentClass.None?)
      ==> SelectRoot(doc) == doc.body
  {
    var cs := RootCandidates(doc);
    assert cs[0] == doc.main && cs[1] == doc.mainById && cs[2] == doc.mainContentClass;
  }

  /** `document.querySelector('meta[name="description"]')?.content || ''`. */
  function MetaDescription(doc: Document): string {
    match doc.metaDescription
    case Some(content) => content
    case None => ""
  }
}
