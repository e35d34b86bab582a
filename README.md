# Fly4Free raw-content extraction, modelled in Dafny

The scraper route of this repository opens the Fly4Free European flight-deals
listing in a real browser. It runs one callback inside the loaded page and
replies with a JSON envelope that a language model is meant to post-process.
This project models that callback and the envelope as pure functions over an
explicit page value, and proves what they promise:

- **Content root.** The first of `main`, `#main` and `.main-content` that the
  page has, else `document.body` (`page.dfy`).
- **Deal-link filter.** All anchors of the document are kept, in document
  order, when three things hold:
  - their trimmed text is longer than 20 UTF-16 code units;
  - their resolved `href` contains `fly4free.com`;
  - they carry at least one deal signal: `€`, `$` or `£` in the text;
    `flight`, `deal` or `from` in the lower-cased text; or `/deal/` or
    `/flight/` in the URL.

  URLs are not de-duplicated (`deal_filter.dfy`, `seqs.dfy`).
- **Deal records.** Id `index + 1`, the trimmed text, the URL, and the inner
  markup with every `<...>` tag replaced by a space, whitespace runs collapsed
  and the result trimmed (`deals.dfy`, `markup.dfy`).
- **Page text.** The root's text with whitespace runs collapsed to one space
  and trimmed, with no length bound (`whitespace.dfy`, `extraction.dfy`).
- **Envelopes.**
  - On success: `success`, `source`, `url`, `timestamp`, `totalDeals`,
    `rawContent` and `instruction`, with status 200.
  - On any thrown error: `success: false`, the fixed error text, the error's
    message as `details`, and the timestamp, with status 500.
  - Both are modelled as JSON values with a decoder, and the decoder is proved
    to invert the encoder (`response.dfy`).

JavaScript string semantics are modelled explicitly (`js_string.dfy`):

- `\s` and `trim` use the ECMAScript WhiteSpace and LineTerminator set, checked
  by code point.
- `length` counts UTF-16 code units.
- `includes` is substring search.
- `toLowerCase` is modelled as ASCII case folding. The keywords it is compared
  against are lower-case ASCII. Outside ASCII, only U+212A KELVIN SIGN (to `k`)
  and U+0130 (to `i` followed by U+0307) lower-case to an ASCII letter, and
  neither letter occurs in `flight`, `deal` or `from` in a way that could
  create a match. So the folding decides every keyword test as the full Unicode
  mapping would. This argument is not itself proved.

What the code does not do, and the model therefore does not do either:

- It does not de-duplicate deal URLs. `Deals.SameUrlKept` proves that two
  passing links to the same URL both become deals.
- The page text has no length bound; the comment on line 95 says so.
- It removes no noise elements (scripts, forms) before extraction.
- It strips no boilerplate phrases from the page text.
- The root chain has only `main`, `#main` and `.main-content` before `body`.
- It collects anchors from the whole document, not from the root.
  `Extraction.DealsIgnoreRoot` states this.
- It closes the browser only on the success path.

## Model

| member | source | states |
|---|---|---|
| `JsString.Utf16Length` | scrapers/fly4free.js:68 | `text.length`: at least the number of code points and at most twice it, and equal to it exactly when every code point is in the Basic Multilingual Plane; its value is fixed by `Utf16LengthChar` and `Utf16LengthAppend` |
| `JsString.Utf16LengthChar` | scrapers/fly4free.js:68 | one code point is one code unit, or two above U+FFFF |
| `JsString.Utf16LengthAppend` | scrapers/fly4free.js:68 | the length of a concatenation is the sum of the lengths |
| `JsString.Contains` | scrapers/fly4free.js:69-74 | `includes`: true exactly when the needle occurs at some index of the string |
| `JsString.LowerContains` | scrapers/fly4free.js:71-73 | the lower-cased text contains a lower-case ASCII keyword exactly when the keyword matches the original text, ignoring ASCII case, at some index |
| `JsString.ToLower` | scrapers/fly4free.js:71-73 | `toLowerCase`, as ASCII folding; specified by `LowerContains` |
| `JsString.Trim` | scrapers/fly4free.js:65 | `trim`; specified by `TrimSpec`, `TrimIdempotent` and `TrimEmpty` |
| `JsString.TrimStart` | scrapers/fly4free.js:65 | the result is a suffix of the input, everything dropped is whitespace, and it does not start with whitespace |
| `JsString.TrimEnd` | scrapers/fly4free.js:65 | the result is a prefix of the input, everything dropped is whitespace, and it does not end with whitespace |
| `JsString.TrimSpec` | scrapers/fly4free.js:81 | `trim` returns the middle slice of the input between a whitespace-only prefix and a whitespace-only suffix, with no whitespace at either end |
| `JsString.TrimIdempotent` | scrapers/fly4free.js:65 | trimming twice is trimming once |
| `JsString.TrimEmpty` | scrapers/fly4free.js:65 | the trimmed text is empty exactly when the text is all whitespace |
| `Whitespace.Normalize` | scrapers/fly4free.js:83 | `replace(/\s+/g, ' ').trim()`, used on the markup here and on the page text at line 95; specified by `NormalizeIsJoinedWords`, `NormalizeNormalForm`, `NormalizeFixpoint`, `NormalizeIdempotent`, `NormalizeKeepsWords` and `NormalizeEmpty` |
| `Whitespace.CollapseWs` | scrapers/fly4free.js:95 | `replace(/\s+/g, ' ')`: empty exactly when the input is, and starts with whitespace exactly when the input does |
| `Whitespace.TakeWord` | scrapers/fly4free.js:95 | the longest prefix free of whitespace: a prefix, whitespace-free, and followed by whitespace or the end |
| `Whitespace.Words` | scrapers/fly4free.js:95 | every element of the word list is a non-empty whitespace-free run |
| `Whitespace.NormalizeIsJoinedWords` | scrapers/fly4free.js:95 | collapsing whitespace and trimming yields the text's words joined by single spaces |
| `Whitespace.NormalizeNormalForm` | scrapers/fly4free.js:95 | the result has no edge whitespace, no whitespace other than plain spaces, and no two adjacent whitespace characters |
| `Whitespace.NormalizeFixpoint` | scrapers/fly4free.js:95 | a text already in that normal form is left unchanged |
| `Whitespace.NormalizeIdempotent` | scrapers/fly4free.js:95 | normalising twice is normalising once |
| `Whitespace.WordsOfJoin` | scrapers/fly4free.js:95 | splitting words joined by spaces gives back the same words |
| `Whitespace.NormalizeKeepsWords` | scrapers/fly4free.js:95 | normalising keeps exactly the words of the text, in order |
| `Whitespace.NormalizeEmpty` | scrapers/fly4free.js:95 | the normalised text is empty exactly when the text is all whitespace |
| `Markup.IndexOf` | scrapers/fly4free.js:83 | the position of the first occurrence of a character |
| `Markup.StripTags` | scrapers/fly4free.js:83 | `replace(/<[^>]*>/g, ' ')`; specified by `StripTagsPlainPrefix`, `StripTagsTag`, `StripTagsNoTag`, `StripTagsFixpoint` and `StripTagsIdempotent` |
| `Markup.StripTagsPlainPrefix` | scrapers/fly4free.js:83 | text holding no `<` survives unchanged in front of whatever the rest strips to |
| `Markup.StripTagsTag` | scrapers/fly4free.js:83 | a `<`, a run holding no `>`, and a `>` become one space in front of whatever the rest strips to |
| `Markup.StripTagsNoTag` | scrapers/fly4free.js:83 | `replace(/<[^>]*>/g, ' ')` leaves no `<` followed later by a `>` |
| `Markup.StripTagsFixpoint` | scrapers/fly4free.js:83 | markup with no complete tag is left unchanged |
| `Markup.StripTagsIdempotent` | scrapers/fly4free.js:83 | stripping tags twice is stripping once |
| `Markup.CollapseKeepsChars` | scrapers/fly4free.js:83 | collapsing whitespace keeps every non-whitespace character and adds none |
| `Markup.NormalizeNoTag` | scrapers/fly4free.js:83 | collapsing and trimming create no complete tag |
| `Page.FirstPresent` | scrapers/fly4free.js:61 | the `||` chain over lookups: the first element found, else the fallback |
| `Page.SelectRoot` | scrapers/fly4free.js:61 | the content root; specified by `SelectRootSpec` |
| `Page.MetaDescription` | scrapers/fly4free.js:89 | the meta description's content or `''`; specified by `Extraction.ExtractHeader` |
| `Page.SelectRootSpec` | scrapers/fly4free.js:61 | the root is `main` if present, else `#main`, else `.main-content`, else the body |
| `Seqs.Filter` | scrapers/fly4free.js:64 | `filter`: no longer than the input, and holds exactly the input's elements that pass |
| `Seqs.FilterAppend` | scrapers/fly4free.js:64 | filtering distributes over concatenation |
| `Seqs.FilterMultiplicity` | scrapers/fly4free.js:64 | a passing element is kept as often as it occurs, a failing one never |
| `Seqs.FilterAllPass` | scrapers/fly4free.js:64 | when every element passes, filtering changes nothing |
| `Seqs.FilterSubsequence` | scrapers/fly4free.js:64 | the filtered list is the input at strictly increasing positions, and a position is listed exactly when its element passes |
| `DealFilter.HasSignal` | scrapers/fly4free.js:70-74 | the deal signals; specified through `IsDealLink` by `Deals.DealInvariants` and `Deals.EuroLinkPasses` |
| `DealFilter.IsDealLink` | scrapers/fly4free.js:64-75 | the filter callback; specified by `ShortTextExcluded`, `FewCharsExcluded`, `HomeLinkExcluded`, `Deals.EuroLinkPasses` and `Deals.DealInvariants` |
| `DealFilter.DealLinks` | scrapers/fly4free.js:64-75 | the kept anchors; specified by `DealLinksMembership`, `DealLinksAppend`, `DealLinksMultiplicity` and `DealLinksSubsequence` |
| `DealFilter.DealLinksMembership` | scrapers/fly4free.js:64-75 | a link is kept exactly when it is an anchor of the document and passes the filter |
| `DealFilter.DealLinksAppend` | scrapers/fly4free.js:64-75 | the links of a page are those of its first part followed by those of the rest |
| `DealFilter.DealLinksMultiplicity` | scrapers/fly4free.js:64-75 | no de-duplication: a passing anchor is kept as often as it occurs |
| `DealFilter.DealLinksSubsequence` | scrapers/fly4free.js:64-75 | the kept links are the anchors at the strictly increasing positions that pass the filter, and only those |
| `DealFilter.ShortTextExcluded` | scrapers/fly4free.js:68 | a link whose trimmed text is at most 20 code units is never kept |
| `DealFilter.FewCharsExcluded` | scrapers/fly4free.js:68 | a link whose raw text has at most ten code points is never kept, since trimming only shortens and a code point is at most two code units |
| `DealFilter.HomeLinkExcluded` | scrapers/fly4free.js:68 | every anchor whose text is "Home" is dropped, whatever its URL and markup |
| `Deals.HtmlContent` | scrapers/fly4free.js:83 | the cleaned markup; specified by `HtmlContentClean` and `HtmlContentIdempotent` |
| `Seqs.MapIndexed` | scrapers/fly4free.js:78-85 | `map` with the index: as long as the input, and element i is the callback on element i and index i |
| `Deals.ToDeal` | scrapers/fly4free.js:79-84 | one record; specified through `RawDeals` by `DealsFromAnchors` and `DealInvariants` |
| `Deals.RawDeals` | scrapers/fly4free.js:78-85 | the record list; specified by `DealsFromAnchors`, `DealInvariants` and `SingleDeal` |
| `Deals.HtmlContentClean` | scrapers/fly4free.js:83 | the cleaned markup is in whitespace normal form, holds no complete tag, and keeps the words of the tag-stripped markup |
| `Deals.HtmlContentIdempotent` | scrapers/fly4free.js:83 | cleaning cleaned markup changes nothing |
| `Deals.DealsFromAnchors` | scrapers/fly4free.js:78-85 | the k-th deal has id k + 1 and the trimmed text, URL and cleaned markup of the anchor at the k-th passing position |
| `Deals.DealInvariants` | scrapers/fly4free.js:64-85 | every deal has a trimmed text longer than 20 code units with no edge whitespace, a URL containing `fly4free.com`, a deal signal, and clean markup |
| `Deals.SameUrlKept` | scrapers/fly4free.js:64-85 | two passing links to the same URL both become deals, with ids 1 and 2 |
| `Deals.EuroLinkPasses` | scrapers/fly4free.js:68-70 | a link with long enough text, a URL containing `fly4free.com` and a euro sign in its text passes the filter |
| `Deals.SingleDeal` | scrapers/fly4free.js:78-85 | a page whose only anchor passes yields exactly one deal, with id 1 |
| `Deals.ParisDealKept` | scrapers/fly4free.js:64-85 | a page whose only anchor is "Paris from €49 - amazing deal!" linking to a `/deal/` URL containing `fly4free.com` yields exactly one deal: id 1, that text, that URL, and the cleaned markup |
| `Extraction.Extract` | scrapers/fly4free.js:59-97 | the callback's result; specified by `ExtractHeader`, `ExtractDeals`, `PageTextSpec`, `PageTextStable` and `DealsIgnoreRoot` |
| `Extraction.ExtractHeader` | scrapers/fly4free.js:88-89 | the page title is the document's, and the meta description is the tag's content or the empty string when there is no tag |
| `Extraction.PageTextSpec` | scrapers/fly4free.js:95 | the page text is the root's words joined by single spaces, in normal form, and empty exactly when the root's text is all whitespace |
| `Extraction.PageTextStable` | scrapers/fly4free.js:95 | normalising the page text again changes nothing |
| `Extraction.ExtractDeals` | scrapers/fly4free.js:78-85 | one deal per kept anchor, numbered from 1 in document order, each built from its anchor |
| `Extraction.DealsIgnoreRoot` | scrapers/fly4free.js:64 | the deals do not depend on the content root |
| `Response.Respond` | scrapers/fly4free.js:106-123 | success exactly when every awaited step, closing the page and browser included, returned, with the fixed source, URL and instruction, the extraction result, and `totalDeals` equal to the number of deals; otherwise the fixed error text and the error's message; the timestamp in both |
| `Response.DealRoundTrip` | scrapers/fly4free.js:79-84 | a deal reads back from its JSON object |
| `Response.DealsRoundTrip` | scrapers/fly4free.js:78-85 | the deal list reads back from its JSON array |
| `Response.ContentRoundTrip` | scrapers/fly4free.js:91-96 | the extraction result reads back from its JSON object |
| `Response.SuccessRoundTrip` | scrapers/fly4free.js:106-114 | the success envelope reads back from its JSON object |
| `Response.FailureRoundTrip` | scrapers/fly4free.js:118-123 | the failure envelope reads back from its JSON object, with details absent exactly when the member is omitted |
| `Response.ToJson` | scrapers/fly4free.js:106-123 | the envelope as a JSON object; specified by `RoundTrip` and `TotalDealsCounts` |
| `Response.Handle` | scrapers/fly4free.js:106-123 | the reply; specified by `HandleSpec` |
| `Response.RoundTrip` | scrapers/fly4free.js:106-123 | every envelope reads back from its JSON form |
| `Response.HandleSpec` | scrapers/fly4free.js:106-123 | status 200 exactly when every awaited step up to `browser.close()` returned, and 500 when any threw; the `success` member agrees with the status, the timestamp is the one given, and the body decodes to the envelope |
| `Response.TotalDealsCounts` | scrapers/fly4free.js:111-112 | in the success JSON, `totalDeals` is the length of the `rawDeals` array inside `rawContent` |

## Left out

- Browser launch, user agent and viewport, navigation with its 30-second timeout and network-idle wait, the 3-second settle delay, and closing the page and browser: these are I/O. Their combined effect is the `Outcome` parameter: a loaded document when every awaited step up to and including `browser.close()` returned, or a thrown error when any of them threw, including the closing after a successful extraction.
- That the browser is closed only on the success path: a resource leak on failure has no counterpart in a pure model.
- The Express router and `app.js`: routing, and how `res.json` serialises the JSON value to text.
- Console logging.
- `new Date().toISOString()`: the timestamp is a parameter, passed unchanged to the envelope.
- The DOM itself: `querySelector`, `querySelectorAll('a')`, `textContent`, `innerHTML` and URL resolution of `href` are given as data in `Page.Document`.
- `document.body` is taken to exist, since an HTML parser always creates one. `document.title` is taken to be a string, which makes its `|| ''` the identity.
- A thrown value whose `message` is `undefined` (an object without one, or a thrown string or number) is modelled as absent details, and the JSON omits the member as `JSON.stringify` does for `undefined`.
- A thrown object whose `message` is neither a string nor `undefined` (a number, an object): details are a string or absent in the model.
- A thrown `null` or `undefined`: reading `err.message` at line 121 then throws inside the `catch`, and no envelope is sent. The model has no such outcome.
- Full Unicode `toLowerCase`: modelled as ASCII folding, for the reason given above.
- `Whitespace.CollapseWs`: its contract gives only the emptiness and first-character facts. What the collapse means is stated through `Normalize` in `Whitespace.NormalizeIsJoinedWords` and `Whitespace.NormalizeNormalForm`, because the source uses it only in that combination.
