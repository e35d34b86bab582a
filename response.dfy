/**
 * The HTTP reply of the scraper route: the success envelope around the
 * extraction result, or the failure envelope with status 500, both as JSON
 * objects with their keys in the order the route writes them.
 */
module Response {
  import opened Wrappers
  import opened Page
  import opened Deals
  import opened Extraction

  const Source: string := "fly4free"
  const TargetUrl: string := "https://www.fly4free.com/flights/flight-deals/europe/"
  const Instruction: string := "This raw content should be processed by an LLM to extract structured flight deal information including: title, price, destination, departure location, dates, and any other relevant details."
  const FailureMessage: string := "Failed to scrape Fly4Free"

  /** How the awaited part of the route ended: `Loaded` when every awaited
      step up to and including `browser.close()` returned, the callback
      having run on the document; `Threw` when any of them threw, including
      the closing of the page or browser after a successful extraction. The
      message is the thrown value's `message` when it is a string, and absent
      when it is `undefined`. */
  datatype Outcome = Loaded(doc: Document) | Threw(message: Option<string>)

  /** The envelope the route sends. */
  datatype Envelope =
    | Success(source: string, url: string, timestamp: string, totalDeals: nat,
              rawContent: ExtractionResult, instruction: string)
    | Failure(error: string, details: Option<string>, timestamp: string)

  /** The envelope for an outcome, stamped with the time the reply is built. */
  function Respond(outcome: Outcome, timestamp: string): (r: Envelope)
    ensures r.Success? <==> outcome.Loaded?
    ensures r.timestamp == timestamp
    ensures r.Success? ==> (r.source == Source && r.url == TargetUrl
              && r.instruction == Instruction
              && r.rawContent == Extract(outcome.doc)
              && r.totalDeals == |r.rawContent.rawDeals|)
    ensures r.Failure? ==> r.error == FailureMessage && r.details == outcome.message
  {
    match outcome
    case Loaded(doc) =>
      var content := Extract(doc);
      Success(Source, TargetUrl, timestamp, |content.rawDeals|, content, Instruction)
    case Threw(message) => Failure(FailureMessage, message, timestamp)
  }

  /** JSON values; an object keeps its members in order. */
  datatype Json =
    | JBool(b: bool)
    | JNum(n: int)
    | JStr(s: string)
    | JArr(items: seq<Json>)
    | JObj(members: seq<(string, Json)>)

  function DealToJson(d: RawDeal): Json {
    JObj([("id", JNum(d.id)), ("rawText", JStr(d.rawText)), ("url", JStr(d.url)),
          ("htmlContent", JStr(d.htmlContent))])
  }

  function DealsToJson(ds: seq<RawDeal>): seq<Json> {
    seq(|ds|, i requires 0 <= i < |ds| => DealToJson(ds[i]))
  }

  function ContentToJson(c: ExtractionResult): Json {
    JObj([("pageTitle", JStr(c.pageTitle)), ("metaDescription", JStr(c.metaDescription)),
          ("rawDeals", JArr(DealsToJson(c.rawDeals))), ("pageText", JStr(c.pageText))])
  }

  /** `JSON.stringify` of the envelope, before serialisation to text: an
      `undefined` details member is omitted. */
  function ToJson(r: Envelope): Json {
    match r
    case Success(source, url, timestamp, totalDeals, rawContent, instruction) =>
      JObj([("success", JBool(true)), ("source", JStr(source)), ("url", JStr(url)),
            ("timestamp", JStr(timestamp)), ("totalDeals", JNum(totalDeals)),
            ("rawContent", ContentToJson(rawContent)), ("instruction", JStr(instruction))])
    case Failure(error, details, timestamp) =>
      JObj([("success", JBool(false)), ("error", JStr(error))]
           + (if details.Some? then [("details", JStr(details.value))] else [])
           + [("timestamp", JStr(timestamp))])
  }

  /** The value of the first member named `key`. */
  function Lookup(members: seq<(string, Json)>, key: string): Option<Json> {
    LookupFrom(members, key, 0)
  }

  function LookupFrom(members: seq<(string, Json)>, key: string, i: nat): Option<Json>
    decreases |members| - i
  {
    if i >= |members| then None
    else if members[i].0 == key then Some(members[i].1)
    else LookupFrom(members, key, i + 1)
  }

  /** A member found at `i`, with no earlier member of that name, is the one
      lookup returns. */
  lemma {:induction false} LookupFromAt(members: seq<(string, Json)>, key: string, j: nat, i: nat)
    requires j <= i < |members| && members[i].0 == key
    requires forall k :: j <= k < i ==> members[k].0 != key
    ensures LookupFrom(members, key, j) == Some(members[i].1)
    decreases i - j
  {
    if j < i {
      LookupFromAt(members, key, j + 1, i);
    }
  }

  lemma LookupAt(members: seq<(string, Json)>, key: string, i: nat)
    requires i < |members| && members[i].0 == key
    requires forall k :: 0 <= k < i ==> members[k].0 != key
    ensures Lookup(members, key) == Some(members[i].1)
  {
    LookupFromAt(members, key, 0, i);
  }

  /** A name no member has is not found. */
  lemma {:induction false} LookupFromAbsent(members: seq<(string, Json)>, key: string, j: nat)
    requires forall k :: j <= k < |members| ==> members[k].0 != key
    ensures LookupFrom(members, key, j) == None
    decreases |members| - j
  {
    if j < |members| {
      LookupFromAbsent(members, key, j + 1);
    }
  }

  function Field(j: Json, key: string): Option<Json> {
    if j.JObj? then Lookup(j.members, key) else None
  }

  function StrField(j: Json, key: string): Option<string> {
    match Field(j, key)
    case Some(JStr(s)) => Some(s)
    case _ => None
  }

  function NatField(j: Json, key: string): Option<nat> {
    match Field(j, key)
    case Some(JNum(n)) => if n >= 0 then Some(n) else None
    case _ => None
  }

  function DealFromJson(j: Json): Option<RawDeal> {
    match (NatField(j, "id"), StrField(j, "rawText"), StrField(j, "url"), StrField(j, "htmlContent"))
    case (Some(id), Some(rawText), Some(url), Some(htmlContent)) =>
      Some(RawDeal(id, rawText, url, htmlContent))
    case _ => None
  }

  function DealsFromJson(items: seq<Json>): Option<seq<RawDeal>>
    decreases |items|
  {
    if items == [] then Some([])
    else
      match (DealFromJson(items[0]), DealsFromJson(items[1..]))
      case (Some(d), Some(ds)) => Some([d] + ds)
      case _ => None
  }

  function ContentFromJson(j: Json): Option<ExtractionResult> {
    match (StrField(j, "pageTitle"), StrField(j, "metaDescription"), Field(j, "rawDeals"),
           StrField(j, "pageText"))
    case (Some(title), Some(meta), Some(JArr(items)), Some(text)) =>
      (match DealsFromJson(items)
       case Some(deals) => Some(ExtractionResult(title, meta, deals, text))
       case None => None)
    case _ => None
  }

  /** Reads an envelope back from its JSON form. */
  function FromJson(j: Json): Option<Envelope> {
    match Field(j, "success")
    case Some(JBool(true)) =>
      (match (StrField(j, "source"), StrField(j, "url"), StrField(j, "timestamp"),
              NatField(j, "totalDeals"), Field(j, "rawContent"), StrField(j, "instruction"))
       case (Some(source), Some(url), Some(timestamp), Some(total), Some(c), Some(instruction)) =>
         (match ContentFromJson(c)
          case Some(content) => Some(Success(source, url, timestamp, total, content, instruction))
          case None => None)
       case _ => None)
    case Some(JBool(false)) =>
      (match (StrField(j, "error"), StrField(j, "timestamp"))
       case (Some(error), Some(timestamp)) =>
         Some(Failure(error, StrField(j, "details"), timestamp))
       case _ => None)
    case _ => None
  }

  /** Each deal reads back from its JSON object. */
  lemma DealRoundTrip(d: RawDeal)
    ensures DealFromJson(DealToJson(d)) == Some(d)
  {
    var m := DealToJson(d).members;
    LookupAt(m, "id", 0);
    LookupAt(m, "rawText", 1);
    LookupAt(m, "url", 2);
    LookupAt(m, "htmlContent", 3);
  }

  /** The deal list reads back from its JSON array. */
  lemma {:induction false} DealsRoundTrip(ds: seq<RawDeal>)
    ensures DealsFromJson(DealsToJson(ds)) == Some(ds)
    decreases |ds|
  {
    if ds != [] {
      var items := DealsToJson(ds);
      assert items[0] == DealToJson(ds[0]);
      assert items[1..] == DealsToJson(ds[1..]);
      DealRoundTrip(ds[0]);
      DealsRoundTrip(ds[1..]);
      assert ds == [ds[0]] + ds[1..];
    }
  }

  /** The extraction result reads back from its JSON object. */
  lemma ContentRoundTrip(c: ExtractionResult)
    ensures ContentFromJson(ContentToJson(c)) == Some(c)
  {
    var m := ContentToJson(c).members;
    LookupAt(m, "pageTitle", 0);
    LookupAt(m, "metaDescription", 1);
    LookupAt(m, "rawDeals", 2);
    LookupAt(m, "pageText", 3);
    DealsRoundTrip(c.rawDeals);
  }

  /** A success envelope reads back from its JSON form. */
  lemma SuccessRoundTrip(r: Envelope)
    requires r.Success?
    ensures FromJson(ToJson(r)) == Some(r)
  {
    var m := ToJson(r).members;
    LookupAt(m, "success", 0);
    LookupAt(m, "source", 1);
    LookupAt(m, "url", 2);
    LookupAt(m, "timestamp", 3);
    LookupAt(m, "totalDeals", 4);
    LookupAt(m, "rawContent", 5);
    LookupAt(m, "instruction", 6);
    ContentRoundTrip(r.rawContent);
  }

  /** A failure envelope reads back from its JSON form, with details absent
      exactly when the member was omitted. */
  lemma FailureRoundTrip(r: Envelope)
    requires r.Failure?
    ensures FromJson(ToJson(r)) == Some(r)
  {
    var m := ToJson(r).members;
    LookupAt(m, "success", 0);
    LookupAt(m, "error", 1);
    if r.details.Some? {
      LookupAt(m, "details", 2);
      LookupAt(m, "timestamp", 3);
    } else {
      LookupFromAbsent(m, "details", 0);
      LookupAt(m, "timestamp", 2);
    }
  }

  /** Every envelope reads back from its JSON form: the encoding loses
      nothing, including whether details were present. */
  lemma RoundTrip(r: Envelope)
    ensures FromJson(ToJson(r)) == Some(r)
  {
    if r.Success? {
      SuccessRoundTrip(r);
    } else {
      FailureRoundTrip(r);
    }
  }

  /** The HTTP reply: a status code and a JSON body. */
  datatype Reply = Reply(status: int, body: Json)

  /** The route's reply for an outcome: `res.json` with Express's default
      status 200 on success, `res.status(500).json` on failure. */
  function Handle(outcome: Outcome, timestamp: string): Reply {
    var r := Respond(outcome, timestamp);
    Reply(if r.Success? then 200 else 500, ToJson(r))
  }

  /** The reply's status is 200 exactly when the page was loaded, its
      `success` member agrees with the status, its `totalDeals` member is the
      length of its `rawDeals` array, and its body decodes to the envelope. */
  lemma HandleSpec(outcome: Outcome, timestamp: string)
    ensures var reply := Handle(outcome, timestamp);
      (reply.status == 200 <==> outcome.Loaded?)
      && (outcome.Threw? ==> reply.status == 500)
      && Field(reply.body, "success") == Some(JBool(reply.status == 200))
      && StrField(reply.body, "timestamp") == Some(timestamp)
      && FromJson(reply.body) == Some(Respond(outcome, timestamp))
  {
    RoundTrip(Respond(outcome, timestamp));
  }

  /** In the JSON of a success envelope built by `Respond`, the
      `totalDeals` member counts the elements of the `rawDeals` array of
      `rawContent`. */
  lemma TotalDealsCounts(r: Envelope)
    requires r.Success? && r.totalDeals == |r.rawContent.rawDeals|
    ensures exists c, items :: Field(ToJson(r), "rawContent") == Some(c)
              && Field(c, "rawDeals") == Some(JArr(items))
              && NatField(ToJson(r), "totalDeals") == Some(|items|)
  {
    var m := ToJson(r).members;
    var c := ContentToJson(r.rawContent);
    LookupAt(m, "totalDeals", 4);
    LookupAt(m, "rawContent", 5);
    LookupAt(c.members, "rawDeals", 2);
  }
}
