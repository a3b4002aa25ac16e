/**
  The list, save and error logic of the admin API client
  (src/admin/api-client.ts). The HTTP transport is a function parameter:
  `fetch` answers a list request and `send` answers a save request, each
  either with a transport failure or with the parsed JSON body.
 */
module AdminClient {
  import opened JsValues
  import DateCodec
  import opened Optional

  /** One data model of the admin API: its module name and its list URL. */
  datatype Endpoint = Endpoint(model: string, url: string)

  const Businesses: Endpoint := Endpoint("Business", "https://spaces.nexudus.com/api/sys/businesses")
  const Coworkers: Endpoint := Endpoint("Coworker", "https://spaces.nexudus.com/api/spaces/coworkers")
  const CheckIns: Endpoint := Endpoint("Checkin", "https://spaces.nexudus.com/api/spaces/checkins")
  const WebHooks: Endpoint := Endpoint("WebHook", "https://spaces.nexudus.com/api/sys/webhooks")

  /** Records asked for per page. */
  const PageSize: int := 1000

  /** What the transport answers: a rejection of the request, or the parsed body. */
  datatype Reply<T> = Failed(error: JsValue) | Received(body: T)

  // ---------------------------------------------------------------------
  // handleError

  /**
    handleError: always a rejection. An error with an own `Message`
    property becomes `{message: error.Message}`; any other error is passed
    on unchanged. `null`, `undefined` and an object whose own data shadows
    `hasOwnProperty` make the property test itself throw, and the thrown
    TypeError is what the caller rejects with.
   */
  function HandleError(error: JsValue): (r: Settled)
    ensures r.Rejected?
    ensures error.Obj? && "hasOwnProperty" !in error.props && "Message" in error.props
      ==> r == Rejected(Obj(map["message" := error.props["Message"]]))
    ensures HasOwnProperty(error, "Message") == Normal(Bool(false)) ==> r == Rejected(error)
    ensures error == Undefined || error == Null ==> r == Rejected(TypeError)
    ensures error.Obj? && "hasOwnProperty" in error.props ==> r == Rejected(TypeError)
  {
    match HasOwnProperty(error, "Message")
    case Throw(e) => Rejected(e)
    case Normal(has) =>
      if has == Bool(true) then Rejected(Obj(map["message" := Get(error, "Message").value]))
      else Rejected(error)
  }

  /** What handleError rejects with carries no `Message` of its own, so passing it through again changes nothing. */
  lemma HandleErrorIdempotent(error: JsValue)
    ensures HandleError(HandleError(error).reason) == HandleError(error)
  {
    var reason := HandleError(error).reason;
    assert HasOwnProperty(reason, "Message") == Normal(Bool(false)) by {
      if HasOwnProperty(error, "Message") == Normal(Bool(true)) {
        assert reason == Obj(map["message" := error.props["Message"]]);
      } else if HasOwnProperty(error, "Message").Throw? {
        assert reason == TypeError;
      } else {
        assert reason == error;
      }
    }
  }

  // ---------------------------------------------------------------------
  // getList

  /** The query-string parameter that filters a list by update time. */
  function FilterKey(model: string): (k: string)
    ensures |k| == |model| + 15
    ensures k[..5] == "from_" && k[|k| - 10..] == "_UpdatedOn"
    ensures k[5..|k| - 10] == model
  {
    "from_" + model + "_UpdatedOn"
  }

  /** A list request: the URL and the query string `size`, `page` and the update filter. */
  datatype ListRequest = ListRequest(url: string, size: int, page: int, filterKey: string, filterValue: string)

  /** The request for a given page of an endpoint, filtered by `formatDate(updatedAfter)`. */
  function PageRequest(e: Endpoint, filter: string, page: int): ListRequest {
    ListRequest(e.url, PageSize, page, FilterKey(e.model), filter)
  }

  /** The part of a list body getList reads: `Records` and `HasNextPage`. */
  datatype ListPage = ListPage(records: seq<JsValue>, hasNext: bool)

  /** A reply after which getList sends no further request. */
  predicate Stops(r: Reply<ListPage>) {
    r.Failed? || !r.body.hasNext
  }

  /** The records a reply contributes: a failure contributes none. */
  function RecordsOf(r: Reply<ListPage>): seq<JsValue> {
    if r.Received? then r.body.records else []
  }

  /** Reference definition: every record of the replies to `requests`, page after page. */
  function Collected(fetch: ListRequest -> Reply<ListPage>, requests: seq<ListRequest>): (c: seq<JsValue>)
    ensures |requests| == 0 ==> c == []
    ensures |requests| > 0 ==> |c| >= |RecordsOf(fetch(requests[|requests| - 1]))|
  {
    if |requests| == 0 then []
    else Collected(fetch, requests[..|requests| - 1]) + RecordsOf(fetch(requests[|requests| - 1]))
  }

  /**
    The paging loop of getList for a fixed filter value. It asks for page
    1, 2, ... in turn, appending the records of each page, and stops after
    the first page that reports no next page, resolving to all records
    collected, or at the first failure, rejecting through handleError and
    dropping what it had collected. The requests it sent are returned
    alongside the outcome.
   */
  method FetchPages(fetch: ListRequest -> Reply<ListPage>, e: Endpoint, filter: string)
    returns (result: Settled, sent: seq<ListRequest>)
    requires exists k :: k >= 1 && Stops(fetch(PageRequest(e, filter, k)))
    ensures |sent| >= 1
    ensures forall i :: 0 <= i < |sent| ==> sent[i] == PageRequest(e, filter, i + 1)
    ensures Stops(fetch(sent[|sent| - 1]))
    ensures forall i :: 0 <= i < |sent| - 1 ==> !Stops(fetch(sent[i]))
    ensures fetch(sent[|sent| - 1]).Failed? ==> result == HandleError(fetch(sent[|sent| - 1]).error)
    ensures fetch(sent[|sent| - 1]).Received? ==> result == Resolved(Arr(Collected(fetch, sent)))
  {
    ghost var k :| k >= 1 && Stops(fetch(PageRequest(e, filter, k)));
    var records: seq<JsValue> := [];
    var page := 1;
    sent := [];
    while true
      invariant 1 <= page <= k && |sent| == page - 1
      invariant forall i :: 0 <= i < |sent| ==> sent[i] == PageRequest(e, filter, i + 1)
      invariant forall i :: 0 <= i < |sent| ==> !Stops(fetch(sent[i]))
      invariant records == Collected(fetch, sent)
      decreases k - page
    {
      var request := PageRequest(e, filter, page);
      var reply := fetch(request);
      ghost var before := sent;
      sent := sent + [request];
      assert sent[..|sent| - 1] == before;
      if reply.Failed? {
        result := HandleError(reply.error);
        return;
      }
      records := records + reply.body.records;
      if !reply.body.hasNext {
        result := Resolved(Arr(records));
        return;
      }
      page := page + 1;
    }
  }

  /**
    getList with `Date.now()` supplied as `now`: the paging loop with the
    filter value `formatDate(updatedAfter)`, computed once. A transport
    that never stops paging would keep the source looping forever; here
    the transport is required to stop at some page.
   */
  method GetList(fetch: ListRequest -> Reply<ListPage>, e: Endpoint, updatedAfter: DateCodec.Timestamp, now: int)
    returns (result: Settled, sent: seq<ListRequest>)
    requires exists k :: k >= 1 && Stops(fetch(PageRequest(e, DateCodec.FormatDate(updatedAfter, now), k)))
    ensures |sent| >= 1
    ensures forall i :: 0 <= i < |sent| ==> sent[i] == PageRequest(e, DateCodec.FormatDate(updatedAfter, now), i + 1)
    ensures Stops(fetch(sent[|sent| - 1]))
    ensures forall i :: 0 <= i < |sent| - 1 ==> !Stops(fetch(sent[i]))
    ensures fetch(sent[|sent| - 1]).Failed? ==> result == HandleError(fetch(sent[|sent| - 1]).error)
    ensures fetch(sent[|sent| - 1]).Received? ==> result == Resolved(Arr(Collected(fetch, sent)))
  {
    result, sent := FetchPages(fetch, e, DateCodec.FormatDate(updatedAfter, now));
  }

  /** Collecting over two runs of requests is collecting over each in turn. */
  lemma {:induction false} CollectedAppend(fetch: ListRequest -> Reply<ListPage>, a: seq<ListRequest>, b: seq<ListRequest>)
    ensures Collected(fetch, a + b) == Collected(fetch, a) + Collected(fetch, b)
    decreases |b|
  {
    if |b| > 0 {
      var b' := b[..|b| - 1];
      assert (a + b)[..|a + b| - 1] == a + b';
      CollectedAppend(fetch, a, b');
    } else {
      assert a + b == a;
    }
  }

  /**
    No record is dropped or duplicated: the collected records are those of
    the pages before page i + 1, then exactly the records of page i + 1,
    then those of the pages after it.
   */
  lemma CollectedPages(fetch: ListRequest -> Reply<ListPage>, requests: seq<ListRequest>, i: nat)
    requires i < |requests|
    ensures Collected(fetch, requests)
      == Collected(fetch, requests[..i]) + RecordsOf(fetch(requests[i])) + Collected(fetch, requests[i + 1..])
  {
    var before, page, after := requests[..i], [requests[i]], requests[i + 1..];
    SplitAround(requests, i);
    CollectedAppend(fetch, before + page, after);
    CollectedAppend(fetch, before, page);
    CollectedSingle(fetch, requests[i]);
  }

  lemma SplitAround<T>(s: seq<T>, i: nat)
    requires i < |s|
    ensures s == (s[..i] + [s[i]]) + s[i + 1..]
  {
    assert s[..i + 1] == s[..i] + [s[i]];
    assert s == s[..i + 1] + s[i + 1..];
  }

  lemma CollectedSingle(fetch: ListRequest -> Reply<ListPage>, request: ListRequest)
    ensures Collected(fetch, [request]) == RecordsOf(fetch(request))
  {
    assert [request][..0] == [];
  }

  /** The records collected begin with those of the first page and end with those of the last. */
  lemma CollectedEnds(fetch: ListRequest -> Reply<ListPage>, requests: seq<ListRequest>)
    requires |requests| > 0
    ensures var c, first, last := Collected(fetch, requests), RecordsOf(fetch(requests[0])), RecordsOf(fetch(requests[|requests| - 1]));
      |c| >= |first| && |c| >= |last| && c[..|first|] == first && c[|c| - |last|..] == last
  {
    var c := Collected(fetch, requests);
    CollectedPages(fetch, requests, 0);
    assert requests[..0] == [];
    var first := RecordsOf(fetch(requests[0]));
    assert c == first + Collected(fetch, requests[1..]);
    assert c[..|first|] == first;
  }

  /** The number of records collected is the sum of the page sizes. */
  lemma {:induction false} CollectedLength(fetch: ListRequest -> Reply<ListPage>, requests: seq<ListRequest>)
    ensures |Collected(fetch, requests)| == RecordCount(fetch, requests)
    decreases |requests|
  {
    if |requests| > 0 {
      CollectedLength(fetch, requests[..|requests| - 1]);
    }
  }

  /** The total number of records in the replies to `requests`. */
  function RecordCount(fetch: ListRequest -> Reply<ListPage>, requests: seq<ListRequest>): nat {
    if |requests| == 0 then 0
    else RecordCount(fetch, requests[..|requests| - 1]) + |RecordsOf(fetch(requests[|requests| - 1]))|
  }

  // ---------------------------------------------------------------------
  // save

  datatype Verb = Put | Post

  /** A save request: the verb, the endpoint URL and the data as the body. */
  datatype SaveRequest = SaveRequest(verb: Verb, url: string, body: JsValue)

  /**
    The request save sends: PUT when `data.Id` is truthy, POST otherwise.
    Reading `Id` of `null` or `undefined` throws before anything is sent.
   */
  function SaveRequestFor(data: JsValue, e: Endpoint): (c: Option<SaveRequest>)
    ensures c.None? <==> data == Undefined || data == Null
    ensures c.Some? ==> c.value.url == e.url && c.value.body == data
    ensures c.Some? ==> (c.value.verb == Put <==> Truthy(Get(data, "Id").value))
  {
    match Get(data, "Id")
    case Throw(_) => None
    case Normal(id) => Some(SaveRequest(if Truthy(id) then Put else Post, e.url, data))
  }

  /** How save reads the body of a reply: `WasSuccessful`, then `Value.Id`. */
  function SaveOutcome(body: JsValue): (r: Settled)
    ensures Get(body, "WasSuccessful").Normal? && !Truthy(Get(body, "WasSuccessful").value)
      ==> r == HandleError(body)
    ensures body.Obj? && "WasSuccessful" in body.props && Truthy(body.props["WasSuccessful"])
      && "Value" in body.props && body.props["Value"].Obj? && "Id" in body.props["Value"].props
      ==> r == Resolved(body.props["Value"].props["Id"])
    ensures r.Resolved? ==> Get(body, "WasSuccessful").Normal? && Truthy(Get(body, "WasSuccessful").value)
    ensures body == Undefined || body == Null ==> r == Rejected(TypeError)
    ensures var ok := Get(body, "WasSuccessful"); ok.Normal? && Truthy(ok.value) ==>
      var value := Get(body, "Value").value;
      && (value == Undefined || value == Null ==> r == Rejected(TypeError))
      && (value.Obj? && "Id" !in value.props ==> r == Resolved(Undefined))
      && (!value.Obj? && value != Undefined && value != Null ==> r == Resolved(Undefined))
  {
    match Get(body, "WasSuccessful")
    case Throw(error) => HandleError(error)
    case Normal(ok) =>
      if !Truthy(ok) then HandleError(body)
      else
        match Get(body, "Value")
        case Throw(error) => HandleError(error)
        case Normal(value) =>
          match Get(value, "Id")
          case Throw(error) => HandleError(error)
          case Normal(id) => Resolved(id)
  }

  /**
    save: send the data with the verb chosen from its `Id` and resolve to
    the `Value.Id` of a successful reply. A failed reply, an unsuccessful
    body and a transport failure all reject through handleError; data that
    is `null` or `undefined` rejects with the TypeError of reading its `Id`.
   */
  function Save(data: JsValue, e: Endpoint, send: SaveRequest -> Reply<JsValue>): (r: Settled)
    ensures data == Undefined || data == Null ==> r == Rejected(TypeError)
    ensures SaveRequestFor(data, e).Some? && send(SaveRequestFor(data, e).value).Failed?
      ==> r == HandleError(send(SaveRequestFor(data, e).value).error)
    ensures SaveRequestFor(data, e).Some? && send(SaveRequestFor(data, e).value).Received?
      ==> r == SaveOutcome(send(SaveRequestFor(data, e).value).body)
    ensures r.Resolved? ==> SaveRequestFor(data, e).Some? && send(SaveRequestFor(data, e).value).Received?
  {
    match SaveRequestFor(data, e)
    case None => Rejected(TypeError)
    case Some(request) =>
      match send(request)
      case Failed(error) => HandleError(error)
      case Received(body) => SaveOutcome(body)
  }

  /** An `Id` of 0, "", null, NaN or no `Id` at all creates with POST; any truthy `Id` updates with PUT. */
  lemma SaveVerbChoice(props: map<string, JsValue>, e: Endpoint)
    ensures var request := SaveRequestFor(Obj(props), e);
      request.Some? && (request.value.verb == Post <==> "Id" !in props || !Truthy(props["Id"]))
  {
  }

  /** Every rejection of save is already in the shape handleError produces. */
  lemma SaveRejectionNormalised(data: JsValue, e: Endpoint, send: SaveRequest -> Reply<JsValue>)
    requires Save(data, e, send).Rejected?
    ensures HandleError(Save(data, e, send).reason) == Save(data, e, send)
  {
    var r := Save(data, e, send);
    match SaveRequestFor(data, e)
    case None =>
      assert r == HandleError(TypeError);
    case Some(request) =>
      match send(request)
      case Failed(error) =>
        HandleErrorIdempotent(error);
      case Received(body) =>
        SaveOutcomeRejection(body);
  }

  lemma SaveOutcomeRejection(body: JsValue)
    requires SaveOutcome(body).Rejected?
    ensures HandleError(SaveOutcome(body).reason) == SaveOutcome(body)
  {
    match Get(body, "WasSuccessful")
    case Throw(error) => HandleErrorIdempotent(error);
    case Normal(ok) =>
      if !Truthy(ok) {
        HandleErrorIdempotent(body);
      } else {
        match Get(body, "Value")
        case Throw(error) => HandleErrorIdempotent(error);
        case Normal(value) =>
          match Get(value, "Id")
          case Throw(error) => HandleErrorIdempotent(error);
          case Normal(id) =>
      }
  }
}
