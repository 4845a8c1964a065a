/** The front end's ETag cache around its REST client. The last listing is kept in
    one slot together with the ETag it was served with; the next listing request
    sends that ETag as `If-None-Match`, a `304 Not Modified` answer is served from
    the slot, any other answer that `retrieve()` accepts replaces the slot, and a
    failed request leaves it as it was. The HTTP exchange itself is
    not modelled: the server's answer is a parameter, and a ghost log records the
    requests the client sent. */
module EmployeesFrontend {
  import opened Wrappers
  import opened EtaggedValues

  /** The front end's employee as it travels in JSON. */
  datatype Employee = Employee(id: int, name: string)

  /** What the client keeps in the "employees-etag" cache under "employees". */
  type CachedListing = EtaggedValue<seq<Employee>>

  /** A request to `/api/employees`: a GET with or without `If-None-Match`, or a
      POST with the employee to create. */
  datatype Request = Get(ifNoneMatch: Option<string>) | Post(body: Employee)

  /** The answer to the GET: `304`, any other status the client accepts (with the
      response's `ETag` header, possibly absent, and its body), or an exception
      out of `retrieve()` (an error status or a network failure). */
  datatype GetResponse =
    | NotModified
    | Modified(etag: Option<string>, body: seq<Employee>)
    | GetFailed(cause: string)

  /** The answer to the POST: the created employee, or an exception out of
      `retrieve()`. */
  datatype PostResponse = Created(body: Employee) | PostFailed(cause: string)

  /** What `listEmployees` and `createEmployee` can throw: the
      `NullPointerException` of a `304` met with an empty slot, or the transport's
      own exception, passed on unchanged. */
  datatype ClientError = NullValue | TransportError(cause: string)

  /** `"%s".formatted(etag)`: the etag itself, or the text "null" for a `null` one. */
  function FormatEtag(etag: Option<string>): (s: string)
    ensures etag.Some? ==> s == etag.value
    ensures etag.None? ==> s == "null"
  {
    match etag
    case Some(e) => e
    case None => "null"
  }

  /** The GET `listEmployees` sends for a given slot: no conditional header when
      the slot is empty, otherwise `If-None-Match` carrying the cached etag. */
  function ConditionalGet(cached: Option<CachedListing>): (req: Request)
    ensures req.Get?
    ensures req.ifNoneMatch.None? <==> cached.None?
    ensures cached.Some? && cached.value.etag.Some? ==> req.ifNoneMatch == cached.value.etag
    ensures cached.Some? && cached.value.etag.None? ==> req.ifNoneMatch == Some("null")
  {
    if cached.Some? then Get(Some(FormatEtag(cached.value.etag))) else Get(None)
  }

  /** The slot after a GET and the value `listEmployees` returns or throws. */
  datatype Fetched = Fetched(slot: Option<CachedListing>, result: Result<seq<Employee>, ClientError>)

  /** How `listEmployees` handles the answer to its GET, given the slot it started
      from. The slot is either kept as it was or replaced, in one step, by the
      pair of the answer's etag and body; a `304` is served from the slot, and
      fails when there is nothing to serve. */
  function Receive(cached: Option<CachedListing>, response: GetResponse): (f: Fetched)
    ensures !response.Modified? ==> f.slot == cached
    ensures f.result.Ok? <==> response.Modified? || (response.NotModified? && cached.Some?)
    ensures response.NotModified? && cached.Some? ==> f.result.value == cached.value.value
    ensures response.Modified? ==>
              f.result == Ok(response.body) && f.slot == Some(EtaggedValue(response.etag, response.body))
    ensures response.NotModified? && cached.None? ==> f.result == Err(NullValue)
    ensures response.GetFailed? ==> f.result == Err(TransportError(response.cause))
  {
    match response
    case NotModified =>
      if cached.Some? then Fetched(cached, Ok(cached.value.value)) else Fetched(cached, Err(NullValue))
    case Modified(etag, body) =>
      Fetched(Some(EtaggedValue(etag, body)), Ok(body))
    case GetFailed(cause) =>
      Fetched(cached, Err(TransportError(cause)))
  }

  /** After a listing answered with (e, b), the next listing sends `If-None-Match: e`
      and, on a `304`, returns exactly b and keeps the slot. */
  lemma RevalidationRoundTrip(cached: Option<CachedListing>, e: string, b: seq<Employee>)
    ensures ConditionalGet(Receive(cached, Modified(Some(e), b)).slot) == Get(Some(e))
    ensures Receive(Receive(cached, Modified(Some(e), b)).slot, NotModified) ==
              Receive(cached, Modified(Some(e), b))
  {
  }

  // ---------------------------------------------------------------------------
  // Over a run of listings

  /** The slot after a run of listings answered by `responses`, in order. */
  function SlotAfter(cached: Option<CachedListing>, responses: seq<GetResponse>): (slot: Option<CachedListing>)
  {
    if responses == [] then cached
    else Receive(SlotAfter(cached, responses[..|responses| - 1]), responses[|responses| - 1]).slot
  }

  /** The (etag, body) pair of the last answer in `responses` that was not a `304`
      or a failure, if there is one. */
  function LastModified(responses: seq<GetResponse>): (p: Option<CachedListing>)
    ensures p.Some? ==>
              exists i :: 0 <= i < |responses| && responses[i] == Modified(p.value.etag, p.value.value) &&
                (forall j :: i < j < |responses| ==> !responses[j].Modified?)
    ensures p.None? <==> forall i :: 0 <= i < |responses| ==> !responses[i].Modified?
  {
    if responses == [] then None
    else match responses[|responses| - 1]
      case Modified(etag, body) => Some(EtaggedValue(etag, body))
      case _ => LastModified(responses[..|responses| - 1])
  }

  /** Whatever happens over a run of listings, the slot holds the pair of the last
      answer that carried a body, never an etag of one answer with the body of
      another; with no such answer it is as it started. */
  lemma {:induction false} SlotHoldsLastModifiedPair(cached: Option<CachedListing>, responses: seq<GetResponse>)
    ensures SlotAfter(cached, responses) == if LastModified(responses).Some? then LastModified(responses) else cached
  {
    if responses != [] {
      SlotHoldsLastModifiedPair(cached, responses[..|responses| - 1]);
    }
  }

  /** A listing answered `304` after a run returns the body of the last answer that
      carried one, or the payload the slot started with. */
  lemma {:induction false} NotModifiedServesLastBody(cached: Option<CachedListing>, responses: seq<GetResponse>)
    requires LastModified(responses).Some? || cached.Some?
    ensures Receive(SlotAfter(cached, responses), NotModified).result ==
              Ok(if LastModified(responses).Some? then LastModified(responses).value.value else cached.value.value)
  {
    SlotHoldsLastModifiedPair(cached, responses);
  }

  // ---------------------------------------------------------------------------
  // The client

  class CacheableRestClientEmployeesClient {
    /** The "employees" entry of the "employees-etag" cache. */
    var slot: Option<CachedListing>
    /** Every request sent so far, oldest first. */
    ghost var sent: seq<Request>

    constructor()
      ensures slot == None && sent == []
    {
      slot := None;
      sent := [];
    }

    /** `listEmployees()`, where `response` is the server's answer to the GET it
        sends. */
    method ListEmployees(response: GetResponse) returns (r: Result<seq<Employee>, ClientError>)
      modifies this
      ensures sent == old(sent) + [ConditionalGet(old(slot))]
      ensures slot == Receive(old(slot), response).slot
      ensures r == Receive(old(slot), response).result
    {
      var value := slot;
      var ifNoneMatch: Option<string> := None;
      if value.Some? {
        ifNoneMatch := Some(FormatEtag(value.value.etag));
      }
      sent := sent + [Get(ifNoneMatch)];
      match response
      case GetFailed(cause) =>
        r := Err(TransportError(cause));
      case NotModified =>
        if value.None? {
          r := Err(NullValue);
        } else {
          r := Ok(value.value.value);
        }
      case Modified(etag, body) =>
        slot := Some(EtaggedValue(etag, body));
        r := Ok(body);
    }

    /** `createEmployee(employee)`: a plain POST whose answer is passed back; the
        slot is neither read nor written. */
    method CreateEmployee(employee: Employee, response: PostResponse) returns (r: Result<Employee, ClientError>)
      modifies this`sent
      ensures sent == old(sent) + [Post(employee)]
      ensures response.Created? ==> r == Ok(response.body)
      ensures response.PostFailed? ==> r == Err(TransportError(response.cause))
    {
      sent := sent + [Post(employee)];
      match response
      case Created(body) => r := Ok(body);
      case PostFailed(cause) => r := Err(TransportError(cause));
    }
  }

  /** Two listings in a row, the first answered with a body and an ETag, the second
      with `304`: the second sends that ETag and returns the same body. */
  method ListThenRevalidate(c: CacheableRestClientEmployeesClient, e: string, b: seq<Employee>)
    returns (first: Result<seq<Employee>, ClientError>, second: Result<seq<Employee>, ClientError>)
    modifies c
    ensures first == Ok(b) && second == Ok(b)
    ensures c.sent == old(c.sent) + [ConditionalGet(old(c.slot)), Get(Some(e))]
    ensures c.slot == Some(EtaggedValue(Some(e), b))
  {
    first := c.ListEmployees(Modified(Some(e), b));
    second := c.ListEmployees(NotModified);
  }

  /** A fresh client: the first listing sends no conditional header and caches
      ("v1", [Ann]); the second sends `If-None-Match: v1`, gets `304` and returns
      [Ann]; a `304` to a fresh client is an error. */
  method RevalidationScenario()
  {
    var ann := [Employee(1, "Ann")];
    var c := new CacheableRestClientEmployeesClient();
    var first := c.ListEmployees(Modified(Some("v1"), ann));
    assert c.sent == [Get(None)];
    assert c.slot == Some(EtaggedValue(Some("v1"), ann));
    var second := c.ListEmployees(NotModified);
    assert c.sent[1] == Get(Some("v1"));
    assert first == second == Ok(ann);
    var empty := new CacheableRestClientEmployeesClient();
    var broken := empty.ListEmployees(NotModified);
    assert broken == Err(NullValue) && empty.slot == None;
  }
}
