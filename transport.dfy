/** What the fetch front ends send and receive. The HTTP client itself sits behind
    a function parameter: given a request, it yields the outcome the client's
    `end(err, response)` callback would see. */
module Transport {
  import opened Js
  import opened Metadata

  datatype Verb = Head | Get

  /** One request: verb, target, header set, timeout in milliseconds, and whether the
      body is decoded by its declared charset. The client may follow redirects itself; its
      outcome is an input. */
  datatype Request = Request(verb: Verb, url: string, headers: map<string, string>, timeout: int, decodeCharset: bool)

  /** A response: status code, the url the client reports for the request, the body
      text, the response headers and the `location` header. */
  datatype Response = Response(status: nat, requestUrl: string, text: string, header: Dict, location: string)

  /** The client's error object: whether it is a timeout, and its `status`. */
  datatype Error = Error(timeout: bool, status: Option<nat>)

  /** The two arguments of the `end` callback; either may be missing. */
  datatype Outcome = Outcome(err: Option<Error>, response: Option<Response>)

  /** `statusType`: the hundreds digit of the status code. */
  function StatusType(status: nat): nat {
    status / 100
  }

  /** The reasons a fetch is reported as failed. */
  datatype Failure =
    | Message(text: string)     // a fixed string such as "Invalid URL"
    | ClientError(error: Error) // the client's error object itself
    | Status(code: nat)         // `err.status`

  /** How a fetch settles:
      - `Rejected`: called back with a truthy error;
      - `Resolved`: called back with no error and the parse result;
      - `Empty`: called back with a falsy error and no result;
      - `Thrown`: an exception escapes the callback. */
  datatype Report = Rejected(reason: Failure) | Resolved(parsed: Parsed) | Empty | Thrown

  /** `callback(err)` with no response: an error object is truthy, a missing one is not. */
  function NoResponse(err: Option<Error>): (r: Report)
    ensures r.Rejected? <==> err.Some?
    ensures r.Rejected? ==> r.reason == ClientError(err.value)
    ensures err.None? ==> r == Empty
  {
    if err.Some? then Rejected(ClientError(err.value)) else Empty
  }

  /** `callback(err.status)` for a response outside 2xx: a missing error object makes
      `err.status` throw; a missing or zero status is falsy. */
  function BadStatus(err: Option<Error>): (r: Report)
    ensures r == Thrown <==> err.None?
    ensures r.Rejected? <==> err.Some? && err.value.status.Some? && err.value.status.value != 0
    ensures r.Rejected? ==> r.reason == Status(err.value.status.value)
  {
    match err
    case None => Thrown
    case Some(e) => if e.status.Some? && e.status.value != 0 then Rejected(Status(e.status.value)) else Empty
  }

  /** `err && err.timeout`. */
  predicate TimedOut(o: Outcome) {
    o.err.Some? && o.err.value.timeout
  }
}
