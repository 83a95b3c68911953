/** Lines 30-44 of push_event: the single POST, `raise_for_status`, and the two `except`
    clauses, turned into the dictionary the function returns (or None when it falls through). */
module Outcomes {
  import opened Wrappers

  /** The part of a `requests.Response` the mapping reads. */
  datatype HttpResponse = HttpResponse(statusCode: int, text: string)

  /** What `requests.post` produced: a response, or a raised `RequestException` other than
      `HTTPError` (connection error, timeout, ...), which may carry a response with it. */
  datatype PostOutcome =
    | Responded(response: HttpResponse)
    | Failed(attached: Option<HttpResponse>)

  /** The exceptions the `try` block can raise. `HTTPError` is a subclass of
      `RequestException`, so it is listed separately and caught first. */
  datatype RequestError =
    | HTTPError(response: HttpResponse)
    | OtherRequestError(attached: Option<HttpResponse>)

  /** The `status_code` entry of the result: the source puts an `int` there, except on a
      transport failure, where it puts the string "500". */
  datatype StatusCode = Numeric(code: int) | Text(text: string)

  /** The two-entry dictionary `{"status_code": ..., "message": ...}`. */
  datatype ResultDict = ResultDict(statusCode: StatusCode, message: string)

  /** The dictionary returned for a 200 response (the spelling is the source's). */
  const Success: ResultDict := ResultDict(Numeric(200), "Event succesfully sent to EnaLog")

  /** The dictionary returned for a request failure without an HTTP status. */
  const InternalError: ResultDict := ResultDict(Text("500"), "Internal server error")

  /** The codes for which `raise_for_status` raises: 4xx client and 5xx server errors. */
  predicate IsHttpErrorCode(code: int)
  {
    400 <= code < 500 || 500 <= code < 600
  }

  /** `Response.raise_for_status()`: raises `HTTPError` carrying the response for a 4xx or 5xx
      code and does nothing otherwise. */
  function RaiseForStatus(response: HttpResponse): (raised: Option<RequestError>)
    ensures raised.Some? <==> 400 <= response.statusCode <= 599
    ensures raised.Some? ==> raised.value == HTTPError(response)
  {
    if IsHttpErrorCode(response.statusCode) then Some(HTTPError(response)) else None
  }

  /** How the `try` block of lines 30-40 ends: with a response that passed the status check,
      or with an exception. */
  datatype TryEnd = Completed(response: HttpResponse) | Raised(error: RequestError)

  function TryBlock(outcome: PostOutcome): (end: TryEnd)
    ensures end.Completed? <==> outcome.Responded? && !(400 <= outcome.response.statusCode <= 599)
    ensures end.Completed? ==> end.response == outcome.response
    ensures end.Raised? && end.error.HTTPError? <==>
              outcome.Responded? && 400 <= outcome.response.statusCode <= 599
    ensures end.Raised? && end.error.HTTPError? ==> end.error.response == outcome.response
    ensures outcome.Failed? ==> end == Raised(OtherRequestError(outcome.attached))
  {
    match outcome
    case Failed(attached) => Raised(OtherRequestError(attached))
    case Responded(response) =>
      match RaiseForStatus(response)
      case Some(error) => Raised(error)
      case None => Completed(response)
  }

  /** The value push_event returns for a request outcome, following its `try`/`except`
      structure. `None` is the fall-through on a code that is neither 200 nor an error. */
  function MapOutcome(outcome: PostOutcome): (result: Option<ResultDict>)
    ensures outcome.Responded? && outcome.response.statusCode == 200 ==> result == Some(Success)
    ensures outcome.Responded? && 400 <= outcome.response.statusCode <= 599 ==>
              result == Some(ResultDict(Numeric(outcome.response.statusCode), outcome.response.text))
    ensures outcome.Failed? ==> result == Some(InternalError)
    ensures (outcome.Responded? && outcome.response.statusCode != 200
             && !(400 <= outcome.response.statusCode <= 599)) ==> result == None
  {
    match TryBlock(outcome)
    case Completed(response) =>
      if response.statusCode == 200 then Some(Success) else None
    case Raised(HTTPError(response)) =>
      Some(ResultDict(Numeric(response.statusCode), response.text))
    case Raised(OtherRequestError(_)) =>
      Some(InternalError)
  }

  /** The success dictionary is returned exactly for a 200 response. */
  lemma SuccessIff200(outcome: PostOutcome)
    ensures MapOutcome(outcome) == Some(Success)
            <==> outcome.Responded? && outcome.response.statusCode == 200
  {
  }

  /** The string status "500" appears exactly for a request failure without an HTTP status;
      an upstream 500 is reported as the number 500, so the two stay distinguishable. */
  lemma InternalErrorIffFailed(outcome: PostOutcome)
    ensures MapOutcome(outcome) == Some(InternalError) <==> outcome.Failed?
    ensures (MapOutcome(outcome).Some? && MapOutcome(outcome).value.statusCode.Text?)
            <==> outcome.Failed?
  {
  }

  /** Nothing is returned exactly for a response whose code is neither 200 nor 4xx/5xx. */
  lemma NothingIffUnhandledCode(outcome: PostOutcome)
    ensures MapOutcome(outcome) == None
            <==> outcome.Responded? && outcome.response.statusCode != 200
                 && !(400 <= outcome.response.statusCode <= 599)
  {
  }

  /** A numeric status in the result is 200 or the code of an HTTP error, and it is always
      the code the server sent. */
  lemma NumericStatusFromServer(outcome: PostOutcome)
    requires MapOutcome(outcome).Some? && MapOutcome(outcome).value.statusCode.Numeric?
    ensures outcome.Responded?
    ensures MapOutcome(outcome).value.statusCode.code == outcome.response.statusCode
    ensures outcome.response.statusCode == 200 || 400 <= outcome.response.statusCode <= 599
  {
  }

  /** A response attached to a non-HTTP request failure is ignored: the result is "500"
      whatever that response's code is. */
  lemma AttachedResponseIgnored(r1: HttpResponse, r2: HttpResponse)
    ensures MapOutcome(Failed(Some(r1))) == MapOutcome(Failed(Some(r2))) == MapOutcome(Failed(None))
  {
  }
}
