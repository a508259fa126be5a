/** What the crawler sees of an HTTP request made with `requests`: either a
    network-level failure or a response, and how the code turns a response
    into an exception (`raise_for_status`, then main.py's `raise_if_redirect`).
    Python's `except` clauses are modelled by the exception class hierarchy
    and a first-match dispatch, because `RedirectDetectedError` is a subclass
    of `HTTPError` and the order of the clauses decides which one runs. */
module Http {

  type Bytes = seq<bv8>

  /** A completed response. `history` holds the URLs of the redirect
      responses `requests` followed before this one (empty: no redirect). */
  datatype Response = Response(statusCode: int, history: seq<string>, text: string, content: Bytes)

  /** The result of `requests.get`: the request either failed at the network
      level (`requests.ConnectionError`) or delivered a response. */
  datatype Fetch = ConnectionFailed | Delivered(response: Response)

  /** The exceptions that the crawler's requests can raise. */
  datatype Exception = ConnectionError | HTTPError | RedirectDetectedError

  /** The classes that appear in `except` clauses. */
  datatype ExceptionClass =
    | RequestExceptionClass
    | ConnectionErrorClass
    | HTTPErrorClass
    | RedirectDetectedErrorClass

  /** The class of `e` and all of its base classes up to `RequestException`:
      `RedirectDetectedError(requests.HTTPError)`, and both `HTTPError` and
      `ConnectionError` derive from `RequestException`. */
  function Mro(e: Exception): seq<ExceptionClass> {
    match e
    case ConnectionError => [ConnectionErrorClass, RequestExceptionClass]
    case HTTPError => [HTTPErrorClass, RequestExceptionClass]
    case RedirectDetectedError => [RedirectDetectedErrorClass, HTTPErrorClass, RequestExceptionClass]
  }

  /** `isinstance(e, c)`. */
  predicate IsInstance(e: Exception, c: ExceptionClass) {
    c in Mro(e)
  }

  /** The index of the first `except` clause of `handlers` that catches `e`,
      as Python tries them top to bottom; `None` when the exception
      propagates. */
  function FirstMatch(e: Exception, handlers: seq<ExceptionClass>): (r: Option<nat>)
    ensures r.Some? ==> r.value < |handlers| && IsInstance(e, handlers[r.value])
    ensures r.Some? ==> forall j :: 0 <= j < r.value ==> !IsInstance(e, handlers[j])
    ensures r.None? ==> forall j :: 0 <= j < |handlers| ==> !IsInstance(e, handlers[j])
  {
    if handlers == [] then None
    else if IsInstance(e, handlers[0]) then Some(0)
    else match FirstMatch(e, handlers[1..])
      case None => None
      case Some(k) => Some(k + 1)
  }

  datatype Option<T> = None | Some(value: T)

  /** The result of a step that either produces a value or raises. */
  datatype Outcome<T> = Ok(value: T) | Raised(exception: Exception)

  /** `requests` counts 4xx as client errors and 5xx as server errors. */
  predicate IsErrorStatus(status: int) {
    400 <= status < 600
  }

  /** `response.raise_for_status()`: raises `HTTPError` for an error status
      and returns otherwise. */
  function RaiseForStatus(r: Response): (e: Option<Exception>)
    ensures e.Some? <==> IsErrorStatus(r.statusCode)
    ensures e.Some? ==> e.value == HTTPError
  {
    if IsErrorStatus(r.statusCode) then Some(HTTPError) else None
  }

  /** `raise_if_redirect(response)`: raises `RedirectDetectedError` exactly
      when the response was reached through at least one redirect. */
  function RaiseIfRedirect(r: Response): (e: Option<Exception>)
    ensures e.Some? <==> r.history != []
    ensures e.Some? ==> e.value == RedirectDetectedError
  {
    if r.history != [] then Some(RedirectDetectedError) else None
  }

  /** `requests.get` followed by `raise_for_status()` and
      `raise_if_redirect()`: the sequence every page fetch and every text
      download performs. The network failure is seen first, then the status,
      then the redirect. */
  function GetChecked(f: Fetch): (r: Outcome<Response>)
    ensures r == Raised(ConnectionError) <==> f.ConnectionFailed?
    ensures r == Raised(HTTPError) <==> f.Delivered? && IsErrorStatus(f.response.statusCode)
    ensures r == Raised(RedirectDetectedError) <==>
              f.Delivered? && !IsErrorStatus(f.response.statusCode) && f.response.history != []
    ensures r.Ok? <==> f.Delivered? && !IsErrorStatus(f.response.statusCode) && f.response.history == []
    ensures r.Ok? ==> r.value == f.response
  {
    match f
    case ConnectionFailed => Raised(ConnectionError)
    case Delivered(resp) =>
      match RaiseForStatus(resp)
      case Some(e) => Raised(e)
      case None =>
        match RaiseIfRedirect(resp)
        case Some(e) => Raised(e)
        case None => Ok(resp)
  }

  /** `requests.get` followed by `raise_for_status()` only, as the image
      download does: a redirected response is accepted. */
  function GetStatusChecked(f: Fetch): (r: Outcome<Response>)
    ensures r == Raised(ConnectionError) <==> f.ConnectionFailed?
    ensures r == Raised(HTTPError) <==> f.Delivered? && IsErrorStatus(f.response.statusCode)
    ensures r.Ok? <==> f.Delivered? && !IsErrorStatus(f.response.statusCode)
    ensures r.Ok? ==> r.value == f.response
  {
    match f
    case ConnectionFailed => Raised(ConnectionError)
    case Delivered(resp) =>
      match RaiseForStatus(resp)
      case Some(e) => Raised(e)
      case None => Ok(resp)
  }

  /** Only the redirect check tells the two fetches apart: whenever the
      fully checked fetch succeeds or fails for any reason other than a
      redirect, the status-only fetch gives the same outcome. */
  lemma StatusOnlyDiffersOnRedirect(f: Fetch)
    ensures GetChecked(f) != Raised(RedirectDetectedError) ==> GetStatusChecked(f) == GetChecked(f)
    ensures GetChecked(f) == Raised(RedirectDetectedError) ==> GetStatusChecked(f) == Ok(f.response)
    ensures GetStatusChecked(f) != Raised(RedirectDetectedError)
  {
  }

  /** A redirect that ends on an error status is reported as a plain
      `HTTPError`, not as `RedirectDetectedError`, because the status is
      checked first. */
  lemma ErrorStatusWinsOverRedirect(resp: Response)
    requires IsErrorStatus(resp.statusCode) && resp.history != []
    ensures GetChecked(Delivered(resp)) == Raised(HTTPError)
    ensures GetChecked(Delivered(resp)) != Raised(RedirectDetectedError)
  {
  }

  /** A `RedirectDetectedError` is also an `HTTPError`, so a handler list
      that names `HTTPError` before `RedirectDetectedError` never reaches the
      latter; the order the crawler uses gives the redirect its own clause. */
  lemma ClauseOrderMatters()
    ensures FirstMatch(RedirectDetectedError, [RedirectDetectedErrorClass, HTTPErrorClass, ConnectionErrorClass]) == Some(0)
    ensures FirstMatch(RedirectDetectedError, [HTTPErrorClass, RedirectDetectedErrorClass, ConnectionErrorClass]) == Some(0)
    ensures FirstMatch(HTTPError, [RedirectDetectedErrorClass, HTTPErrorClass, ConnectionErrorClass]) == Some(1)
  {
  }
}
