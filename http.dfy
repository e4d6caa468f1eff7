/** Results of the HTTP calls the pages make, and the error-message rule they share.
    The network itself is not modelled: each page method takes the outcome of its
    request as a parameter. */
module Http {

  datatype Option<+T> = None | Some(value: T)

  /** The body of an error response, as axios exposes it in `e.response.data`. */
  datatype Body =
    | NoBody                         // undefined or null
    | Text(text: string)             // a plain-text body
    | Json(message: Option<string>)  // a JSON object and its `message` field, if it has one

  /** Why a request failed: no response at all (network error), or an error status with a body. */
  datatype HttpError = NoResponse | ErrorResponse(status: int, body: Body)

  /** The outcome of a GET whose response data is a `T`. */
  datatype Fetch<+T> = Fetched(data: T) | FetchFailed(error: HttpError)

  /** The outcome of a POST or DELETE whose response data is not used. */
  datatype Outcome = Succeeded | Failed(error: HttpError)

  /** JavaScript truthiness of an optional string: present and non-empty. */
  predicate Truthy(s: Option<string>) {
    s.Some? && s.value != ""
  }

  /** `e?.response?.data?.message || fallback`: the server's message when it sent a
      non-empty one, the page's fallback text otherwise. */
  function MessageOr(e: HttpError, fallback: string): (r: string)
    ensures fallback != "" ==> r != ""
    ensures r == fallback <== !(e.ErrorResponse? && e.body.Json? && Truthy(e.body.message))
    ensures e.ErrorResponse? && e.body.Json? && Truthy(e.body.message) ==> r == e.body.message.value
  {
    match e
    case ErrorResponse(_, Json(m)) => if Truthy(m) then m.value else fallback
    case _ => fallback
  }

  /** `localStorage.getItem('userId')` is truthy: a stored, non-empty user id. */
  predicate HasUser(userId: Option<string>) {
    Truthy(userId)
  }
}
