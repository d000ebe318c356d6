/**
 * The HTTP client (axios) as seen by the service proxies: how a request settles, the client-side
 * timeout, and the two normalisations every proxy applies (a lookup maps 404 to `null`; a mutation
 * rethrows every failure under its own prefix).
 */
module Transport {
  import opened Outcomes

  /**
   * How an axios request settles: a 2xx `Response`; an `ErrorResponse` when the server answered with
   * another status (axios rejects, `error.response.status` is set); `NoResponse` when no answer
   * arrived (connection failure or client timeout: `error.response` is undefined).
   */
  datatype HttpResult<T> =
    | Response(data: T)
    | ErrorResponse(status: nat, message: string)
    | NoResponse(message: string)

  /** The message of the error axios rejects with, or "" for a response. */
  function ErrorMessage<T>(r: HttpResult<T>): string
  {
    match r
    case Response(_) => ""
    case ErrorResponse(_, m) => m
    case NoResponse(m) => m
  }

  /** axios's message for a request its own timer cancelled. */
  function TimeoutMessage(timeoutMs: nat): string
  {
    "timeout of " + NatToString(timeoutMs) + "ms exceeded"
  }

  /**
   * axios's own `timeout` option: 0 means no timeout (the axios default); otherwise a request that has
   * not settled when the timer fires is rejected with no response. A tie goes to the timer.
   */
  function WithClientTimeout<T>(timeoutMs: nat, elapsedMs: nat, r: HttpResult<T>): (c: HttpResult<T>)
    ensures timeoutMs == 0 || elapsedMs < timeoutMs ==> c == r
    ensures timeoutMs > 0 && elapsedMs >= timeoutMs
            ==> c == NoResponse(TimeoutMessage(timeoutMs))
  {
    if timeoutMs > 0 && elapsedMs >= timeoutMs then NoResponse(TimeoutMessage(timeoutMs))
    else r
  }

  /** How the client sees an Express reply: any error status is an `ErrorResponse` with axios's message. */
  function FromReply<T>(reply: Reply<T>): (r: HttpResult<T>)
    ensures r.Response? <==> reply.Success?
    ensures reply.Success? ==> r.data == reply.value
    ensures reply.Failure? ==> r.ErrorResponse? && r.status == reply.status
  {
    match reply
    case Success(_, v) => Response(v)
    case Failure(code, _) => ErrorResponse(code, "Request failed with status code " + NatToString(code))
  }

  predicate IsNotFound<T>(r: HttpResult<T>)
  {
    r.ErrorResponse? && r.status == 404
  }

  /**
   * A lookup by id (`getBookById`, `getUserById`): the data of a response, `null` for an upstream 404,
   * and otherwise a rejection whose message is the caller's prefix ("Error fetching book: ", ...)
   * followed by axios's message.
   */
  function Lookup<T>(r: HttpResult<T>, prefix: string): (s: Settled<Option<T>>)
    ensures s == Fulfilled(None) <==> IsNotFound(r)
    ensures s.Fulfilled? && s.value.Some? <==> r.Response?
    ensures r.Response? ==> s.value.value == r.data
    ensures s.Rejected? <==> !r.Response? && !IsNotFound(r)
    ensures s.Rejected? ==> s.message == prefix + ErrorMessage(r)
  {
    match r
    case Response(d) => Fulfilled(Some(d))
    case ErrorResponse(code, m) =>
      if code == 404 then Fulfilled(None) else Rejected(prefix + m)
    case NoResponse(m) => Rejected(prefix + m)
  }

  /**
   * A mutating call (`decreaseBookAvailability`, ...): the data of a response, and every failure,
   * a 404 included, a rejection whose message is the caller's prefix ("Error decreasing book
   * availability: ", ...) followed by axios's message.
   */
  function Mutation<T>(r: HttpResult<T>, prefix: string): (s: Settled<T>)
    ensures s.Fulfilled? <==> r.Response?
    ensures s.Fulfilled? ==> s.value == r.data
    ensures s.Rejected? ==> s.message == prefix + ErrorMessage(r)
  {
    if r.Response? then Fulfilled(r.data) else Rejected(prefix + ErrorMessage(r))
  }
}
