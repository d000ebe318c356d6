/**
 * The statistics service's proxy to the book service: every export is the base call (axios with a
 * 5000 ms client timeout) run through a circuit breaker with a 3000 ms timeout for reads and a
 * 6000 ms timeout for writes. Reads fall back to `null`; writes fall back to a fixed error.
 * The `Guard` argument of each export is the breaker's state and the time the request takes; the
 * `HttpResult` argument is how the request settles at the HTTP level.
 */
module StatBookApi {
  import opened Outcomes
  import opened Transport
  import opened CircuitBreaker

  /** `process.env.API_TIMEOUT || 5000` with the variable unset. */
  const ApiTimeoutMs: nat := 5000

  const ReadTimeoutMs: nat := 3000
  const WriteTimeoutMs: nat := 6000

  /** `{ timeout: 3000 }` merged into the defaults. */
  function ReadOptions(): (o: BreakerOptions)
    ensures forall k: OptionKey :: k in o
    ensures o[Timeout] == ReadTimeoutMs
    ensures forall k: OptionKey :: k != Timeout ==> o[k] == DefaultFor(k)
  {
    MergeOptions(map[Timeout := ReadTimeoutMs])
  }

  /** `{ timeout: 6000 }` merged into the defaults. */
  function WriteOptions(): (o: BreakerOptions)
    ensures forall k: OptionKey :: k in o
    ensures o[Timeout] == WriteTimeoutMs
    ensures forall k: OptionKey :: k != Timeout ==> o[k] == DefaultFor(k)
  {
    MergeOptions(map[Timeout := WriteTimeoutMs])
  }

  /** The request as the client sees it: the server's result, or axios's own timeout if it is slower. */
  function Sent<T>(g: Guard, r: HttpResult<T>): HttpResult<T>
  {
    WithClientTimeout(ApiTimeoutMs, g.elapsedMs, r)
  }

  /** When the call settles for the breaker: axios rejects at its timeout if the server is slower. */
  function Settling(g: Guard): (s: Guard)
    ensures s.open == g.open && s.elapsedMs <= ApiTimeoutMs
    ensures s.elapsedMs == if g.elapsedMs < ApiTimeoutMs then g.elapsedMs else ApiTimeoutMs
  {
    Guard(g.open, if g.elapsedMs < ApiTimeoutMs then g.elapsedMs else ApiTimeoutMs)
  }

  // ---------------------------------------------------------------------- reads

  /** `getBookStatsFn`: the response data, or a rejection "Error fetching book stats: ...". */
  function GetBookStatsFn<T>(r: HttpResult<T>): (s: Settled<T>)
    ensures s.Fulfilled? <==> r.Response?
    ensures r.Response? ==> s.value == r.data
    ensures s.Rejected? ==> s.message == "Error fetching book stats: " + ErrorMessage(r)
  {
    if r.Response? then Fulfilled(r.data) else Rejected("Error fetching book stats: " + ErrorMessage(r))
  }

  /**
   * `getBookStats`: never rejects; the stats only when the breaker is closed, the request answers
   * within the read timeout and succeeds, and `null` for every failure or short-circuit.
   */
  function GetBookStats<T>(g: Guard, r: HttpResult<T>): (s: Settled<Option<T>>)
    ensures s.Fulfilled?
    ensures s.value.Some? <==> !g.open && g.elapsedMs < ReadTimeoutMs && r.Response?
    ensures s.value.Some? ==> s.value.value == r.data
  {
    var run := match GetBookStatsFn(Sent(g, r))
               case Fulfilled(d) => Fulfilled(Some(d))
               case Rejected(m) => Rejected(m);
    Fire(ReadOptions(), Settling(g), run, Tolerant(NullFallback()))
  }

  /** `getBookByIdFn`: the data, `null` for a 404, "Error fetching book: ..." for any other failure. */
  function GetBookByIdFn<T>(r: HttpResult<T>): (s: Settled<Option<T>>)
    ensures s == Fulfilled(None) <==> IsNotFound(r)
    ensures r.Response? ==> s == Fulfilled(Some(r.data))
    ensures s.Rejected? <==> !r.Response? && !IsNotFound(r)
    ensures s.Rejected? ==> s.message == "Error fetching book: " + ErrorMessage(r)
  {
    Lookup(r, "Error fetching book: ")
  }

  /**
   * `getBookById`: never rejects; the book only when the breaker is closed and the request succeeds
   * within the read timeout, `null` otherwise (a 404, an error, a timeout or an open breaker).
   */
  function GetBookById<T>(g: Guard, r: HttpResult<T>): (s: Settled<Option<T>>)
    ensures s.Fulfilled?
    ensures s.value.Some? <==> !g.open && g.elapsedMs < ReadTimeoutMs && r.Response?
    ensures s.value.Some? ==> s.value.value == r.data
  {
    Fire(ReadOptions(), Settling(g), GetBookByIdFn(Sent(g, r)), Tolerant(NullFallback()))
  }

  /** On reads the breaker's 3000 ms fires before axios's 5000 ms: the client timeout never decides a read. */
  lemma ReadClientTimeoutNeverDecides<T>(g: Guard, r: HttpResult<T>)
    ensures GetBookById(g, r) == Fire(ReadOptions(), g, GetBookByIdFn(r), Tolerant(NullFallback()))
  {
  }

  /** After the breaker's 3000 ms a read is `null` however the request would have ended. */
  lemma SlowReadIsNull<T>(g: Guard, r: HttpResult<T>)
    requires g.elapsedMs >= ReadTimeoutMs
    ensures GetBookById(g, r) == Fulfilled(None) && GetBookStats(g, r) == Fulfilled(None)
  {
  }

  // --------------------------------------------------------------------- writes

  const DecreaseUnavailable: string := "Book service unavailable: Cannot decrease book availability at this time"
  const IncreaseUnavailable: string := "Book service unavailable: Cannot increase book availability at this time"
  const UpdateUnavailable: string := "Book service unavailable: Cannot update book availability at this time"

  /**
   * A write through its breaker and escalating fallback: it fulfils exactly when the breaker is
   * closed and the request succeeds within axios's 5000 ms, with the response data; every failure
   * surfaces as the fallback's fixed error and never as a value.
   */
  function GuardedWrite<T>(g: Guard, r: HttpResult<T>, prefix: string, unavailable: string): (s: Settled<T>)
    ensures s.Fulfilled? <==> !g.open && g.elapsedMs < ApiTimeoutMs && r.Response?
    ensures s.Fulfilled? ==> s.value == r.data
    ensures s.Rejected? ==> s.message == unavailable
  {
    Fire(WriteOptions(), Settling(g), Mutation(Sent(g, r), prefix), Escalating(unavailable))
  }

  /** On writes axios's 5000 ms fires before the breaker's 6000 ms: the breaker's timeout never decides a write. */
  lemma WriteBreakerTimeoutNeverDecides<T>(g: Guard, r: HttpResult<T>, prefix: string)
    requires !g.open
    ensures Judge(WriteOptions(), Settling(g), Mutation(Sent(g, r), prefix)).Tripped?
            ==> Judge(WriteOptions(), Settling(g), Mutation(Sent(g, r), prefix)).error
                == prefix + ErrorMessage(Sent(g, r))
  {
  }

  /** `decreaseBookAvailability`. */
  function DecreaseBookAvailability<T>(g: Guard, r: HttpResult<T>): (s: Settled<T>)
    ensures s.Fulfilled? <==> !g.open && g.elapsedMs < ApiTimeoutMs && r.Response?
    ensures s.Fulfilled? ==> s.value == r.data
    ensures s.Rejected? ==> s.message == DecreaseUnavailable
  {
    GuardedWrite(g, r, "Error decreasing book availability: ", DecreaseUnavailable)
  }

  /** `increaseBookAvailability`. */
  function IncreaseBookAvailability<T>(g: Guard, r: HttpResult<T>): (s: Settled<T>)
    ensures s.Fulfilled? <==> !g.open && g.elapsedMs < ApiTimeoutMs && r.Response?
    ensures s.Fulfilled? ==> s.value == r.data
    ensures s.Rejected? ==> s.message == IncreaseUnavailable
  {
    GuardedWrite(g, r, "Error increasing book availability: ", IncreaseUnavailable)
  }

  /** The request `updateBookAvailabilityFn` sends: `PATCH /books/:id/availability` with `{ available_copies, operation }`. */
  datatype AvailabilityRequest = AvailabilityRequest(path: string, availableCopies: Option<int>, operation: string)

  function UpdateAvailabilityRequest(bookId: string, availableCopies: Option<int>, operation: string): (q: AvailabilityRequest)
    ensures q.path == "/books/" + bookId + "/availability"
    ensures q.availableCopies == availableCopies && q.operation == operation
  {
    AvailabilityRequest("/books/" + bookId + "/availability", availableCopies, operation)
  }

  /** `updateBookAvailability`. */
  function UpdateBookAvailability<T>(g: Guard, r: HttpResult<T>): (s: Settled<T>)
    ensures s.Fulfilled? <==> !g.open && g.elapsedMs < ApiTimeoutMs && r.Response?
    ensures s.Fulfilled? ==> s.value == r.data
    ensures s.Rejected? ==> s.message == UpdateUnavailable
  {
    GuardedWrite(g, r, "Error updating book availability: ", UpdateUnavailable)
  }

  /**
   * The book service's route `PATCH /:id/availability` under `/books`: the id of a path
   * "/books/<id>/availability" whose id is one non-empty path segment.
   */
  function MatchAvailabilityRoute(path: string): (id: Option<string>)
    ensures id.Some? ==> path == "/books/" + id.value + "/availability"
    ensures id.Some? ==> id.value != [] && '/' !in id.value
  {
    var prefix, suffix := "/books/", "/availability";
    if |path| > |prefix| + |suffix| && path[..|prefix|] == prefix && path[|path| - |suffix|..] == suffix then
      var middle := path[|prefix|..|path| - |suffix|];
      if '/' in middle then None
      else
        assert path == path[..|prefix|] + middle + path[|path| - |suffix|..];
        Some(middle)
    else None
  }

  /** The path the proxy sends reaches the availability handler with the book id it was given. */
  lemma RequestMatchesRoute(bookId: string, availableCopies: Option<int>, operation: string)
    requires bookId != [] && '/' !in bookId
    ensures MatchAvailabilityRoute(UpdateAvailabilityRequest(bookId, availableCopies, operation).path) == Some(bookId)
  {
    var path := UpdateAvailabilityRequest(bookId, availableCopies, operation).path;
    assert path[..7] == "/books/";
    assert path[|path| - 13..] == "/availability";
    assert path[7..|path| - 13] == bookId;
  }

  // --------------------------------------------------------------------- health

  datatype Health = Health(status: string, message: string)

  /** `checkBookServiceHealth`: never rejects; "ok" exactly when the request succeeds, "error" with the reason otherwise. */
  function CheckBookServiceHealth<T>(elapsedMs: nat, r: HttpResult<T>): (h: Health)
    ensures h.status == "ok" <==> elapsedMs < ApiTimeoutMs && r.Response?
    ensures h.status == "ok" || h.status == "error"
    ensures h.status == "ok" ==> h.message == "Book service is healthy"
    ensures h.status == "error"
            ==> h.message == "Book service health check failed: " + ErrorMessage(WithClientTimeout(ApiTimeoutMs, elapsedMs, r))
  {
    match WithClientTimeout(ApiTimeoutMs, elapsedMs, r)
    case Response(_) => Health("ok", "Book service is healthy")
    case other => Health("error", "Book service health check failed: " + ErrorMessage(other))
  }
}
