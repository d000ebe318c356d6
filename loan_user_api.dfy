/** The loan service's proxy to the user service: one lookup, with a 5000 ms client timeout. */
module LoanUserApi {
  import opened Outcomes
  import opened Transport

  const UserTimeoutMs: nat := 5000

  /**
   * `getUserById` answering after `elapsedMs`: the data, `null` for a 404, and "Error fetching
   * user: ..." for any other failure, the client's own timeout included.
   */
  function GetUserById<T>(elapsedMs: nat, r: HttpResult<T>): (s: Settled<Option<T>>)
    ensures s == Fulfilled(None) <==> elapsedMs < UserTimeoutMs && IsNotFound(r)
    ensures s.Fulfilled? && s.value.Some? <==> elapsedMs < UserTimeoutMs && r.Response?
    ensures s.Fulfilled? && s.value.Some? ==> s.value.value == r.data
    ensures s.Rejected? ==> s.message == "Error fetching user: " + ErrorMessage(WithClientTimeout(UserTimeoutMs, elapsedMs, r))
  {
    Lookup(WithClientTimeout(UserTimeoutMs, elapsedMs, r), "Error fetching user: ")
  }

  /** A user service slower than the client timeout is an error, never `null`. */
  lemma SlowUserLookupRejects<T>(elapsedMs: nat, r: HttpResult<T>)
    requires elapsedMs >= UserTimeoutMs
    ensures GetUserById(elapsedMs, r) == Rejected("Error fetching user: " + TimeoutMessage(UserTimeoutMs))
  {
    assert WithClientTimeout(UserTimeoutMs, elapsedMs, r) == NoResponse(TimeoutMessage(UserTimeoutMs));
  }
}
