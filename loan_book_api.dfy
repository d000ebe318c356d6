/**
 * The loan service's proxy to the book service: plain axios calls with no client timeout and no
 * breaker. A lookup maps 404 to `null`; a mutation rethrows every failure under its own prefix.
 */
module LoanBookApi {
  import opened Outcomes
  import opened Transport

  /** `getBookById`: the data, `null` for a 404, "Error fetching book: ..." for any other failure. */
  function GetBookById<T>(r: HttpResult<T>): (s: Settled<Option<T>>)
    ensures s == Fulfilled(None) <==> IsNotFound(r)
    ensures r.Response? ==> s == Fulfilled(Some(r.data))
    ensures s.Rejected? <==> !r.Response? && !IsNotFound(r)
    ensures s.Rejected? ==> s.message == "Error fetching book: " + ErrorMessage(r)
  {
    Lookup(r, "Error fetching book: ")
  }

  /** `decreaseBookAvailability`: the data, or a rejection for every failure, a 404 included. */
  function DecreaseBookAvailability<T>(r: HttpResult<T>): (s: Settled<T>)
    ensures s.Fulfilled? <==> r.Response?
    ensures s.Fulfilled? ==> s.value == r.data
    ensures s.Rejected? ==> s.message == "Error decreasing book availability: " + ErrorMessage(r)
  {
    Mutation(r, "Error decreasing book availability: ")
  }

  /** `increaseBookAvailability`: the data, or a rejection for every failure, a 404 included. */
  function IncreaseBookAvailability<T>(r: HttpResult<T>): (s: Settled<T>)
    ensures s.Fulfilled? <==> r.Response?
    ensures s.Fulfilled? ==> s.value == r.data
    ensures s.Rejected? ==> s.message == "Error increasing book availability: " + ErrorMessage(r)
  {
    Mutation(r, "Error increasing book availability: ")
  }

  /** The names the module exports, named and in its default object. */
  const Exports: set<string> := {"getBookById", "decreaseBookAvailability", "increaseBookAvailability"}

  /** The names the loan service's controller imports from the module. */
  const ControllerImports: set<string> :=
    {"getBookById", "decreaseBookAvailability", "increaseBookAvailability", "updateBookAvailability"}

  /** ES module linking: every named import must be exported, or the importing module does not load. */
  predicate Links(imports: set<string>, exports: set<string>)
  {
    imports <= exports
  }

  /** As written, the controller's import of `updateBookAvailability` has no export to bind to. */
  lemma ControllerImportUnresolved()
    ensures !Links(ControllerImports, Exports)
    ensures ControllerImports - Exports == {"updateBookAvailability"}
  {
    assert "updateBookAvailability" !in Exports;
  }

  /** The exports with `updateBookAvailability` added, bound to the statistics service's guarded write. */
  const CorrectedExports: set<string> := Exports + {"updateBookAvailability"}

  lemma CorrectedImportLinks()
    ensures Links(ControllerImports, CorrectedExports)
    ensures CorrectedExports - Exports == {"updateBookAvailability"}
  {
    assert "updateBookAvailability" !in Exports;
  }
}
