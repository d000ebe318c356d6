/** Result shapes shared by every module: JavaScript's `null`, a settled promise and an HTTP reply. */
module Outcomes {

  /** `None` stands for JavaScript's `null` / `undefined`. */
  datatype Option<T> = None | Some(value: T)

  /** How an `async` function settles: fulfilled with a value, or rejected with an `Error` whose message is given. */
  datatype Settled<T> = Fulfilled(value: T) | Rejected(message: string)

  /** What an Express handler writes: a success status with a body, or an error status with `{ message }`. */
  datatype Reply<T> = Success(status: nat, value: T) | Failure(status: nat, message: string)

  /** The body of `204 No Content` and of `{ message }`-only successes. */
  datatype Unit = Unit

  /** JavaScript truthiness of an optional string: defined and not the empty string. */
  predicate Truthy(s: Option<string>)
  {
    s.Some? && s.value != ""
  }

  /** Whether `t` occurs in `s` (JavaScript's `String.prototype.includes`). */
  predicate Contains(s: string, t: string)
  {
    exists i | 0 <= i <= |s| - |t| :: OccursAt(s, t, i)
  }

  predicate OccursAt(s: string, t: string, i: int)
  {
    0 <= i <= |s| - |t| && s[i..i + |t|] == t
  }

  function DigitChar(d: nat): (c: char)
    requires d < 10
    ensures '0' <= c <= '9'
  {
    "0123456789"[d]
  }

  /** Decimal rendering of a natural number, as in a template literal. */
  function NatToString(n: nat): (s: string)
    ensures |s| > 0
    ensures forall i :: 0 <= i < |s| ==> '0' <= s[i] <= '9'
    ensures n < 10 <==> |s| == 1
  {
    if n < 10 then [DigitChar(n)] else NatToString(n / 10) + [DigitChar(n % 10)]
  }

  /** The rendering of the timeouts in the error messages. */
  lemma {:induction false} RendersTimeouts()
    ensures NatToString(3000) == "3000" && NatToString(5000) == "5000" && NatToString(6000) == "6000"
  {
    assert NatToString(3) == "3" && NatToString(5) == "5" && NatToString(6) == "6";
    assert NatToString(30) == "30" && NatToString(50) == "50" && NatToString(60) == "60";
    assert NatToString(300) == "300" && NatToString(500) == "500" && NatToString(600) == "600";
  }
}
