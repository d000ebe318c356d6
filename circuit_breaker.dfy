/**
 * The visible part of the guarded call: the option defaults and their merge in
 * `createCircuitBreaker`, the constant fallback of `createDefaultFallback`, and how a call through a
 * breaker settles given the breaker's verdict. The breaker's own state machine (CLOSED, OPEN,
 * HALF_OPEN, rolling windows) lives in the `opossum` library and is an input here: `open`.
 */
module CircuitBreaker {
  import opened Outcomes

  datatype OptionKey =
    | Timeout
    | ErrorThresholdPercentage
    | ResetTimeout
    | VolumeThreshold
    | RollingCountTimeout
    | RollingCountBuckets

  type BreakerOptions = map<OptionKey, nat>

  /** The default value of each option in `createCircuitBreaker`. */
  function DefaultFor(k: OptionKey): nat
  {
    match k
    case Timeout => 5000
    case ErrorThresholdPercentage => 50
    case ResetTimeout => 10000
    case VolumeThreshold => 5
    case RollingCountTimeout => 10000
    case RollingCountBuckets => 10
  }

  /** The defaults of `createCircuitBreaker`; every key has one. */
  function DefaultOptions(): (d: BreakerOptions)
    ensures forall k: OptionKey :: k in d
    ensures d[Timeout] == 5000 && d[ErrorThresholdPercentage] == 50 && d[ResetTimeout] == 10000
    ensures d[VolumeThreshold] == 5 && d[RollingCountTimeout] == 10000 && d[RollingCountBuckets] == 10
  {
    map k: OptionKey | true :: DefaultFor(k)
  }

  /** `{ ...defaultOptions, ...options }`: each supplied key from the caller, every other key from the defaults. */
  function MergeOptions(supplied: BreakerOptions): (m: BreakerOptions)
    ensures forall k: OptionKey :: k in m
    ensures forall k: OptionKey :: m[k] == if k in supplied then supplied[k] else DefaultOptions()[k]
  {
    DefaultOptions() + supplied
  }

  /** With `options = {}` (the parameter's default) the merged options are the defaults. */
  lemma MergeNothingIsDefault()
    ensures MergeOptions(map[]) == DefaultOptions()
  {
    assert MergeOptions(map[]).Keys == DefaultOptions().Keys;
  }

  /** Merging is idempotent: merging options that are already complete changes nothing. */
  lemma {:induction false} MergeIsIdempotent(supplied: BreakerOptions)
    ensures MergeOptions(MergeOptions(supplied)) == MergeOptions(supplied)
  {
    var once := MergeOptions(supplied);
    assert MergeOptions(once).Keys == once.Keys;
    forall k: OptionKey ensures MergeOptions(once)[k] == once[k] {
      assert k in once;
    }
  }

  /** The function `createDefaultFallback` returns: it logs the error and returns `fallbackValue`. */
  function DefaultFallback<T>(fallbackValue: T): (handler: string -> T)
    ensures forall error :: handler(error) == fallbackValue
  {
    error => fallbackValue
  }

  /** `createDefaultFallback(name)` with the default `fallbackValue = null`. */
  function NullFallback<T>(): (handler: string -> Option<T>)
    ensures forall error :: handler(error) == None
  {
    DefaultFallback(None)
  }

  /**
   * The two fallback policies: a tolerant fallback returns a handler's constant (`createDefaultFallback`),
   * an escalating fallback throws an `Error` with a fixed message.
   */
  datatype Fallback<T> = Tolerant(handler: string -> T) | Escalating(message: string)

  /** What the breaker decides about one `fire`: whether it is open and how long the call takes to settle. */
  datatype Guard = Guard(open: bool, elapsedMs: nat)

  /** The verdict on one call: it ran within the breaker's timeout and settled, or it failed for the breaker. */
  datatype Verdict<T> = Passed(result: T) | Tripped(error: string)

  /**
   * `breaker.fire(...)`: an open breaker short-circuits without running the call; a call that has not
   * settled within the `timeout` option fails as a timeout; a rejected call fails with its error.
   * Every failure goes to the fallback (opossum passes it the error).
   */
  function Judge<T>(options: BreakerOptions, g: Guard, run: Settled<T>): (v: Verdict<Settled<T>>)
    requires Timeout in options
    ensures v.Passed? <==> !g.open && g.elapsedMs < options[Timeout] && run.Fulfilled?
    ensures v.Passed? ==> v.result == run
  {
    if g.open then Tripped("Breaker is open")
    else if g.elapsedMs >= options[Timeout] then Tripped("Timed out after " + NatToString(options[Timeout]) + "ms")
    else if run.Rejected? then Tripped(run.message)
    else Passed(run)
  }

  function Fire<T>(options: BreakerOptions, g: Guard, run: Settled<T>, fallback: Fallback<T>): (s: Settled<T>)
    requires Timeout in options
    // a success passes through unchanged
    ensures Judge(options, g, run).Passed? ==> s == run
    // a tolerant fallback never lets the caller see a failure
    ensures fallback.Tolerant? ==> s.Fulfilled?
    ensures fallback.Tolerant? && Judge(options, g, run).Tripped?
            ==> s.value == fallback.handler(Judge(options, g, run).error)
    // an escalating fallback never makes a failure look like a success
    ensures fallback.Escalating? ==> (s.Fulfilled? <==> !g.open && g.elapsedMs < options[Timeout] && run.Fulfilled?)
    ensures fallback.Escalating? && s.Rejected? ==> s.message == fallback.message
  {
    match Judge(options, g, run)
    case Passed(r) => r
    case Tripped(e) =>
      match fallback
      case Tolerant(h) => Fulfilled(h(e))
      case Escalating(m) => Rejected(m)
  }
}
