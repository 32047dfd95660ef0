/** `request_with_retry` of the APD scraper (Data/parser_AMP6_DB.py): up to
    five attempts at one HTTP request, a pause after every failed attempt, and
    a `RuntimeError` chained to the last failure once all five have failed.
    The network is a parameter: `server(a, t)` is what the `a`-th attempt,
    sent with timeout `t`, gives back. */
module Retry {
  import opened Wrappers

  /** The `(connect, read)` timeout pair handed to `session.request`. */
  type Timeout = (int, int)

  /** A response: its HTTP status and its body. */
  datatype Response<R> = Response(status: int, body: R)

  /** What one call of `session.request` gives: a response, or an exception
      raised before any response arrived. */
  datatype Reply<R, E> = Got(response: Response<R>) | Raised(exc: E)

  /** The exception an attempt ends with: `raise_for_status`'s `HTTPError`, or
      whatever the request itself raised. */
  datatype Fault<E> = HttpError(status: int) | Thrown(exc: E)

  /** `RuntimeError("Request failed after retries: <method> <url>")`, raised
      `from` the last fault. */
  datatype GaveUp<E> = GaveUp(verb: string, url: string, cause: Fault<E>)

  const MaxAttempts := 5
  const DefaultTimeout: Timeout := (15, 120)

  /** `kwargs.setdefault("timeout", (15, 120))`: a caller's timeout is kept. */
  function EffectiveTimeout(given: Option<Timeout>): (t: Timeout)
    ensures given.Some? ==> t == given.value
    ensures given.None? ==> t == (15, 120)
  {
    given.GetOr(DefaultTimeout)
  }

  /** `raise_for_status` raises for client (4xx) and server (5xx) errors. */
  predicate IsErrorStatus(status: int) { 400 <= status < 600 }

  /** One attempt: the request followed by `raise_for_status`. */
  function Check<R, E>(reply: Reply<R, E>): Result<Response<R>, Fault<E>> {
    match reply
    case Raised(e) => Failure(Thrown(e))
    case Got(resp) => if IsErrorStatus(resp.status) then Failure(HttpError(resp.status)) else Success(resp)
  }

  /** `min(30, 2 * attempt)`: the pause in whole seconds after a failed
      attempt, before the random jitter is added. */
  function BaseDelay(attempt: nat): nat {
    if 2 * attempt < 30 then 2 * attempt else 30
  }

  /** The pauses after the first `n` failed attempts. */
  function Pauses(n: nat): (p: seq<nat>)
    ensures |p| == n && forall i :: 0 <= i < n ==> p[i] == BaseDelay(i + 1)
  {
    if n == 0 then [] else Pauses(n - 1) + [BaseDelay(n)]
  }

  /** The first attempt in `from..5` that succeeds, or 6 when none does. */
  function FirstSuccess<R, E>(server: (nat, Timeout) -> Reply<R, E>, t: Timeout, from: nat): (k: nat)
    requires 1 <= from <= MaxAttempts + 1
    ensures from <= k <= MaxAttempts + 1
    ensures forall a :: from <= a < k ==> Check(server(a, t)).Failure?
    ensures k <= MaxAttempts ==> Check(server(k, t)).Success?
    decreases MaxAttempts + 1 - from
  {
    if from > MaxAttempts then from
    else if Check(server(from, t)).Success? then from
    else FirstSuccess(server, t, from + 1)
  }

  /** What `request_with_retry` returns or raises: the response of the first
      attempt that succeeds, else the give-up error carrying the fifth fault. */
  function Outcome<R, E>(verb: string, url: string, given: Option<Timeout>,
                         server: (nat, Timeout) -> Reply<R, E>): (r: Result<Response<R>, GaveUp<E>>)
    ensures var t := EffectiveTimeout(given);
      r.Success? <==> exists a :: 1 <= a <= MaxAttempts && Check(server(a, t)).Success?
    ensures var t := EffectiveTimeout(given);
      r.Success? ==> exists a :: 1 <= a <= MaxAttempts && Check(server(a, t)) == Success(r.value)
                                 && forall b :: 1 <= b < a ==> Check(server(b, t)).Failure?
    ensures r.Failure? ==> r.error == GaveUp(verb, url, Check(server(MaxAttempts, EffectiveTimeout(given))).error)
  {
    var t := EffectiveTimeout(given);
    var k := FirstSuccess(server, t, 1);
    if k <= MaxAttempts then Success(Check(server(k, t)).value)
    else Failure(GaveUp(verb, url, Check(server(MaxAttempts, t)).error))
  }

  /** How many attempts fail before the loop returns or gives up. */
  function FailedAttempts<R, E>(given: Option<Timeout>, server: (nat, Timeout) -> Reply<R, E>): (n: nat)
    ensures n <= MaxAttempts
  {
    FirstSuccess(server, EffectiveTimeout(given), 1) - 1
  }

  /** The retry loop.  `made` counts the requests sent and `pauses` lists the
      base pause taken after each failure, the fifth included. */
  method RequestWithRetry<R, E>(verb: string, url: string, given: Option<Timeout>,
                                server: (nat, Timeout) -> Reply<R, E>)
    returns (r: Result<Response<R>, GaveUp<E>>, made: nat, pauses: seq<nat>)
    ensures r == Outcome(verb, url, given, server)
    ensures pauses == Pauses(FailedAttempts(given, server))
    ensures 1 <= made <= MaxAttempts
    ensures r.Success? ==> made == |pauses| + 1
    ensures r.Failure? ==> made == |pauses| == MaxAttempts
    ensures forall i :: 0 <= i < |pauses| ==> pauses[i] == 2 * (i + 1)
  {
    var lastFault: Option<Fault<E>> := None;
    pauses := [];
    made := 0;
    for attempt := 1 to MaxAttempts + 1
      invariant made == attempt - 1 && pauses == Pauses(attempt - 1)
      invariant forall a :: 1 <= a < attempt ==> Check(server(a, EffectiveTimeout(given))).Failure?
      invariant attempt > 1 ==> lastFault == Some(Check(server(attempt - 1, EffectiveTimeout(given))).error)
    {
      var timeout := EffectiveTimeout(given);
      var reply := server(attempt, timeout);
      made := made + 1;
      var checked := Check(reply);
      if checked.Success? {
        r := Success(checked.value);
        return;
      }
      lastFault := Some(checked.error);
      pauses := pauses + [BaseDelay(attempt)];
    }
    r := Failure(GaveUp(verb, url, lastFault.value));
  }
}
