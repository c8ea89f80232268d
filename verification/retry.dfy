/**
 * The outer retry loop of `make_request`: up to `max_retries` GET attempts,
 * stopping at the first success, sleeping `2^attempt` after every failed
 * attempt but the last. Network outcomes are supplied as a sequence, one per
 * attempt; attempts past the end of the sequence fail.
 */
module Retry {
  import opened Wrappers

  /** The default `max_retries` of `make_request`. */
  const MaxRetries: int := 5

  /** What one attempt did: returned a response or raised a request exception. */
  datatype Attempt<R> = Succeeded(response: R) | Failed

  /** The observable run of the loop: the response returned, how many attempts were made, and the sleeps taken. */
  datatype RequestRun<R> = RequestRun(response: Option<R>, attempts: nat, delays: seq<nat>)

  /** The outcome of attempt `i`; attempts the sequence does not cover fail. */
  function AttemptAt<R>(outcomes: seq<Attempt<R>>, i: nat): Attempt<R> {
    if i < |outcomes| then outcomes[i] else Failed
  }

  /** Python's `range(n)` length: a non-positive bound makes no iterations. */
  function Iterations(n: int): nat {
    if n <= 0 then 0 else n
  }

  function Pow2(n: nat): (r: nat)
    ensures r >= 1
  {
    if n == 0 then 1 else 2 * Pow2(n - 1)
  }

  /** The backoff sleeps after failed attempts 0 .. n-1: `[2^0, .., 2^(n-1)]`. */
  function Backoffs(n: nat): (r: seq<nat>)
    ensures |r| == n
    ensures forall i :: 0 <= i < n ==> r[i] == Pow2(i)
  {
    if n == 0 then [] else Backoffs(n - 1) + [Pow2(n - 1)]
  }

  function Sum(xs: seq<nat>): nat {
    if |xs| == 0 then 0 else Sum(xs[..|xs| - 1]) + xs[|xs| - 1]
  }

  /** The index of the first successful attempt among the first `limit`, if any. */
  function FirstSuccess<R>(outcomes: seq<Attempt<R>>, limit: nat): (r: Option<nat>)
    ensures r.Some? ==> r.value < limit && AttemptAt(outcomes, r.value).Succeeded?
    ensures r.Some? ==> forall j :: 0 <= j < r.value ==> AttemptAt(outcomes, j).Failed?
    ensures r.None? ==> forall j :: 0 <= j < limit ==> AttemptAt(outcomes, j).Failed?
  {
    if limit == 0 then None
    else match FirstSuccess(outcomes, limit - 1)
      case Some(k) => Some(k)
      case None => if AttemptAt(outcomes, limit - 1).Succeeded? then Some(limit - 1) else None
  }

  /**
   * What `make_request(url, max_retries)` does, given the attempt outcomes:
   * the first success is returned after that many attempts; if every attempt
   * fails, None is returned after all `max_retries` of them; a non-positive
   * `max_retries` makes no attempt and returns None. A sleep of `2^i` follows
   * each failed attempt `i` except the final one, so there is one sleep fewer
   * than attempts.
   */
  function Fetch<R>(outcomes: seq<Attempt<R>>, maxRetries: int): (run: RequestRun<R>)
    ensures run.attempts <= Iterations(maxRetries)
    ensures maxRetries <= 0 ==> run == RequestRun(None, 0, [])
    ensures run.response.Some? <==>
              exists j :: 0 <= j < maxRetries && AttemptAt(outcomes, j).Succeeded?
    ensures run.response.Some? ==>
              run.attempts >= 1 && AttemptAt(outcomes, run.attempts - 1) == Succeeded(run.response.value)
    ensures forall j :: 0 <= j < run.attempts - 1 ==> AttemptAt(outcomes, j).Failed?
    ensures run.response.None? ==> run.attempts == Iterations(maxRetries)
    ensures |run.delays| == if run.attempts == 0 then 0 else run.attempts - 1
    ensures forall i :: 0 <= i < |run.delays| ==> run.delays[i] == Pow2(i)
  {
    var n := Iterations(maxRetries);
    match FirstSuccess(outcomes, n)
    case Some(k) => RequestRun(Some(AttemptAt(outcomes, k).response), k + 1, Backoffs(k))
    case None => RequestRun(None, n, Backoffs(if n == 0 then 0 else n - 1))
  }

  /** When attempt `k` is the first to succeed within the retry budget, the loop returns its response after `k + 1` attempts. */
  lemma FetchFirstSuccess<R>(outcomes: seq<Attempt<R>>, maxRetries: int, k: nat)
    requires k < maxRetries
    requires AttemptAt(outcomes, k).Succeeded?
    requires forall j :: 0 <= j < k ==> AttemptAt(outcomes, j).Failed?
    ensures Fetch(outcomes, maxRetries).response == Some(AttemptAt(outcomes, k).response)
    ensures Fetch(outcomes, maxRetries).attempts == k + 1
  {
    var r := FirstSuccess(outcomes, Iterations(maxRetries));
    assert r.Some?;
    assert r.value == k;
  }

  /** The `for attempt in range(max_retries)` loop itself, computing the same run as `Fetch`. */
  method MakeRequest<R>(outcomes: seq<Attempt<R>>, maxRetries: int) returns (run: RequestRun<R>)
    ensures run == Fetch(outcomes, maxRetries)
  {
    var attempt: nat := 0;
    var delays: seq<nat> := [];
    while attempt < maxRetries
      invariant attempt <= Iterations(maxRetries)
      invariant maxRetries > 0 ==> attempt < maxRetries
      invariant forall j :: 0 <= j < attempt ==> AttemptAt(outcomes, j).Failed?
      invariant delays == Backoffs(attempt)
      decreases maxRetries - attempt
    {
      match AttemptAt(outcomes, attempt)
      case Succeeded(response) =>
        return RequestRun(Some(response), attempt + 1, delays);
      case Failed =>
        if attempt == maxRetries - 1 {
          return RequestRun(None, attempt + 1, delays);
        }
        delays := delays + [Pow2(attempt)];
        attempt := attempt + 1;
    }
    run := RequestRun(None, attempt, delays);
  }

  /** The sleeps `1, 2, .., 2^(n-1)` add up to `2^n - 1`. */
  lemma {:induction false} BackoffTotal(n: nat)
    ensures Sum(Backoffs(n)) == Pow2(n) - 1
  {
    if n > 0 {
      BackoffTotal(n - 1);
      assert Backoffs(n)[..n - 1] == Backoffs(n - 1);
    }
  }

  /** With the default of five retries: at most five attempts and at most 15 time units of backoff. */
  lemma DefaultRetryBounds<R>(outcomes: seq<Attempt<R>>)
    ensures Fetch(outcomes, MaxRetries).attempts <= 5
    ensures Sum(Fetch(outcomes, MaxRetries).delays) <= 15
  {
    var run := Fetch(outcomes, MaxRetries);
    var d := |run.delays|;
    assert run.delays == Backoffs(d);
    BackoffTotal(d);
    PowMonotone(d, 4);
  }

  lemma {:induction false} PowMonotone(a: nat, b: nat)
    requires a <= b
    ensures Pow2(a) <= Pow2(b)
    decreases b
  {
    if a < b {
      PowMonotone(a, b - 1);
    }
  }
}
