/**
 * The retry-with-exponential-backoff runner (`scrape_with_retry`).
 *
 * The runner calls the engine up to `maxRetries` times. A success is returned
 * at once; a failure is followed by a wait of `delay` seconds and a doubling
 * of `delay`, except after the last attempt, where the exception is re-raised.
 * With no attempts at all the runner falls off the end of its loop and returns
 * `None`.
 *
 * `ScrapeWithRetry` is the loop itself; `RetryRun` states its behaviour in
 * closed form, and the lemmas below derive attempt counts and waits from it.
 */
module Retry {
  import opened Trace

  /** How the runner ends: it returns a payload, re-raises the last failure,
      or returns `None` when its loop never ran. */
  datatype RunResult<+V, +E> = Returned(value: V) | Raised(error: E) | ReturnedNone

  /** 2 raised to the power `i`. */
  function Pow2(i: nat): (r: nat)
    ensures r >= 1
  {
    if i == 0 then 1 else 2 * Pow2(i - 1)
  }

  /** The events of `done` attempts that each failed and were each followed by
      their backoff wait: attempt `j` (1-based) waits `delay * 2^(j-1)` seconds. */
  function RetryPrefix<V>(url: string, delay: nat, done: nat): seq<Event<V>>
  {
    if done == 0 then []
    else RetryPrefix(url, delay, done - 1) + [Call(url, done), Sleep(delay * Pow2(done - 1))]
  }

  /** The events of a run that made exactly `k` attempts: `k - 1` failed
      attempts with their waits, then the final attempt with no wait after it. */
  function AttemptTrace<V>(url: string, delay: nat, k: nat): seq<Event<V>>
    requires k >= 1
  {
    RetryPrefix(url, delay, k - 1) + [Call(url, k)]
  }

  /** The index of the first success among the first `n` outcomes, or `n` when
      all of them are failures. */
  function FirstSuccess<V, E>(outcomes: seq<Outcome<V, E>>, n: nat): (k: nat)
    requires n <= |outcomes|
    ensures k <= n
    ensures forall j :: 0 <= j < k ==> outcomes[j].Failure?
    ensures k < n ==> outcomes[k].Success?
  {
    if n == 0 then 0
    else
      var k := FirstSuccess(outcomes, n - 1);
      if k < n - 1 then k
      else if outcomes[n - 1].Success? then n - 1
      else n
  }

  /** What the runner does, in closed form: the result it ends with and the
      trace of engine calls and waits it leaves behind. `outcomes[j]` is what
      attempt `j + 1` would produce. */
  function RetryRun<V, E>(url: string, outcomes: seq<Outcome<V, E>>, maxRetries: int, delay: nat)
    : (run: (RunResult<V, E>, seq<Event<V>>))
    requires maxRetries <= |outcomes|
    ensures run.0.ReturnedNone? <==> maxRetries <= 0
    ensures run.0.ReturnedNone? ==> run.1 == []
    ensures maxRetries >= 1 ==>
      (run.0.Raised? <==> forall j :: 0 <= j < maxRetries ==> outcomes[j].Failure?)
    ensures run.0.Raised? ==> run.0.error == outcomes[maxRetries - 1].error
    ensures run.0.Returned? ==> exists j :: 0 <= j < maxRetries && outcomes[j] == Success(run.0.value)
  {
    if maxRetries <= 0 then (ReturnedNone, [])
    else
      var k := FirstSuccess(outcomes, maxRetries);
      if k < maxRetries then (Returned(outcomes[k].value), AttemptTrace(url, delay, k + 1))
      else (Raised(outcomes[maxRetries - 1].error), AttemptTrace(url, delay, maxRetries))
  }

  /** The runner: `for attempt in range(maxRetries)`, an engine call per
      iteration, and on failure either a backoff wait followed by doubling the
      delay or, on the last attempt, re-raising the failure. */
  method ScrapeWithRetry<V, E>(url: string, outcomes: seq<Outcome<V, E>>, maxRetries: int, delay0: nat)
    returns (result: RunResult<V, E>, trace: seq<Event<V>>)
    requires maxRetries <= |outcomes|
    ensures (result, trace) == RetryRun(url, outcomes, maxRetries, delay0)
  {
    trace := [];
    var delay := delay0;
    var attempt := 0;
    while attempt < maxRetries
      invariant 0 <= attempt <= |outcomes|
      invariant if maxRetries >= 1 then attempt < maxRetries else attempt == 0
      invariant delay == delay0 * Pow2(attempt)
      invariant trace == RetryPrefix(url, delay0, attempt)
      invariant forall j :: 0 <= j < attempt ==> outcomes[j].Failure?
      decreases maxRetries - attempt
    {
      trace := trace + [Call(url, attempt + 1)];
      match outcomes[attempt] {
        case Success(v) =>
          result := Returned(v);
          return;
        case Failure(e) =>
          if attempt < maxRetries - 1 {
            trace := trace + [Sleep(delay)];
            delay := delay * 2;
          } else {
            result := Raised(e);
            return;
          }
      }
      attempt := attempt + 1;
    }
    result := ReturnedNone;
  }

  /** The projections of one failed attempt `done` followed by its wait. */
  lemma RetryStep<V>(url: string, delay: nat, done: nat)
    requires done >= 1
    ensures var step: seq<Event<V>> := [Call(url, done), Sleep(delay * Pow2(done - 1))];
      && Attempts(step) == [done] && Sleeps(step) == [delay * Pow2(done - 1)]
      && Started(step) == (if done == 1 then [url] else []) && SavedNames(step) == []
  {
    var call: Event<V> := Call(url, done);
    var wait: Event<V> := Sleep(delay * Pow2(done - 1));
    ProjectionsAppend([call], [wait]);
    ProjectionsOne(call);
    ProjectionsOne(wait);
    assert [call] + [wait] == [call, wait];
  }

  /** The trace of `done` failed attempts: calls numbered 1..done, each
      followed by a wait, and wait `j` (0-based) lasts `delay * 2^j`. */
  lemma {:induction false} RetryPrefixMeasure<V>(url: string, delay: nat, done: nat)
    ensures |Attempts(RetryPrefix<V>(url, delay, done))| == done
    ensures forall j :: 0 <= j < done ==> Attempts(RetryPrefix<V>(url, delay, done))[j] == j + 1
    ensures |Sleeps(RetryPrefix<V>(url, delay, done))| == done
    ensures forall j :: 0 <= j < done ==> Sleeps(RetryPrefix<V>(url, delay, done))[j] == delay * Pow2(j)
    ensures Started(RetryPrefix<V>(url, delay, done)) == if done == 0 then [] else [url]
    ensures SavedNames(RetryPrefix<V>(url, delay, done)) == []
  {
    if done > 0 {
      var before := RetryPrefix<V>(url, delay, done - 1);
      var step: seq<Event<V>> := [Call(url, done), Sleep(delay * Pow2(done - 1))];
      assert RetryPrefix<V>(url, delay, done) == before + step;
      RetryPrefixMeasure<V>(url, delay, done - 1);
      ProjectionsAppend(before, step);
      RetryStep<V>(url, delay, done);
      var attempts, sleeps := Attempts(before), Sleeps(before);
      assert Attempts(before + step) == attempts + [done];
      assert Sleeps(before + step) == sleeps + [delay * Pow2(done - 1)];
    }
  }

  /** A run of `k` attempts calls the engine exactly `k` times, numbered 1..k,
      waits exactly `k - 1` times, wait `j` lasts `delay * 2^j`, ends with the
      final attempt (no wait after it) and saves nothing. */
  lemma AttemptTraceMeasure<V>(url: string, delay: nat, k: nat)
    requires k >= 1
    ensures |Attempts(AttemptTrace<V>(url, delay, k))| == k
    ensures forall j :: 0 <= j < k ==> Attempts(AttemptTrace<V>(url, delay, k))[j] == j + 1
    ensures |Sleeps(AttemptTrace<V>(url, delay, k))| == k - 1
    ensures forall j :: 0 <= j < k - 1 ==> Sleeps(AttemptTrace<V>(url, delay, k))[j] == delay * Pow2(j)
    ensures AttemptTrace<V>(url, delay, k)[|AttemptTrace<V>(url, delay, k)| - 1] == Call(url, k)
    ensures Started(AttemptTrace<V>(url, delay, k)) == [url]
    ensures SavedNames(AttemptTrace<V>(url, delay, k)) == []
  {
    var prefix := RetryPrefix<V>(url, delay, k - 1);
    var call: Event<V> := Call(url, k);
    RetryPrefixMeasure<V>(url, delay, k - 1);
    ProjectionsAppend(prefix, [call]);
    ProjectionsOne(call);
  }

  /** Each backoff wait is twice the one before it. */
  lemma WaitDoubles(delay: nat, j: nat)
    requires j >= 1
    ensures delay * Pow2(j) == 2 * (delay * Pow2(j - 1))
  {
    assert Pow2(j) == 2 * Pow2(j - 1);
  }

  /** Exponential backoff: in a run of `k` attempts every wait after the
      first lasts twice as long as the one before it. */
  lemma BackoffDoubles<V>(url: string, delay: nat, k: nat)
    requires k >= 1
    ensures |Sleeps(AttemptTrace<V>(url, delay, k))| == k - 1
    ensures forall j :: 0 < j < k - 1 ==>
      Sleeps(AttemptTrace<V>(url, delay, k))[j] == 2 * Sleeps(AttemptTrace<V>(url, delay, k))[j - 1]
  {
    AttemptTraceMeasure<V>(url, delay, k);
    var sleeps := Sleeps(AttemptTrace<V>(url, delay, k));
    forall j | 0 < j < k - 1 ensures sleeps[j] == 2 * sleeps[j - 1] {
      WaitDoubles(delay, j);
    }
  }

  /** When every one of `n >= 1` attempts fails, the runner makes exactly `n`
      attempts, re-raises the last failure, and waits `n - 1` times with the
      geometric delays, with no wait after the final attempt. */
  lemma AllAttemptsFail<V, E>(url: string, outcomes: seq<Outcome<V, E>>, n: nat, delay: nat)
    requires 1 <= n <= |outcomes|
    requires forall j :: 0 <= j < n ==> outcomes[j].Failure?
    ensures RetryRun(url, outcomes, n, delay).0 == Raised(outcomes[n - 1].error)
    ensures |Attempts(RetryRun(url, outcomes, n, delay).1)| == n
    ensures forall j :: 0 <= j < n ==> Attempts(RetryRun(url, outcomes, n, delay).1)[j] == j + 1
    ensures |Sleeps(RetryRun(url, outcomes, n, delay).1)| == n - 1
    ensures forall j :: 0 <= j < n - 1 ==> Sleeps(RetryRun(url, outcomes, n, delay).1)[j] == delay * Pow2(j)
    ensures RetryRun(url, outcomes, n, delay).1 == AttemptTrace(url, delay, n)
  {
    AttemptTraceMeasure<V>(url, delay, n);
  }

  /** When attempt `k` (1-based, within the budget) is the first success, the
      runner returns that attempt's payload, makes no attempt after `k`, and
      has waited exactly `k - 1` times. */
  lemma FirstSuccessReturned<V, E>(url: string, outcomes: seq<Outcome<V, E>>, n: nat, delay: nat, k: nat)
    requires 1 <= k <= n <= |outcomes|
    requires outcomes[k - 1].Success?
    requires forall j :: 0 <= j < k - 1 ==> outcomes[j].Failure?
    ensures RetryRun(url, outcomes, n, delay).0 == Returned(outcomes[k - 1].value)
    ensures |Attempts(RetryRun(url, outcomes, n, delay).1)| == k
    ensures forall j :: 0 <= j < k ==> Attempts(RetryRun(url, outcomes, n, delay).1)[j] == j + 1
    ensures |Sleeps(RetryRun(url, outcomes, n, delay).1)| == k - 1
    ensures forall j :: 0 <= j < k - 1 ==> Sleeps(RetryRun(url, outcomes, n, delay).1)[j] == delay * Pow2(j)
    ensures RetryRun(url, outcomes, n, delay).1 == AttemptTrace(url, delay, k)
  {
    AttemptTraceMeasure<V>(url, delay, k);
  }

  /** The script's default policy (3 attempts, initial delay 5): fail, fail,
      succeed gives three attempts, waits of 5 s and then 10 s, and the third
      attempt's payload. */
  lemma DefaultPolicyFailFailSucceed<V, E>(url: string, e1: E, e2: E, v: V)
    ensures RetryRun(url, [Failure(e1), Failure(e2), Success(v)], 3, 5).0 == Returned(v)
    ensures Attempts(RetryRun(url, [Failure(e1), Failure(e2), Success(v)], 3, 5).1) == [1, 2, 3]
    ensures Sleeps(RetryRun(url, [Failure(e1), Failure(e2), Success(v)], 3, 5).1) == [5, 10]
  {
    var outcomes: seq<Outcome<V, E>> := [Failure(e1), Failure(e2), Success(v)];
    FirstSuccessReturned(url, outcomes, 3, 5, 3);
    assert Pow2(1) == 2;
  }
}
