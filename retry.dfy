/** The retry helper of fs/retry.ts. The function being retried is replaced by
    the finite sequence of what its successive calls do, and `sleep(interval)`
    by a count of sleeps (each one of `interval` milliseconds). */
module Retry {
  import opened Wrappers

  /** What a rejected call throws: an object that may carry an inner `error`
      (absent or falsy is None) and a `disable` flag that forbids retrying. */
  datatype Failure<E> = Failure(error: Option<E>, disable: bool)

  /** What one call of the retried function does. */
  datatype Attempt<T, E> = Resolve(value: T) | Fail(failure: Failure<E>)

  /** Why the promise returned by `run` rejects. */
  datatype Rejection<E> =
    | Cause(error: E)             // `e.error`
    | Whole(failure: Failure<E>)  // `e` itself, thrown by `e.error || e` when e.error is falsy
    | Undefined                   // `throw e.error` on a disabled failure without an error
    | Unknow                      // `Promise.reject("unknow")`

  datatype Outcome<T, E> =
    | Resolved(value: T)
    | Rejected(reason: Rejection<E>)
    | OutOfAttempts   // the loop would call again, but the modelled calls are used up

  /** How a run ends, how many calls it made and how many times it slept. */
  datatype Report<T, E> = Report(outcome: Outcome<T, E>, calls: nat, sleeps: nat)

  /** `throw e.error || e`, thrown when the last permitted call fails. */
  function FinalRejection<E>(f: Failure<E>): Rejection<E>
  {
    if f.error.Some? then Cause(f.error.value) else Whole(f)
  }

  /** `throw e.error`, thrown when a disabled failure stops the loop. */
  function DisabledRejection<E>(f: Failure<E>): Rejection<E>
  {
    if f.error.Some? then Cause(f.error.value) else Undefined
  }

  /** The run from the point where `k` calls were made and `n` is the current
      value of `maxTimes` (`-1` means no limit). */
  function RunFrom<T, E>(attempts: seq<Attempt<T, E>>, n: int, k: nat): (rep: Report<T, E>)
    requires k <= |attempts|
    ensures k <= rep.calls <= |attempts|
    decreases |attempts| - k
  {
    if n != -1 && n <= 0 then Report(Rejected(Unknow), k, k)
    else
      var n' := if n == -1 then -1 else n - 1;
      if k == |attempts| then Report(OutOfAttempts, k, k)
      else match attempts[k]
        case Resolve(v) => Report(Resolved(v), k + 1, k)
        case Fail(f) =>
          if n' == 0 then Report(Rejected(FinalRejection(f)), k + 1, k)
          else if f.disable then Report(Rejected(DisabledRejection(f)), k + 1, k)
          else RunFrom(attempts, n', k + 1)
  }

  /** `run(fn, maxTimes, interval)`: the while loop of fs/retry.ts:6-23. */
  method Run<T, E>(attempts: seq<Attempt<T, E>>, maxTimes: int, interval: int)
    returns (r: Outcome<T, E>, calls: nat, sleeps: nat)
    ensures Report(r, calls, sleeps) == RunFrom(attempts, maxTimes, 0)
  {
    var n := maxTimes;
    calls, sleeps := 0, 0;
    while true
      invariant calls <= |attempts| && sleeps == calls
      invariant RunFrom(attempts, n, calls) == RunFrom(attempts, maxTimes, 0)
      decreases |attempts| - calls
    {
      // `maxTimes == -1 || (maxTimes--) > 0`
      if n != -1 {
        var was := n;
        n := n - 1;
        if !(was > 0) {
          break;
        }
      }
      if calls == |attempts| {
        return OutOfAttempts, calls, sleeps;
      }
      var a := attempts[calls];
      calls := calls + 1;
      match a {
        case Resolve(v) =>
          return Resolved(v), calls, sleeps;
        case Fail(f) =>
          if n == 0 {
            return Rejected(FinalRejection(f)), calls, sleeps;
          }
          if f.disable {
            return Rejected(DisabledRejection(f)), calls, sleeps;
          }
      }
      sleeps := sleeps + 1;
    }
    r := Rejected(Unknow);
  }

  /** `retry(fn)`: the defaults are no limit on attempts and no pause. */
  method RetryWithDefaults<T, E>(attempts: seq<Attempt<T, E>>)
    returns (r: Outcome<T, E>, calls: nat, sleeps: nat)
    ensures Report(r, calls, sleeps) == RunFrom(attempts, -1, 0)
    ensures r.Rejected? ==> r.reason != Unknow
  {
    r, calls, sleeps := Run(attempts, -1, 0);
    UnlimitedNeverExhausts(attempts, 0);
  }

  predicate Retryable<T, E>(a: Attempt<T, E>) {
    a.Fail? && !a.failure.disable
  }

  /** Every call before the last one failed in a retryable way, and exactly one
      sleep separates consecutive calls: a success or a disabled failure ends
      the loop at once, with no sleep after it. */
  lemma {:induction false} CallsBeforeLastWereRetryable<T, E>(attempts: seq<Attempt<T, E>>, n: int, k: nat)
    requires k <= |attempts|
    requires forall i :: 0 <= i < k ==> Retryable(attempts[i])
    ensures var rep := RunFrom(attempts, n, k);
      && k <= rep.calls <= |attempts|
      && (forall i :: 0 <= i < rep.calls - 1 ==> Retryable(attempts[i]))
      && (rep.outcome.Resolved? ==> rep.calls > 0 && attempts[rep.calls - 1] == Resolve(rep.outcome.value))
      && (rep.outcome.Resolved? || (rep.outcome.Rejected? && rep.outcome.reason != Unknow) ==> rep.sleeps + 1 == rep.calls)
      && (rep.outcome.OutOfAttempts? || rep.outcome == Rejected(Unknow) ==> rep.sleeps == rep.calls)
    decreases |attempts| - k
  {
    if n != -1 && n <= 0 {
    } else if k < |attempts| && Retryable(attempts[k]) && !(n != -1 && n - 1 == 0) {
      CallsBeforeLastWereRetryable(attempts, if n == -1 then -1 else n - 1, k + 1);
    }
  }

  /** `retry` returns the value of the first successful call, when every
      earlier call failed in a retryable way and the limit allows reaching it. */
  lemma {:induction false} ReturnsFirstSuccess<T, E>(attempts: seq<Attempt<T, E>>, n: int, k: nat, j: nat)
    requires k <= j < |attempts| && attempts[j].Resolve?
    requires forall i :: k <= i < j ==> Retryable(attempts[i])
    requires n == -1 || j - k < n
    ensures RunFrom(attempts, n, k) == Report(Resolved(attempts[j].value), j + 1, j)
    decreases j - k
  {
    if k < j {
      ReturnsFirstSuccess(attempts, if n == -1 then -1 else n - 1, k + 1, j);
    }
  }

  /** With `maxTimes = n >= 1` the function is called at most n times. */
  lemma {:induction false} CallsAtMostMaxTimes<T, E>(attempts: seq<Attempt<T, E>>, n: int, k: nat)
    requires k <= |attempts| && n >= 0
    ensures RunFrom(attempts, n, k).calls <= k + n
    decreases |attempts| - k
  {
    if n > 0 && k < |attempts| && attempts[k].Fail? && n - 1 != 0 && !attempts[k].failure.disable {
      CallsAtMostMaxTimes(attempts, n - 1, k + 1);
    }
  }

  /** With `maxTimes = -1` retryable failures never use the loop up: it ends
      only with a success, a disabled failure, or when the modelled calls run out. */
  lemma {:induction false} UnlimitedNeverExhausts<T, E>(attempts: seq<Attempt<T, E>>, k: nat)
    requires k <= |attempts|
    ensures var rep := RunFrom(attempts, -1, k);
      rep.outcome.Rejected? ==>
        rep.calls > 0 && attempts[rep.calls - 1].Fail? && attempts[rep.calls - 1].failure.disable
        && rep.outcome.reason == DisabledRejection(attempts[rep.calls - 1].failure)
    decreases |attempts| - k
  {
    if k < |attempts| && Retryable(attempts[k]) {
      UnlimitedNeverExhausts(attempts, k + 1);
    }
  }

  /** When the n-th permitted call fails, the loop throws `e.error || e`
      without sleeping again, whatever its `disable` flag says. */
  lemma {:induction false} LastPermittedFailureThrows<T, E>(attempts: seq<Attempt<T, E>>, n: int, k: nat)
    requires n >= 1 && k + n <= |attempts|
    requires forall i :: k <= i < k + n - 1 ==> Retryable(attempts[i])
    requires attempts[k + n - 1].Fail?
    ensures RunFrom(attempts, n, k)
      == Report(Rejected(FinalRejection(attempts[k + n - 1].failure)), k + n, k + n - 1)
    decreases n
  {
    if n > 1 {
      LastPermittedFailureThrows(attempts, n - 1, k + 1);
    }
  }

  /** A disabled failure before the last permitted call stops the loop at once
      with `e.error`: no further call and no sleep. */
  lemma DisabledFailureStops<T, E>(attempts: seq<Attempt<T, E>>, n: int, k: nat)
    requires k < |attempts| && attempts[k].Fail? && attempts[k].failure.disable
    requires n == -1 || n > 1
    ensures RunFrom(attempts, n, k)
      == Report(Rejected(DisabledRejection(attempts[k].failure)), k + 1, k)
  {
  }

  /** `maxTimes = 0` rejects with "unknow" without calling the function. */
  lemma ZeroTimesCallsNothing<T, E>(attempts: seq<Attempt<T, E>>)
    ensures RunFrom(attempts, 0, 0) == Report(Rejected(Unknow), 0, 0)
  {
  }

  /** `retry(fn, 3, 10)` where fn fails twice and then succeeds returns the
      success after two sleeps. */
  lemma TwoFailuresThenSuccess<T, E>(v: T, f1: Failure<E>, f2: Failure<E>)
    requires !f1.disable && !f2.disable
    ensures RunFrom([Fail(f1), Fail(f2), Resolve(v)], 3, 0) == Report(Resolved(v), 3, 2)
  {
    ReturnsFirstSuccess([Fail(f1), Fail(f2), Resolve(v)], 3, 0, 2);
  }

}
