/**
 The retry loop around a block-source call: exponential backoff within a budget,
 waiting in slices so that an exit flag is seen. Times are in milliseconds.
 */
module Retry {
  import opened Bytes

  const INITIAL_DELAY := 1_000
  const RPC_RETRY_MAX_DELAY := 30_000
  const SLICE := 250
  const RETRY_BUDGET_INDEXING := 300_000
  const RETRY_BUDGET_QUERY := 10_000

  /**
   What the loop meets: the i-th call's result and how long it takes, how much the i-th
   sleep overshoots, what passes before the i-th clock reading, and the i-th poll of the
   exit flag. Time never runs backwards; nothing else is assumed.
   */
  datatype World<!T> = World(
    outcome: nat -> Option<T>,
    callTime: nat -> nat,
    oversleep: nat -> nat,
    drift: nat -> nat,
    exit: nat -> bool)

  /** Sleeps end on time, and readings cost nothing. */
  ghost predicate Ideal<T>(w: World<T>) {
    forall i :: w.oversleep(i) == 0 && w.drift(i) == 0
  }

  ghost predicate CallsWithin<T>(w: World<T>, c: nat) {
    forall i :: w.callTime(i) <= c
  }

  datatype Ending<T> = Value(value: T) | StillFailing | Interrupted

  /** The wait after the i-th failed call. */
  function Delay(i: nat): (d: nat)
    ensures INITIAL_DELAY <= d <= RPC_RETRY_MAX_DELAY
  {
    if i == 0 then INITIAL_DELAY else Min(Delay(i - 1) * 2, RPC_RETRY_MAX_DELAY)
  }

  /** The first k waits together. */
  function Waited(k: nat): nat {
    if k == 0 then 0 else Waited(k - 1) + Delay(k - 1)
  }

  /** The first k calls together. */
  function Called<T>(w: World<T>, k: nat): nat {
    if k == 0 then 0 else Called(w, k - 1) + w.callTime(k - 1)
  }

  lemma WaitedGrows(j: nat, k: nat)
    requires j <= k
    ensures Waited(j) <= Waited(k)
  {
    if j == k {
    } else {
      WaitedGrows(j, k - 1);
    }
  }

  lemma WaitedUnfolds(k: nat)
    ensures Waited(k) == if k == 0 then 0 else Waited(k - 1) + Delay(k - 1)
    ensures Delay(k) == if k == 0 then INITIAL_DELAY else Min(Delay(k - 1) * 2, RPC_RETRY_MAX_DELAY)
  {
  }

  lemma CalledUnfolds<T>(w: World<T>, k: nat)
    ensures Called(w, k) == if k == 0 then 0 else Called(w, k - 1) + w.callTime(k - 1)
    ensures k > 0 ==> forall c: nat :: CallsWithin(w, c) ==> w.callTime(k - 1) <= c
  {
  }

  lemma IdealDrift<T>(w: World<T>)
    ensures Ideal(w) ==> forall i: nat :: w.drift(i) == 0
  {
  }

  /** The inner loop: poll, read, sleep a slice, until the wait is over. */
  method Wait<T>(w: World<T>, from: nat, delay: nat, polls0: nat, readings0: nat, sleeps0: nat)
    returns (interrupted: bool, now: nat, polls: nat, readings: nat, sleeps: nat)
    ensures !interrupted ==> now >= from + delay
    // the flag is polled before anything else, and after every slice; the first poll that finds it set ends the wait
    ensures polls > polls0 && (interrupted <==> w.exit(polls - 1))
    ensures forall i :: polls0 <= i < polls - 1 ==> !w.exit(i)
    ensures w.exit(polls0) ==> interrupted && now == from
    ensures Ideal(w) ==> now <= from + 250 * (polls - 1 - polls0)
    ensures Ideal(w) ==> now <= from + delay && (!interrupted ==> now == from + delay)
    ensures now >= from
  {
    now, polls, readings, sleeps := from, polls0, readings0, sleeps0;
    interrupted := false;
    var until := now + delay;
    while true
      invariant now >= from && (Ideal(w) ==> now <= until && now <= from + SLICE * (polls - polls0))
      invariant polls >= polls0 && forall i :: polls0 <= i < polls ==> !w.exit(i)
      invariant polls == polls0 ==> now == from
      decreases until - now
    {
      polls := polls + 1;
      if w.exit(polls - 1) {
        interrupted := true;
        return;
      }
      now := now + w.drift(readings);
      readings := readings + 1;
      if now >= until {
        return;
      }
      now := now + Min(SLICE, until - now) + w.oversleep(sleeps);
      sleeps := sleeps + 1;
    }
  }

  method RetryRpc<T>(w: World<T>, start: nat, budget: nat) returns (r: Ending<T>, calls: nat, polls: nat, end: nat)
    // every call but the last failed, and the last decided the ending
    ensures calls >= 1 && forall i :: 0 <= i < calls - 1 ==> w.outcome(i).None?
    ensures match r case Value(v) => w.outcome(calls - 1) == Some(v) case _ => w.outcome(calls - 1).None?
    // interrupted exactly when the last poll of the exit flag found it set, and each wait polls it at once
    ensures r.Interrupted? <==> polls > 0 && w.exit(polls - 1)
    ensures forall i :: 0 <= i < polls - 1 ==> !w.exit(i)
    ensures polls >= calls - (if r.Interrupted? then 0 else 1)
    ensures w.exit(0) ==> calls == 1
    // never more calls than the waits leave room for, and no giving up early
    ensures forall k: nat :: Waited(k) >= budget ==> calls <= k + 1
    ensures r.StillFailing? ==> end >= start + budget
    // with ideal sleeps the time is accounted for exactly, and bounded by the longest call
    ensures Ideal(w) && !r.Interrupted? ==> end == start + Waited(calls - 1) + Called(w, calls)
    ensures forall c: nat :: Ideal(w) && CallsWithin(w, c) ==> end <= start + budget + RPC_RETRY_MAX_DELAY + c
  {
    hide Delay, Waited, Called, Ideal, CallsWithin;
    WaitedUnfolds(0);
    CalledUnfolds(w, 0);
    IdealDrift(w);
    polls := 0;
    var readings, sleeps := 1, 0;
    var now := start + w.drift(0);
    ghost var base := now;
    var deadline := now + budget;
    var delay := INITIAL_DELAY;
    calls := 0;
    while true
      invariant delay == Delay(calls) && base == deadline - budget && base >= start && now >= base
      invariant forall i :: 0 <= i < calls ==> w.outcome(i).None?
      invariant polls >= calls && forall i :: 0 <= i < polls ==> !w.exit(i)
      invariant now >= base + Waited(calls)
      invariant calls > 0 ==> Waited(calls - 1) < budget
      invariant Ideal(w) ==> base == start && now == start + Waited(calls) + Called(w, calls)
      invariant Ideal(w) && calls > 0 ==> now < deadline + RPC_RETRY_MAX_DELAY
      decreases deadline - now
    {
      WaitedUnfolds(calls + 1);
      CalledUnfolds(w, calls + 1);
      IdealDrift(w);
      now := now + w.callTime(calls);
      var outcome := w.outcome(calls);
      calls := calls + 1;
      FewCalls(calls, budget);
      if outcome.Some? {
        return Value(outcome.value), calls, polls, now;
      }
      now := now + w.drift(readings);
      if now >= deadline {
        return StillFailing, calls, polls, now;
      }
      now := now + w.drift(readings + 1);
      var interrupted;
      interrupted, now, polls, readings, sleeps := Wait(w, now, delay, polls, readings + 2, sleeps);
      if interrupted {
        return Interrupted, calls, polls, now;
      }
      delay := Min(delay * 2, RPC_RETRY_MAX_DELAY);
    }
  }

  lemma FewCalls(calls: nat, budget: nat)
    requires calls >= 1 && (calls > 1 ==> Waited(calls - 2) < budget)
    ensures forall k: nat :: Waited(k) >= budget ==> calls <= k + 1
  {
    forall k: nat | Waited(k) >= budget
      ensures calls <= k + 1
    {
      if k + 1 < calls {
        WaitedGrows(k, calls - 2);
      }
    }
  }

  /** The two budgets in calls: at most fifteen while indexing, at most five while serving. */
  lemma BudgetsInCalls()
    ensures Waited(13) < RETRY_BUDGET_INDEXING <= Waited(14)
    ensures Waited(3) < RETRY_BUDGET_QUERY <= Waited(4)
  {
    assert Delay(4) == 16_000;
    assert Delay(5) == 30_000 && Waited(5) == 31_000;
    assert Delay(8) == 30_000 && Waited(8) == 121_000;
    assert Delay(11) == 30_000 && Waited(11) == 211_000;
    assert Delay(14) == 30_000 && Waited(14) == 301_000;
  }
}
