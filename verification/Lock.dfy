/** Taking the store's file lock: try without blocking, sleep, try again, and give up once the
    deadline has passed. What the other processes and the clock do is a parameter. Times are
    milliseconds. */
module FileLock {
  import opened Wrappers

  const RETRY_INTERVAL: int := 50

  /** At attempt i the lock is held by somebody else or not; after a failed attempt the clock
      reads `clock(i)`, and a sleep separates two attempts. */
  datatype Surroundings = Surroundings(held: nat -> bool, clock: nat -> int)

  ghost predicate SleepsBetween(s: Surroundings) {
    forall i: nat :: s.clock(i) + RETRY_INTERVAL <= s.clock(i + 1)
  }

  /** Attempt n is made: all earlier ones failed by the deadline. */
  ghost predicate Reached(s: Surroundings, deadline: int, n: nat) {
    forall i: nat :: i < n ==> s.held(i) && s.clock(i) <= deadline
  }

  ghost predicate Succeeds(s: Surroundings, deadline: int, n: nat) {
    Reached(s, deadline, n) && !s.held(n)
  }

  ghost predicate GivesUp(s: Surroundings, deadline: int, n: nat) {
    Reached(s, deadline, n) && s.held(n) && s.clock(n) > deadline
  }

  ghost predicate StaysBusy(s: Surroundings, deadline: int) {
    exists n: nat :: GivesUp(s, deadline, n)
  }

  /** An attempt that succeeds and one that gives up cannot both be reached, and neither
      happens twice. */
  lemma OutcomeIsUnique(s: Surroundings, deadline: int, m: nat, n: nat)
    requires Succeeds(s, deadline, m) || GivesUp(s, deadline, m)
    requires Succeeds(s, deadline, n) || GivesUp(s, deadline, n)
    ensures m == n
  {
  }

  /** The attempt that got the lock, or nothing when the lock stayed busy. */
  method AcquireFlock(s: Surroundings, start: int, timeout: nat) returns (r: Option<nat>)
    requires start <= s.clock(0) && SleepsBetween(s)
    ensures forall n: nat :: r == Some(n) <==> Succeeds(s, start + timeout, n)
    ensures r.None? <==> StaysBusy(s, start + timeout)
  {
    var deadline := start + timeout;
    var i: nat := 0;
    while true
      invariant Reached(s, deadline, i)
      invariant s.clock(i) >= start + i * RETRY_INTERVAL
      decreases timeout + RETRY_INTERVAL - i * RETRY_INTERVAL
    {
      if !s.held(i) {
        OnlyOutcome(s, deadline, i);
        return Some(i);
      }
      if s.clock(i) > deadline {
        OnlyOutcome(s, deadline, i);
        return None;
      }
      i := i + 1;
    }
  }

  lemma OnlyOutcome(s: Surroundings, deadline: int, m: nat)
    requires Succeeds(s, deadline, m) || GivesUp(s, deadline, m)
    ensures forall n: nat :: Succeeds(s, deadline, n) || GivesUp(s, deadline, n) ==> n == m
  {
    forall n: nat | Succeeds(s, deadline, n) || GivesUp(s, deadline, n) ensures n == m {
      OutcomeIsUnique(s, deadline, m, n);
    }
  }

  lemma {:induction false} ClockAdvances(s: Surroundings, i: nat)
    requires SleepsBetween(s)
    ensures s.clock(i) >= s.clock(0) + i * RETRY_INTERVAL
  {
    if i > 0 {
      ClockAdvances(s, i - 1);
    }
  }

  /** However busy the lock is, at most one attempt per interval of the timeout is made,
      and two more. */
  lemma AttemptsAreBounded(s: Surroundings, start: int, timeout: nat, n: nat)
    requires start <= s.clock(0) && SleepsBetween(s) && Reached(s, start + timeout, n)
    ensures n <= timeout / 50 + 1
  {
    if n > 0 {
      ClockAdvances(s, n - 1);
    }
  }
}
