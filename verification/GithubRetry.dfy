/** The bounded retry loop around one GitHub read (`run_gh`). */
module GithubRetry {

  /** How one attempt ends. `listData` says that the output parses to a JSON list and
      `transientText` that the error pattern matches the outputs. */
  datatype Outcome =
    | Completed(returncode: int, listData: bool, transientText: bool)
    | Expired
    | Deadline
    | OsFailure(errno: int)

  /** The attempt that is returned, the sanitized failure, or the outer deadline. */
  datatype Result = Returned(attempt: nat) | ReadFailed | DeadlineRaised

  const DELAYS: seq<real> := [0.1, 0.25]
  const EIO := 5
  const EAGAIN := 11
  const ENFILE := 23
  const EMFILE := 24

  /* ---- what an outcome means ---- */

  predicate Accepted(kind: string, o: Outcome) {
    o.Completed? && (o.returncode == 0 || (kind == "checks" && (o.returncode == 1 || o.returncode == 8) && o.listData))
  }

  predicate Transient(kind: string, o: Outcome) {
    match o
    case Completed(_, _, transientText) => !Accepted(kind, o) && transientText
    case Expired => true
    case Deadline => false
    case OsFailure(errno) => errno == EAGAIN || errno == EIO || errno == EMFILE || errno == ENFILE
  }

  /** The result when the loop stops at an attempt. */
  function ResultAt(kind: string, o: Outcome, attempt: nat): Result {
    if Accepted(kind, o) then Returned(attempt) else if o.Deadline? then DeadlineRaised else ReadFailed
  }

  function Total(xs: seq<real>): real {
    if xs == [] then 0.0 else Total(xs[..|xs| - 1]) + xs[|xs| - 1]
  }

  /** The attempts made: all but the last are transient, and the last is not or is the third. */
  ghost predicate Attempts(kind: string, outcomes: nat -> Outcome, n: nat) {
    && 0 < n <= |DELAYS| + 1
    && (forall k: nat :: k < n - 1 ==> Transient(kind, outcomes(k)))
    && (n <= |DELAYS| ==> !Transient(kind, outcomes(n - 1)))
  }

  /** `run_gh` with an abstract runner and clock: the k-th attempt ends as `outcomes(k)`
      after `durations(k)` seconds. */
  method RunGh(kind: string, outcomes: nat -> Outcome, durations: nat -> real, timeout: real)
    returns (result: Result, attempts: nat, sleeps: seq<real>, elapsed: real)
    ensures Attempts(kind, outcomes, attempts)
    ensures result == ResultAt(kind, outcomes(attempts - 1), attempts - 1)
    ensures sleeps == DELAYS[..attempts - 1]
    ensures elapsed == Spent(durations, attempts) + Total(sleeps)
    ensures (forall k: nat :: k < attempts ==> 0.0 <= durations(k) <= timeout) ==>
              elapsed <= 3.0 * timeout + 0.35
  {
    attempts, sleeps, elapsed := 0, [], 0.0;
    while true
      invariant attempts <= |DELAYS| && sleeps == DELAYS[..attempts]
      invariant forall k: nat :: k < attempts ==> Transient(kind, outcomes(k))
      invariant elapsed == Spent(durations, attempts) + Total(sleeps)
      decreases |DELAYS| - attempts
    {
      var attempt := attempts;
      var outcome := outcomes(attempt);
      attempts := attempts + 1;
      elapsed := elapsed + durations(attempt);
      TotalDelays(attempt);
      SpentBound(durations, attempts, timeout);
      var transient;
      match outcome {
        case Expired => transient := true;
        case Deadline => return DeadlineRaised, attempts, sleeps, elapsed;
        case OsFailure(errno) =>
          transient := errno in {EAGAIN, EIO, EMFILE, ENFILE};
          if !transient { return ReadFailed, attempts, sleeps, elapsed; }
        case Completed(returncode, listData, transientText) =>
          if returncode == 0 { return Returned(attempt), attempts, sleeps, elapsed; }
          if kind == "checks" && returncode in {1, 8} && listData {
            return Returned(attempt), attempts, sleeps, elapsed;
          }
          transient := transientText;
      }
      if !transient || attempt == |DELAYS| { return ReadFailed, attempts, sleeps, elapsed; }
      assert DELAYS[..attempt + 1] == DELAYS[..attempt] + [DELAYS[attempt]];
      assert (sleeps + [DELAYS[attempt]])[..attempt] == sleeps;
      sleeps := sleeps + [DELAYS[attempt]];
      elapsed := elapsed + DELAYS[attempt];
    }
  }

  function Spent(durations: nat -> real, n: nat): real {
    if n == 0 then 0.0 else Spent(durations, n - 1) + durations(n - 1)
  }

  lemma TotalDelays(n: nat)
    requires n <= |DELAYS|
    ensures 0.0 <= Total(DELAYS[..n]) <= 0.35
  {
    assert DELAYS[..0] == [] && DELAYS[..1] == [0.1] && DELAYS[..2] == [0.1, 0.25];
    assert [0.1][..0] == [] && [0.1, 0.25][..1] == [0.1];
  }

  lemma {:induction false} SpentBound(durations: nat -> real, n: nat, timeout: real)
    ensures (forall k: nat :: k < n ==> 0.0 <= durations(k) <= timeout) ==> Spent(durations, n) <= n as real * timeout
  {
    if n > 0 {
      SpentBound(durations, n - 1, timeout);
      assert n as real * timeout == (n - 1) as real * timeout + timeout;
    }
  }

  /** The number of attempts, and with it everything observable, is a function of the
      outcomes: the loop settles on the first that is not transient. */
  lemma AttemptsAreDetermined(kind: string, outcomes: nat -> Outcome, m: nat, n: nat)
    requires Attempts(kind, outcomes, m) && Attempts(kind, outcomes, n)
    ensures m == n
  {
  }

  /** The outer deadline is never retried, at whatever attempt it comes. */
  lemma DeadlineEndsTheLoop(kind: string, outcomes: nat -> Outcome, n: nat, k: nat)
    requires Attempts(kind, outcomes, n) && k < n && outcomes(k).Deadline?
    ensures n == k + 1 && ResultAt(kind, outcomes(n - 1), n - 1) == DeadlineRaised
  {
  }

  /** EXACT RETRY. An expired attempt is transient; an OS error exactly with the numbers 5,
      11, 23 and 24; a completed one exactly when it is not accepted and its text says so. */
  lemma TransientExactly(kind: string, o: Outcome)
    ensures o.Completed? ==>
              (Accepted(kind, o) <==>
               o.returncode == 0 || (kind == "checks" && o.returncode in {1, 8} && o.listData))
    ensures o.Completed? ==> (Transient(kind, o) <==> !Accepted(kind, o) && o.transientText)
    ensures o.Expired? ==> Transient(kind, o)
    ensures o.Deadline? ==> !Transient(kind, o)
    ensures o.OsFailure? ==> (Transient(kind, o) <==> o.errno in {5, 11, 23, 24})
  {
  }

  /** What is returned and slept, by number of attempts. */
  lemma ResultExactly(kind: string, outcomes: nat -> Outcome, n: nat)
    requires Attempts(kind, outcomes, n)
    ensures n <= 3 && DELAYS[..n - 1] == [0.1, 0.25][..n - 1]
    ensures ResultAt(kind, outcomes(n - 1), n - 1) ==
            if outcomes(n - 1).Deadline? then DeadlineRaised
            else if Accepted(kind, outcomes(n - 1)) then Returned(n - 1) else ReadFailed
    ensures outcomes(0).Expired? ==> n >= 2
    ensures outcomes(0).Expired? && outcomes(1).Expired? ==> n == 3
  {
    assert n == 1 ==> !Transient(kind, outcomes(0));
    assert n == 2 ==> !Transient(kind, outcomes(1));
  }
}
