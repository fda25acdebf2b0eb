/** The loop that restarts an unhealthy transport, with a bounded number of attempts. */
module Recovery {

  import opened Common

  const MAX_RECOVERY_ATTEMPTS := 3
  const BACKOFF_SECS := [5, 10, 15]

  /** What the loop finds at a tick; the last two are looked at only when it comes to a restart. */
  datatype Tick = Tick(active: bool, direct: bool, healthy: bool, stillActive: bool, restarts: bool)

  datatype Event =
    | Recovering(attempt: nat, maxAttempts: nat)
    | Slept(secs: nat)
    | Result(attempt: nat, success: bool)
    | Connected
    | Failed(recoverable: bool)
    | GaveUp

  // ----- One turn of the loop -----

  /** Nothing to repair: the counter goes back to zero. */
  predicate Quiet(t: Tick)
  {
    !t.active || t.direct || t.healthy
  }

  function Attempts(attempts: nat, t: Tick): nat
  {
    if Quiet(t) || attempts >= MAX_RECOVERY_ATTEMPTS || !t.stillActive || t.restarts then 0 else attempts + 1
  }

  function Emitted(attempts: nat, t: Tick): seq<Event>
  {
    if Quiet(t) then []
    else if attempts >= MAX_RECOVERY_ATTEMPTS then [GaveUp]
    else
      var n := attempts + 1;
      var recovering, slept := Recovering(n, MAX_RECOVERY_ATTEMPTS),
          Slept(if n - 1 < |BACKOFF_SECS| then BACKOFF_SECS[n - 1] else 15);
      if !t.stillActive then [recovering, slept]
      else if t.restarts then [recovering, slept, Result(n, true), Connected]
      else [recovering, slept, Result(n, false), Failed(n < MAX_RECOVERY_ATTEMPTS)]
  }

  /** The counter before tick `k`. */
  function AttemptsBefore(ticks: seq<Tick>, k: nat): nat
    requires k <= |ticks|
  {
    if k == 0 then 0 else Attempts(AttemptsBefore(ticks, k - 1), ticks[k - 1])
  }

  /** Everything published during the first `k` ticks. */
  function Log(ticks: seq<Tick>, k: nat): seq<Event>
    requires k <= |ticks|
  {
    if k == 0 then [] else Log(ticks, k - 1) + Emitted(AttemptsBefore(ticks, k - 1), ticks[k - 1])
  }

  lemma LogStep(ticks: seq<Tick>, k: nat)
    requires k < |ticks|
    ensures AttemptsBefore(ticks, k + 1) == Attempts(AttemptsBefore(ticks, k), ticks[k])
    ensures Log(ticks, k + 1) == Log(ticks, k) + Emitted(AttemptsBefore(ticks, k), ticks[k])
    ensures !ticks[k].active || ticks[k].direct || ticks[k].healthy ==>
              Log(ticks, k + 1) == Log(ticks, k) && AttemptsBefore(ticks, k + 1) == 0
  {
  }

  /** What a turn that tries a restart adds, in the order in which it is published. */
  lemma TriedStep(ticks: seq<Tick>, k: nat)
    requires k < |ticks| && ticks[k].active && !ticks[k].direct && !ticks[k].healthy && AttemptsBefore(ticks, k) < 3
    ensures var n := AttemptsBefore(ticks, k) + 1;
            var tried := Log(ticks, k) + [Recovering(n, 3)] + [Slept([5, 10, 15][n - 1])];
            Log(ticks, k + 1) ==
            if !ticks[k].stillActive then tried
            else if ticks[k].restarts then tried + [Result(n, true), Connected]
            else tried + [Result(n, false), Failed(n < 3)]
  {
    hide Log, AttemptsBefore;
    LogStep(ticks, k);
  }

  /** The loop, run for as long as the list of ticks lasts. */
  method Monitor(ticks: seq<Tick>) returns (log: seq<Event>)
    ensures log == Log(ticks, |ticks|)
  {
    var attempts := 0;
    log := [];
    for k := 0 to |ticks|
      invariant attempts == AttemptsBefore(ticks, k) && log == Log(ticks, k)
      invariant 0 <= attempts <= MAX_RECOVERY_ATTEMPTS
    {
      hide Log, AttemptsBefore;
      var t := ticks[k];
      LogStep(ticks, k);
      if !t.active { attempts := 0; continue; }
      if t.direct { attempts := 0; continue; }
      if t.healthy { attempts := 0; continue; }
      attempts := attempts + 1;
      if attempts > MAX_RECOVERY_ATTEMPTS {
        log := log + [GaveUp];
        attempts := 0;
        continue;
      }
      TriedStep(ticks, k);
      log := log + [Recovering(attempts, MAX_RECOVERY_ATTEMPTS)];
      var backoff := if attempts - 1 < |BACKOFF_SECS| then BACKOFF_SECS[attempts - 1] else 15;
      log := log + [Slept(backoff)];
      if !t.stillActive { attempts := 0; continue; }
      if t.restarts {
        log := log + [Result(attempts, true), Connected];
        attempts := 0;
      } else {
        log := log + [Result(attempts, false), Failed(attempts < MAX_RECOVERY_ATTEMPTS)];
      }
    }
  }

  // ----- Whole runs -----

  /** A tick whose restart was tried and failed. */
  predicate FailedRestart(t: Tick)
  {
    t.active && !t.direct && !t.healthy && t.stillActive && !t.restarts
  }

  /** What a failed restart numbered `n` publishes. */
  function FailedAttempt(n: nat): seq<Event>
    requires 1 <= n <= MAX_RECOVERY_ATTEMPTS
  {
    [Recovering(n, 3), Slept([5, 10, 15][n - 1]), Result(n, false), Failed(n < 3)]
  }

  /** The events of the first `n` failed attempts in a row. */
  function FailedAttempts(n: nat): seq<Event>
    requires n <= MAX_RECOVERY_ATTEMPTS
  {
    if n == 0 then [] else FailedAttempts(n - 1) + FailedAttempt(n)
  }

  /**
    The counter always counts the failed restarts since it was last zero, and
    the log ends with exactly those attempts, numbered from one.
  */
  lemma {:induction false} CounterExplained(ticks: seq<Tick>, k: nat)
    requires k <= |ticks|
    ensures var n := AttemptsBefore(ticks, k);
            && n <= MAX_RECOVERY_ATTEMPTS && n <= k && AttemptsBefore(ticks, k - n) == 0
            && (forall i | k - n <= i < k :: FailedRestart(ticks[i]))
            && Log(ticks, k) == Log(ticks, k - n) + FailedAttempts(n)
  {
    hide Emitted, FailedAttempt, Quiet, FailedRestart, Attempts, Log;
    if k > 0 {
      CounterExplained(ticks, k - 1);
      var m, n := AttemptsBefore(ticks, k - 1), AttemptsBefore(ticks, k);
      OneTick(m, ticks[k - 1]);
      LogStep(ticks, k - 1);
      if n > 0 {
        assert FailedAttempts(n) == FailedAttempts(m) + FailedAttempt(n) && k - 1 - m == k - n;
        hide AttemptsBefore, FailedAttempts;
        AppendGroups(Log(ticks, k - n), FailedAttempts(m), FailedAttempt(n));
      }
    }
    if AttemptsBefore(ticks, k) == 0 { assert Log(ticks, k) + FailedAttempts(0) == Log(ticks, k); }
  }

  /**
    At every tick the counter is at most 3, and an unhealthy transport that is
    not given up sleeps for the backoff at the counter's index, which is in
    range: the fallback of 15 seconds is never needed.
  */
  lemma BackoffInRange(ticks: seq<Tick>, k: nat)
    requires k < |ticks|
    ensures AttemptsBefore(ticks, k) <= 3
    ensures ticks[k].active && !ticks[k].direct && !ticks[k].healthy && !GivesUpAt(ticks, k) ==>
              var n, emitted := AttemptsBefore(ticks, k), Emitted(AttemptsBefore(ticks, k), ticks[k]);
              && n < 3 && |emitted| >= 2
              && emitted[..2] == [Recovering(n + 1, 3), Slept([5, 10, 15][n])]
  {
    CounterExplained(ticks, k);
    var n := AttemptsBefore(ticks, k);
    if !Quiet(ticks[k]) && n >= MAX_RECOVERY_ATTEMPTS {
      assert Emitted(n, ticks[k])[0] == GaveUp;
    }
  }

  lemma OneTick(m: nat, t: Tick)
    requires m <= MAX_RECOVERY_ATTEMPTS
    ensures var n := Attempts(m, t);
            n > 0 ==> n == m + 1 <= MAX_RECOVERY_ATTEMPTS && FailedRestart(t) && Emitted(m, t) == FailedAttempt(n)
  {
  }

  lemma AppendGroups(a: seq<Event>, b: seq<Event>, c: seq<Event>)
    ensures (a + b) + c == a + (b + c)
  {
  }

  /** After a zero, failed restarts are counted one by one. */
  lemma {:induction false} FailuresAreCounted(ticks: seq<Tick>, start: nat, n: nat)
    requires start + n <= |ticks| && n <= MAX_RECOVERY_ATTEMPTS && AttemptsBefore(ticks, start) == 0
    requires forall i | start <= i < start + n :: FailedRestart(ticks[i])
    ensures AttemptsBefore(ticks, start + n) == n
  {
    if n > 0 { FailuresAreCounted(ticks, start, n - 1); }
  }

  /** The loop gives up at a tick. */
  predicate GivesUpAt(ticks: seq<Tick>, k: nat)
    requires k < |ticks|
  {
    GaveUp in Emitted(AttemptsBefore(ticks, k), ticks[k])
  }

  /**
    Giving up, exactly: the tick finds the transport unhealthy and the three
    ticks before it, counted from zero, each tried a restart that failed; and
    then what was published in between is those three attempts, numbered 1, 2
    and 3, with backoffs of 5, 10 and 15 seconds.
  */
  lemma GivesUpIff(ticks: seq<Tick>, k: nat)
    requires k < |ticks|
    ensures GivesUpAt(ticks, k) <==>
            && ticks[k].active && !ticks[k].direct && !ticks[k].healthy && k >= 3 && AttemptsBefore(ticks, k - 3) == 0
            && FailedRestart(ticks[k - 3]) && FailedRestart(ticks[k - 2]) && FailedRestart(ticks[k - 1])
    ensures GivesUpAt(ticks, k) ==>
              && Log(ticks, k) == Log(ticks, k - 3) + FailedAttempt(1) + FailedAttempt(2) + FailedAttempt(3)
              && AttemptsBefore(ticks, k + 1) == 0
  {
    hide FailedAttempt, Log;
    CounterExplained(ticks, k);
    if k >= 3 && AttemptsBefore(ticks, k - 3) == 0
       && FailedRestart(ticks[k - 3]) && FailedRestart(ticks[k - 2]) && FailedRestart(ticks[k - 1]) {
      FailuresAreCounted(ticks, k - 3, 3);
    }
    if GivesUpAt(ticks, k) {
      ThreeAttempts(Log(ticks, k - 3));
    }
  }

  lemma ThreeAttempts(log: seq<Event>)
    ensures log + FailedAttempts(3) == log + FailedAttempt(1) + FailedAttempt(2) + FailedAttempt(3)
  {
    hide FailedAttempt;
    assert FailedAttempts(3) == FailedAttempts(2) + FailedAttempt(3);
    assert FailedAttempts(2) == FailedAttempts(1) + FailedAttempt(2) && FailedAttempts(1) == [] + FailedAttempt(1);
  }
}
