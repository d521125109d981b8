/** What a run of `Supervisor::run` returns, told from the script alone: no deque, no counter, no cast. */
module SupervisionMeaning {
  import opened Machine
  import opened Backoff
  import opened Supervision
  import opened SupervisionGuarantees

  predicate Fired(token: Token, now: Instant) {
    token.FiresAt? && token.at <= now
  }

  /** The restart of round `k` would be one too many: the one `cap` places earlier is not older than the
      window. A cap of 2^32 - 1 is never exceeded. */
  predicate OneTooMany(p: Policy, script: seq<Round>, k: nat)
    requires k < |script|
  {
    && p.maxRestarts.Some? && p.maxRestarts.value < 0xFFFF_FFFF && k >= p.maxRestarts.value
    && (p.restartWindow.Some? ==>
          script[k].recordedAt - script[k - p.maxRestarts.value].recordedAt <= p.restartWindow.value)
  }

  /** `d` is the backoff of restart `k`, which is the n-th since the latest long run. */
  ghost predicate SleepIs(p: Policy, script: seq<Round>, k: nat, d: nat)
    requires k < |script|
  {
    exists n :: StreakIs(p, script, k, n)
                && IsBackoff(p.baseBackoff, p.maxBackoff, Min(n, U32_MAX), p.jitter, script[k].entropy, d)
  }

  datatype Cause = CancelledAtHead | CancelledAfterRun | CleanExit | Fatal | BudgetSpent | CancelledInBackoff

  /** Why the loop ends at round `k`, if it comes to that round and ends there. */
  ghost function CauseAt(p: Policy, token: Token, script: seq<Round>, k: nat): Option<Cause>
    requires k < |script|
  {
    var r := script[k];
    if Fired(token, r.headAt) then Some(CancelledAtHead)
    else if Fired(token, r.joinedAt) then Some(CancelledAfterRun)
    else if r.exit.Finished? && !p.restartOnOk then Some(CleanExit)
    else if r.exit.Aborted? || (r.exit.Panicked? && !p.restartOnPanic) then Some(Fatal)
    else if OneTooMany(p, script, k) then Some(BudgetSpent)
    else if Fired(token, r.wokeAt) && !SleepIs(p, script, k, 0) then Some(CancelledInBackoff)
    else None
  }

  function OutcomeOf(c: Cause): Outcome {
    match c
    case Fatal => Error(Concurrency, None)
    case BudgetSpent => Error(RetryExhausted, None)
    case _ => Stopped
  }

  /** The report `r` tells of a run that ends at round `e`, or of one that uses up the script. */
  ghost predicate TellsEnd(p: Policy, token: Token, script: seq<Round>, r: Report, e: nat) {
    && e <= |script|
    && (forall k :: 0 <= k < e ==> CauseAt(p, token, script, k).None?)
    && |r.sleeps| <= |script|
    && (forall i :: 0 <= i < |r.sleeps| ==> SleepIs(p, script, i, r.sleeps[i]))
    && if e == |script| then r.outcome == StillRunning && r.calls == e && |r.sleeps| == e
       else
         var cause := CauseAt(p, token, script, e);
         && cause.Some? && r.outcome == OutcomeOf(cause.value)
         && r.calls == (if cause.value.CancelledAtHead? then e else e + 1)
         && |r.sleeps| == (if cause.value.CancelledInBackoff? then e + 1 else e)
  }

  ghost predicate Tells(p: Policy, token: Token, script: seq<Round>, r: Report) {
    exists e :: TellsEnd(p, token, script, r, e)
  }

  // ----- the backoffs -----------------------------------------------------------------------------

  lemma StreakUnique(p: Policy, script: seq<Round>, k: nat, m: nat, n: nat)
    requires k < |script| && StreakIs(p, script, k, m) && StreakIs(p, script, k, n)
    ensures m == n
  {
  }

  lemma SleepIff(p: Policy, script: seq<Round>, k: nat, d: nat)
    requires k < |script|
    ensures SleepIs(p, script, k, d) <==> d == Delay(p, script, k)
  {
    StreakMeaning(p, script, k);
    var streak := Streak(p, script, k);
    DelayIff(p.baseBackoff, p.maxBackoff, Min(streak, U32_MAX), p.jitter, script[k].entropy, d);
    if SleepIs(p, script, k, d) {
      var n :| StreakIs(p, script, k, n)
               && IsBackoff(p.baseBackoff, p.maxBackoff, Min(n, U32_MAX), p.jitter, script[k].entropy, d);
      StreakUnique(p, script, k, n, streak);
    }
  }

  lemma SleepsUnique(p: Policy, script: seq<Round>, sleeps: seq<Duration>)
    requires |sleeps| <= |script|
    ensures (forall i :: 0 <= i < |sleeps| ==> SleepIs(p, script, i, sleeps[i]))
            <==> sleeps == Delays(p, script, |sleeps|)
  {
    var n := |sleeps|;
    if n > 0 {
      RequestedBackoff(p, script, n, 0);
    }
    forall i | 0 <= i < n ensures SleepIs(p, script, i, sleeps[i]) <==> sleeps[i] == Delays(p, script, n)[i] {
      RequestedBackoff(p, script, n, i);
      SleepIff(p, script, i, sleeps[i]);
    }
  }

  // ----- the verdicts -----------------------------------------------------------------------------

  lemma RecordedInOrder(script: seq<Round>, i: nat, k: nat)
    requires WellTimed(script) && i <= k < |script|
    ensures script[i].recordedAt <= script[k].recordedAt
  {
    assert i < k ==> script[i].wokeAt <= script[k].headAt;
  }

  lemma BudgetIff(p: Policy, token: Token, script: seq<Round>, k: nat)
    requires WellTimed(script) && Reached(p, token, script, k)
    ensures OverBudget(p, |InWindow(p, script, k)|) <==> OneTooMany(p, script, k)
  {
    if RealCap(p) {
      OverBudgetIff(p, token, script, k);
      FullWindowIff(p, token, script, k);
      if k >= p.maxRestarts.value {
        RecordedInOrder(script, k - p.maxRestarts.value, k);
      }
    }
  }

  lemma CauseBeforeSleep(p: Policy, token: Token, script: seq<Round>, k: nat)
    requires WellTimed(script) && Reached(p, token, script, k)
    ensures var cause := CauseAt(p, token, script, k);
            VerdictBeforeSleep(p, token, script, k)
            == if cause.None? || cause.value.CancelledInBackoff? then None else Some(OutcomeOf(cause.value))
  {
    BudgetIff(p, token, script, k);
  }

  lemma CauseInSleep(p: Policy, token: Token, script: seq<Round>, k: nat)
    requires WellTimed(script) && Reached(p, token, script, k) && VerdictBeforeSleep(p, token, script, k).None?
    ensures CauseAt(p, token, script, k) == Some(CancelledInBackoff)
            <==> !SleepOrCancel(token, Delay(p, script, k), script[k].wokeAt)
  {
    BudgetIff(p, token, script, k);
    SleepIff(p, script, k, 0);
  }

  /** At a round that is reached the cause explains the verdict. */
  lemma CauseExplains(p: Policy, token: Token, script: seq<Round>, k: nat)
    requires WellTimed(script) && Reached(p, token, script, k)
    ensures var cause := CauseAt(p, token, script, k);
            && Verdict(p, token, script, k) == (if cause.None? then None else Some(OutcomeOf(cause.value)))
            && (StopsAtHead(token, script, k) <==> cause == Some(CancelledAtHead))
            && (VerdictBeforeSleep(p, token, script, k).None? <==> cause.None? || cause == Some(CancelledInBackoff))
  {
    CauseBeforeSleep(p, token, script, k);
    if VerdictBeforeSleep(p, token, script, k).None? {
      CauseInSleep(p, token, script, k);
    }
  }

  lemma TellsWhere(p: Policy, token: Token, script: seq<Round>, r: Report, e: nat)
    requires WellTimed(script) && TellsEnd(p, token, script, r, e)
    ensures e == End(p, token, script)
  {
    var end := End(p, token, script);
    if e < end {
      EndIsFirst(p, token, script, 0, e);
      CauseExplains(p, token, script, e);
    } else if end < e {
      CauseExplains(p, token, script, end);
    }
  }

  lemma NoCauseBefore(p: Policy, token: Token, script: seq<Round>, k: nat)
    requires WellTimed(script) && k < End(p, token, script)
    ensures CauseAt(p, token, script, k).None?
  {
    EndIsFirst(p, token, script, 0, k);
    CauseExplains(p, token, script, k);
  }

  lemma DelaysLength(p: Policy, script: seq<Round>, n: nat)
    requires n <= |script|
    ensures |Delays(p, script, n)| == n
  {
    if n > 0 {
      RequestedBackoff(p, script, n, 0);
    }
  }

  lemma ExpectedTells(p: Policy, token: Token, script: seq<Round>)
    requires WellTimed(script)
    ensures TellsEnd(p, token, script, Expected(p, token, script), End(p, token, script))
  {
    var e, r := End(p, token, script), Expected(p, token, script);
    forall k | 0 <= k < e ensures CauseAt(p, token, script, k).None? {
      NoCauseBefore(p, token, script, k);
    }
    if e < |script| {
      CauseExplains(p, token, script, e);
    }
    DelaysLength(p, script, Restarts(p, token, script));
    SleepsUnique(p, script, r.sleeps);
  }

  /** What `Supervisor::run` returns, how often it calls the factory and which backoffs it requests is
      exactly what the description tells, and the description fits no other report. */
  lemma RunMeaning(p: Policy, token: Token, script: seq<Round>, r: Report)
    requires WellTimed(script)
    ensures Tells(p, token, script, r) <==> r == Expected(p, token, script)
  {
    ExpectedTells(p, token, script);
    if Tells(p, token, script, r) {
      var e :| TellsEnd(p, token, script, r, e);
      TellsWhere(p, token, script, r, e);
      SleepsUnique(p, script, r.sleeps);
      SleepsUnique(p, script, Expected(p, token, script).sleeps);
    }
  }

  // ----- without a cap ----------------------------------------------------------------------------

  /** A run that ends has one of the causes; without a cap it is not the budget. */
  lemma UncappedNeverExhausted(p: Policy, token: Token, script: seq<Round>)
    requires WellTimed(script) && p.maxRestarts.None?
    ensures FinalOutcome(p, token, script) != Error(RetryExhausted, None)
  {
    var e := End(p, token, script);
    if e < |script| {
      CauseExplains(p, token, script, e);
    }
  }

  /** Without a cap the loop goes on after every exit that the policy restarts, unless it is cancelled. */
  lemma UncappedGoesOn(p: Policy, token: Token, script: seq<Round>, k: nat)
    requires WellTimed(script) && Reached(p, token, script, k) && p.maxRestarts.None?
    requires !Fired(token, script[k].wokeAt)
    ensures k < End(p, token, script)
            <==> || script[k].exit.Failed?
                 || (script[k].exit.Finished? && p.restartOnOk)
                 || (script[k].exit.Panicked? && p.restartOnPanic)
  {
    CauseExplains(p, token, script, k);
    if k < End(p, token, script) {
      EndIsFirst(p, token, script, 0, k);
    }
  }
}
