/** src/concurrency/supervisor.rs: the restart loop, run against an adversary's script. */
module Supervision {
  import opened Machine
  import opened Backoff

  /** How a supervised task ended. `report` stands for the task's own error report. */
  datatype Exit = Finished | Failed(report: nat) | Panicked | Aborted

  /** One turn of the loop as the adversary schedules it: the instants at which the loop head
      looks at the token, the factory is called, the task is joined and the token looked at
      again, `elapsed` and `now` are read, and the backoff sleep (if any) is polled last. */
  datatype Round = Round(
    headAt: Instant, startedAt: Instant, joinedAt: Instant, elapsedAt: Instant,
    recordedAt: Instant, wokeAt: Instant, exit: Exit, entropy: u64)

  datatype Policy = Policy(
    maxRestarts: Option<NonZeroU32>, restartWindow: Option<Duration>,
    baseBackoff: Duration, maxBackoff: Duration, jitter: bool,
    restartOnOk: bool, restartOnPanic: bool)

  datatype ErrorKind = RetryExhausted | Concurrency

  /** `Stopped` is `Ok(())`; `cause` is the task report chained into the error, if any;
      `StillRunning` says that the script ended before the loop did. */
  datatype Outcome = Stopped | Error(kind: ErrorKind, cause: Option<nat>) | StillRunning

  /** The clock never runs backwards, inside a round and from one round to the next. */
  predicate WellTimed(script: seq<Round>) {
    && (forall k :: 0 <= k < |script| ==>
          script[k].headAt <= script[k].startedAt <= script[k].joinedAt <= script[k].elapsedAt
          <= script[k].recordedAt <= script[k].wokeAt)
    && (forall j, k :: 0 <= j < k < |script| ==> script[j].wokeAt <= script[k].headAt)
  }

  // ----- the stateless reference -------------------------------------------------------
  // Everything the loop keeps in variables is recomputed here from the script alone.

  /** The instants at which the first |rounds| restarts are recorded, oldest first. */
  function Recorded(rounds: seq<Round>): (h: seq<Instant>)
    ensures |h| == |rounds|
    ensures forall i :: 0 <= i < |h| ==> h[i] == rounds[i].recordedAt
  {
    seq(|rounds|, i requires 0 <= i < |rounds| => rounds[i].recordedAt)
  }

  predicate Expired(window: Option<Duration>, now: Instant, t: Instant) {
    window.Some? && Elapsed(now, t) > window.value
  }

  /** The entries of `h` whose age at `now` is at most the window, in order. */
  function Recent(h: seq<Instant>, now: Instant, window: Option<Duration>): seq<Instant> {
    if h == [] then [] else
      var last := h[|h| - 1];
      var older := Recent(h[..|h| - 1], now, window);
      if Expired(window, now, last) then older else older + [last]
  }

  /** The restarts that count when round `k` is checked, that round's own included. */
  function InWindow(p: Policy, script: seq<Round>, k: nat): seq<Instant>
    requires k < |script|
  {
    Recent(Recorded(script[..k + 1]), script[k].recordedAt, p.restartWindow)
  }

  /** `self.max_restarts` is set and `restart_history.len() as u32 > cap`. */
  predicate OverBudget(p: Policy, restarts: nat) {
    p.maxRestarts.Some? && restarts % 0x1_0000_0000 > p.maxRestarts.value
  }

  predicate Healthy(p: Policy, r: Round) {
    Elapsed(r.elapsedAt, r.startedAt) >= p.maxBackoff
  }

  /** Restarts since the latest healthy run, that run's own restart included. */
  function Streak(p: Policy, script: seq<Round>, k: nat): nat
    requires k < |script|
  {
    if k == 0 || Healthy(p, script[k]) then 1 else Streak(p, script, k - 1) + 1
  }

  function Consecutive(p: Policy, script: seq<Round>, k: nat): u32
    requires k < |script|
  {
    Min(Streak(p, script, k), U32_MAX)
  }

  function DelayAt(p: Policy, counter: u32, r: Round): Duration {
    ComputeDelay(p.baseBackoff, p.maxBackoff, counter, p.jitter, r.entropy)
  }

  function Delay(p: Policy, script: seq<Round>, k: nat): Duration
    requires k < |script|
  {
    DelayAt(p, Consecutive(p, script, k), script[k])
  }

  /** The backoffs requested by the first `n` restarts. */
  function Delays(p: Policy, script: seq<Round>, n: nat): seq<Duration>
    requires n <= |script|
  {
    if n == 0 then [] else Delays(p, script, n - 1) + [Delay(p, script, n - 1)]
  }

  predicate StopsAtHead(token: Token, script: seq<Round>, k: nat)
    requires k < |script|
  {
    token.Cancelled(script[k].headAt)
  }

  /** What the exit alone decides once the token was seen quiet after the join. */
  function ExitVerdict(p: Policy, exit: Exit): Option<Outcome> {
    match exit
    case Finished => if p.restartOnOk then None else Some(Stopped)
    case Failed(_) => None
    case Panicked => if p.restartOnPanic then None else Some(Error(Concurrency, None))
    case Aborted => Some(Error(Concurrency, None))
  }

  /** The verdict on a turn before its backoff, when `restarts` restarts count. */
  function EarlyVerdict(p: Policy, token: Token, r: Round, restarts: nat): Option<Outcome> {
    if token.Cancelled(r.headAt) || token.Cancelled(r.joinedAt) then Some(Stopped)
    else if ExitVerdict(p, r.exit).Some? then ExitVerdict(p, r.exit)
    else if OverBudget(p, restarts) then Some(Error(RetryExhausted, None))
    else None
  }

  /** The verdict on a turn after its backoff. */
  function LateVerdict(p: Policy, token: Token, r: Round, restarts: nat, delay: Duration): Option<Outcome> {
    var early := EarlyVerdict(p, token, r, restarts);
    if early.Some? then early
    else if SleepOrCancel(token, delay, r.wokeAt) then None
    else Some(Stopped)
  }

  function VerdictBeforeSleep(p: Policy, token: Token, script: seq<Round>, k: nat): Option<Outcome>
    requires k < |script|
  {
    EarlyVerdict(p, token, script[k], |InWindow(p, script, k)|)
  }

  /** The verdict of round `k`, if the loop ends there. */
  function Verdict(p: Policy, token: Token, script: seq<Round>, k: nat): Option<Outcome>
    requires k < |script|
  {
    LateVerdict(p, token, script[k], |InWindow(p, script, k)|, Delay(p, script, k))
  }

  /** The first round, from `k` on, at which the loop ends; |script| when it does not. */
  function EndFrom(p: Policy, token: Token, script: seq<Round>, k: nat): (e: nat)
    requires k <= |script|
    ensures k <= e <= |script|
    ensures e < |script| ==> Verdict(p, token, script, e).Some?
    decreases |script| - k
  {
    if k == |script| || Verdict(p, token, script, k).Some? then k else EndFrom(p, token, script, k + 1)
  }

  function End(p: Policy, token: Token, script: seq<Round>): nat {
    EndFrom(p, token, script, 0)
  }

  function FinalOutcome(p: Policy, token: Token, script: seq<Round>): Outcome {
    var e := End(p, token, script);
    if e == |script| then StillRunning else Verdict(p, token, script, e).value
  }

  /** Number of calls of `factory`. */
  function Calls(p: Policy, token: Token, script: seq<Round>): nat {
    var e := End(p, token, script);
    if e == |script| || StopsAtHead(token, script, e) then e else e + 1
  }

  /** Number of restarts that pass the budget check. They are the first rounds of the script. */
  function Restarts(p: Policy, token: Token, script: seq<Round>): (n: nat)
    ensures n <= |script|
  {
    var e := End(p, token, script);
    if e == |script| || VerdictBeforeSleep(p, token, script, e).Some? then e else e + 1
  }

  // ----- the loop ----------------------------------------------------------------------

  predicate Sorted(h: seq<Instant>) {
    forall i, j :: 0 <= i < j < |h| ==> h[i] <= h[j]
  }

  lemma {:induction false} DropExpiredFront(h: seq<Instant>, now: Instant, window: Option<Duration>)
    requires h != [] && Expired(window, now, h[0])
    ensures Recent(h[1..], now, window) == Recent(h, now, window)
  {
    var n := |h| - 1;
    if n == 0 {
    } else {
      DropExpiredFront(h[..n], now, window);
      assert h[..n][1..] == h[1..][..n - 1];
    }
  }

  lemma {:induction false} NothingExpired(h: seq<Instant>, now: Instant, window: Option<Duration>)
    requires forall i :: 0 <= i < |h| ==> !Expired(window, now, h[i])
    ensures Recent(h, now, window) == h
  {
    if h == [] {
    } else {
      NothingExpired(h[..|h| - 1], now, window);
    }
  }

  lemma {:induction false} RecentMembers(h: seq<Instant>, now: Instant, window: Option<Duration>)
    ensures forall t :: t in Recent(h, now, window) <==> t in h && !Expired(window, now, t)
    ensures |Recent(h, now, window)| <= |h|
    ensures Sorted(h) ==> Sorted(Recent(h, now, window))
  {
    if h == [] {
    } else {
      var init, last := h[..|h| - 1], h[|h| - 1];
      assert h == init + [last];
      RecentMembers(init, now, window);
      if Sorted(h) {
        var r := Recent(init, now, window);
        forall i | 0 <= i < |r| ensures r[i] <= last {
          assert r[i] in r;
          assert r[i] in init;
        }
      }
    }
  }

  /** Filtering what an earlier filter kept is filtering the full history: what the lazily pruned
      deque has lost by an earlier round would be filtered out now anyway. */
  lemma {:induction false} RecentTwice(h: seq<Instant>, before: Instant, now: Instant, window: Option<Duration>)
    requires before <= now
    ensures Recent(Recent(h, before, window), now, window) == Recent(h, now, window)
  {
    if h == [] {
    } else {
      var init, last := h[..|h| - 1], h[|h| - 1];
      RecentTwice(init, before, now, window);
      if !Expired(window, before, last) {
        var kept := Recent(init, before, window);
        assert (kept + [last])[..|kept|] == kept;
      }
    }
  }

  lemma RecordedSorted(script: seq<Round>, k: nat)
    requires WellTimed(script) && k < |script|
    ensures Sorted(Recorded(script[..k + 1]))
  {
    var h := Recorded(script[..k + 1]);
    forall i, j | 0 <= i < j < |h| ensures h[i] <= h[j] {
      assert script[i].wokeAt <= script[j].headAt;
    }
  }

  lemma PushThenFilter(older: seq<Instant>, before: Instant, now: Instant, window: Option<Duration>)
    requires Sorted(older + [now]) && before <= now
    ensures var kept := Recent(older, before, window);
            Sorted(kept + [now]) && Recent(kept + [now], now, window) == Recent(older + [now], now, window)
  {
    var kept := Recent(older, before, window);
    assert (older + [now])[..|older|] == older;
    assert (kept + [now])[..|kept|] == kept;
    RecentTwice(older, before, now, window);
    var full := older + [now];
    forall i, j | 0 <= i < j < |older| ensures older[i] <= older[j] {
      assert full[i] <= full[j];
    }
    RecentMembers(older, before, window);
    forall i | 0 <= i < |kept| ensures kept[i] <= now {
      assert kept[i] in kept;
      var m :| 0 <= m < |older| && older[m] == kept[i];
      assert full[m] <= full[|older|];
    }
  }

  /** Pushing `now` onto the deque of the previous round and filtering gives this round's window. */
  lemma PushKeepsWindow(p: Policy, script: seq<Round>, k: nat, history: seq<Instant>)
    requires WellTimed(script) && k < |script|
    requires history == if k == 0 then [] else InWindow(p, script, k - 1)
    ensures Sorted(history + [script[k].recordedAt])
    ensures Recent(history + [script[k].recordedAt], script[k].recordedAt, p.restartWindow) == InWindow(p, script, k)
  {
    var now := script[k].recordedAt;
    var older := Recorded(script[..k]);
    RecordedSorted(script, k);
    assert Recorded(script[..k + 1]) == older + [now];
    if k > 0 {
      var before := script[k - 1].recordedAt;
      assert before == older[k - 1];
      PushThenFilter(older, before, now, p.restartWindow);
    } else {
      PushThenFilter([], now, now, p.restartWindow);
    }
  }

  /** `while front is older than the window { pop_front }` */
  method Prune(history: seq<Instant>, now: Instant, window: Option<Duration>) returns (kept: seq<Instant>)
    requires Sorted(history)
    ensures kept == Recent(history, now, window)
  {
    kept := history;
    if window.Some? {
      while kept != [] && Elapsed(now, kept[0]) > window.value
        invariant Sorted(kept)
        invariant Recent(kept, now, window) == Recent(history, now, window)
        decreases |kept|
      {
        DropExpiredFront(kept, now, window);
        kept := kept[1..];
      }
    }
    NothingExpired(kept, now, window);
  }

  /** The loop has come to round `k` undisturbed and the verdict falls there. */
  lemma EndsAt(p: Policy, token: Token, script: seq<Round>, k: nat)
    requires k < |script| && Verdict(p, token, script, k).Some?
    requires EndFrom(p, token, script, 0) == EndFrom(p, token, script, k)
    ensures FinalOutcome(p, token, script) == Verdict(p, token, script, k).value
    ensures Calls(p, token, script) == if StopsAtHead(token, script, k) then k else k + 1
    ensures Restarts(p, token, script) == if VerdictBeforeSleep(p, token, script, k).Some? then k else k + 1
  {
  }

  /** The match on what joining the task gave. */
  method JudgeExit(p: Policy, exit: Exit) returns (verdict: Option<Outcome>)
    ensures verdict == ExitVerdict(p, exit)
  {
    match exit {
      case Finished =>
        if !p.restartOnOk {
          return Some(Stopped);
        }
      case Failed(_) =>
      case Panicked =>
        if !p.restartOnPanic {
          return Some(Error(Concurrency, None));
        }
      case Aborted =>
        return Some(Error(Concurrency, None));
    }
    return None;
  }

  /** The counter after a turn: reset by a healthy run, then incremented with saturation. */
  function Counted(p: Policy, r: Round, counter: u32): u32 {
    if Healthy(p, r) then 1 else Min(counter + 1, U32_MAX)
  }

  /** One turn of the loop in `Supervisor::run`, from the token check at its head to the end of
      the backoff. `history` and `consecutive` are the loop's deque and counter. */
  method Turn(p: Policy, token: Token, r: Round, history: seq<Instant>, consecutive: u32)
    returns (verdict: Option<Outcome>, called: bool, slept: seq<Duration>, history': seq<Instant>, consecutive': u32)
    requires Sorted(history + [r.recordedAt])
    ensures var live := Recent(history + [r.recordedAt], r.recordedAt, p.restartWindow);
            var delay := DelayAt(p, Counted(p, r, consecutive), r);
            && verdict == LateVerdict(p, token, r, |live|, delay)
            && called == !token.Cancelled(r.headAt)
            && slept == (if EarlyVerdict(p, token, r, |live|).Some? then [] else [delay])
            && (verdict.None? ==> history' == live && consecutive' == Counted(p, r, consecutive))
  {
    called, slept, history', consecutive' := false, [], history, consecutive;
    if token.Cancelled(r.headAt) {
      return Some(Stopped), called, slept, history', consecutive';
    }
    called := true;
    if token.Cancelled(r.joinedAt) {
      return Some(Stopped), called, slept, history', consecutive';
    }
    if Elapsed(r.elapsedAt, r.startedAt) >= p.maxBackoff {
      consecutive' := 0;
    }
    verdict := JudgeExit(p, r.exit);
    if verdict.Some? {
      return;
    }
    var now := r.recordedAt;
    history' := Prune(history + [now], now, p.restartWindow);
    if OverBudget(p, |history'|) {
      return Some(Error(RetryExhausted, None)), called, slept, history', consecutive';
    }
    consecutive' := Min(consecutive' + 1, U32_MAX);
    var sleepFor := DelayAt(p, consecutive', r);
    slept := [sleepFor];
    if sleepFor != 0 && !SleepOrCancel(token, sleepFor, r.wokeAt) {
      return Some(Stopped), called, slept, history', consecutive';
    }
    verdict := None;
  }

  /** The loop's variables: the deque, the counter, and a log of the backoffs requested. */
  datatype Vars = Vars(history: seq<Instant>, consecutive: u32, sleeps: seq<Duration>)

  /** What they hold at the head of turn `k`. */
  function VarsAt(p: Policy, script: seq<Round>, k: nat): Vars
    requires k <= |script|
  {
    if k == 0 then Vars([], 0, [])
    else Vars(InWindow(p, script, k - 1), Consecutive(p, script, k - 1), Delays(p, script, k))
  }

  /** What a run returns, how often it calls `factory`, and the backoffs it requests. */
  datatype Report = Report(outcome: Outcome, calls: nat, sleeps: seq<Duration>)

  function Expected(p: Policy, token: Token, script: seq<Round>): Report {
    Report(FinalOutcome(p, token, script), Calls(p, token, script), Delays(p, script, Restarts(p, token, script)))
  }

  /** The turn's window and counter are those of the reference. */
  lemma TurnFollows(p: Policy, script: seq<Round>, k: nat)
    requires WellTimed(script) && k < |script|
    ensures var r, v := script[k], VarsAt(p, script, k);
            && Sorted(v.history + [r.recordedAt])
            && Recent(v.history + [r.recordedAt], r.recordedAt, p.restartWindow) == InWindow(p, script, k)
  {
    PushKeepsWindow(p, script, k, VarsAt(p, script, k).history);
  }

  lemma CounterFollows(p: Policy, script: seq<Round>, k: nat)
    requires k < |script|
    ensures Counted(p, script[k], VarsAt(p, script, k).consecutive) == Consecutive(p, script, k)
  {
  }

  /** The backoff that turn `k` requests, if it comes to that. */
  function Requested(p: Policy, token: Token, script: seq<Round>, k: nat): seq<Duration>
    requires k < |script|
  {
    if VerdictBeforeSleep(p, token, script, k).Some? then [] else [Delay(p, script, k)]
  }

  lemma TurnGoesOn(p: Policy, token: Token, script: seq<Round>, k: nat)
    requires k < |script| && Verdict(p, token, script, k).None?
    ensures EndFrom(p, token, script, k) == EndFrom(p, token, script, k + 1)
    ensures !StopsAtHead(token, script, k)
    ensures VarsAt(p, script, k + 1)
            == Vars(InWindow(p, script, k), Consecutive(p, script, k),
                    VarsAt(p, script, k).sleeps + Requested(p, token, script, k))
  {
  }

  lemma TurnEnds(p: Policy, token: Token, script: seq<Round>, k: nat)
    requires k < |script| && Verdict(p, token, script, k).Some?
    requires EndFrom(p, token, script, 0) == EndFrom(p, token, script, k)
    ensures Expected(p, token, script)
            == Report(Verdict(p, token, script, k).value,
                      if StopsAtHead(token, script, k) then k else k + 1,
                      VarsAt(p, script, k).sleeps + Requested(p, token, script, k))
  {
    EndsAt(p, token, script, k);
    assert Delays(p, script, k) + [] == Delays(p, script, k);
  }

  lemma ScriptUsedUp(p: Policy, token: Token, script: seq<Round>)
    requires EndFrom(p, token, script, 0) == |script|
    ensures Expected(p, token, script) == Report(StillRunning, |script|, VarsAt(p, script, |script|).sleeps)
  {
  }

  /** Turn `k`, carrying the loop's variables from its head to the next one or to the end. */
  method TakeTurn(p: Policy, token: Token, script: seq<Round>, k: nat, v: Vars)
    returns (verdict: Option<Outcome>, calls: nat, v': Vars)
    requires WellTimed(script) && k < |script| && v == VarsAt(p, script, k)
    requires EndFrom(p, token, script, 0) == EndFrom(p, token, script, k)
    ensures verdict.None? ==> calls == k + 1 && v' == VarsAt(p, script, k + 1)
                              && EndFrom(p, token, script, 0) == EndFrom(p, token, script, k + 1)
    ensures verdict.Some? ==> Report(verdict.value, calls, v'.sleeps) == Expected(p, token, script)
  {
    TurnFollows(p, script, k);
    CounterFollows(p, script, k);
    var called, slept, history, consecutive;
    verdict, called, slept, history, consecutive := Turn(p, token, script[k], v.history, v.consecutive);
    calls := k + if called then 1 else 0;
    v' := Vars(history, consecutive, v.sleeps + slept);
    assert slept == Requested(p, token, script, k);
    if verdict.Some? {
      TurnEnds(p, token, script, k);
    } else {
      TurnGoesOn(p, token, script, k);
    }
  }

  /** `Supervisor::run`. What it returns is what the stateless reference reads off the script. */
  method Run(p: Policy, token: Token, script: seq<Round>) returns (report: Report)
    requires WellTimed(script)
    ensures report == Expected(p, token, script)
  {
    var v, calls, k := Vars([], 0, []), 0, 0;
    while k < |script|
      invariant calls == k <= |script|
      invariant v == VarsAt(p, script, k)
      invariant EndFrom(p, token, script, 0) == EndFrom(p, token, script, k)
    {
      var verdict;
      verdict, calls, v := TakeTurn(p, token, script, k, v);
      if verdict.Some? {
        return Report(verdict.value, calls, v.sleeps);
      }
      k := k + 1;
    }
    ScriptUsedUp(p, token, script);
    return Report(StillRunning, calls, v.sleeps);
  }
}
