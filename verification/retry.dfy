/** src/concurrency/retry.rs: the generic retry combinator, run against an adversary's script. */
module GenericRetry {
  import opened Machine
  import opened Backoff

  datatype Reply = Success(value: nat) | Failure(report: nat)

  /** One attempt as scheduled by the adversary: when `op` is called and when it resolves, its
      result, the predicate's answer should it be asked, and the last poll of the backoff sleep. */
  datatype Attempt = Attempt(
    startedAt: Instant, endedAt: Instant, reply: Reply, retryable: bool, entropy: u64, wokeAt: Instant)

  datatype Policy = Policy(maxAttempts: NonZeroU32, baseBackoff: Duration, maxBackoff: Duration, jitter: bool)

  /** `Unchanged` is the operation's own report. `Exhausted` is `RetryExhausted`, with the
      operation's report kept below it if there was one. */
  datatype Outcome = Done(value: nat) | Unchanged(report: nat) | Exhausted(cause: Option<nat>)

  predicate WellTimed(checkedAt: Instant, script: seq<Attempt>) {
    && (forall i :: 0 <= i < |script| ==>
          checkedAt <= script[i].startedAt <= script[i].endedAt <= script[i].wokeAt)
    && (forall i, j :: 0 <= i < j < |script| ==> script[i].wokeAt <= script[j].startedAt)
  }

  // ----- the plain recursion over attempts ------------------------------------------------

  /** The backoff after attempt `n` (1-based). */
  function Delay(p: Policy, script: seq<Attempt>, n: nat): Duration
    requires 1 <= n <= |script| && n <= p.maxAttempts
  {
    ComputeDelay(p.baseBackoff, p.maxBackoff, n, p.jitter, script[n - 1].entropy)
  }

  /** Attempt `n` is a retryable failure whose backoff is cut short. */
  predicate CutShort(p: Policy, token: Token, script: seq<Attempt>, n: nat)
    requires 1 <= n <= |script| && n <= p.maxAttempts
  {
    n < p.maxAttempts && !SleepOrCancel(token, Delay(p, script, n), script[n - 1].wokeAt)
  }

  /** The outcome that attempt `n` settles on, or None when there is a next attempt. */
  function Settled(p: Policy, token: Token, script: seq<Attempt>, n: nat): Option<Outcome>
    requires 1 <= n <= |script| && n <= p.maxAttempts
  {
    match script[n - 1].reply
    case Success(v) => Some(Done(v))
    case Failure(e) =>
      if !script[n - 1].retryable then Some(Unchanged(e))
      else if n == p.maxAttempts || CutShort(p, token, script, n) then Some(Exhausted(Some(e)))
      else None
  }

  /** The last attempt made, counting from attempt `n` on. */
  function LastFrom(p: Policy, token: Token, script: seq<Attempt>, n: nat): (k: nat)
    requires 1 <= n <= p.maxAttempts <= |script|
    ensures n <= k <= p.maxAttempts && Settled(p, token, script, k).Some?
    decreases p.maxAttempts - n
  {
    if Settled(p, token, script, n).Some? then n else LastFrom(p, token, script, n + 1)
  }

  function Last(p: Policy, token: Token, script: seq<Attempt>): nat
    requires p.maxAttempts <= |script|
  {
    LastFrom(p, token, script, 1)
  }

  function Final(p: Policy, token: Token, checkedAt: Instant, script: seq<Attempt>): Outcome
    requires p.maxAttempts <= |script|
  {
    if token.Cancelled(checkedAt) then Exhausted(None)
    else Settled(p, token, script, Last(p, token, script)).value
  }

  /** The attempts 1, 2, .., k. */
  function UpTo(k: nat): (s: seq<nat>)
    ensures |s| == k && forall i :: 0 <= i < k ==> s[i] == i + 1
  {
    if k == 0 then [] else UpTo(k - 1) + [k]
  }

  function Delays(p: Policy, script: seq<Attempt>, d: nat): seq<Duration>
    requires d <= |script| && d <= p.maxAttempts
  {
    if d == 0 then [] else Delays(p, script, d - 1) + [Delay(p, script, d)]
  }

  /** Which of the attempts made had the predicate consulted: all but a final success. */
  function Failures(script: seq<Attempt>, k: nat): nat
    requires 1 <= k <= |script|
  {
    if script[k - 1].reply.Failure? then k else k - 1
  }

  /** How many backoffs are requested: one between two attempts, and one more if it is cut short. */
  function Backoffs(p: Policy, token: Token, script: seq<Attempt>, k: nat): nat
    requires 1 <= k <= |script| && k <= p.maxAttempts
  {
    if script[k - 1].reply.Failure? && script[k - 1].retryable && CutShort(p, token, script, k) then k else k - 1
  }

  // ----- the loop -------------------------------------------------------------------------------

  /** The result of a run with the loop's log: the arguments `op` was called with, the attempts
      whose failure was shown to the predicate, and the backoffs requested. */
  datatype Log = Log(calls: seq<nat>, consulted: seq<nat>, delays: seq<Duration>)
  datatype Report = Report(outcome: Outcome, log: Log)

  function LogAfter(p: Policy, token: Token, script: seq<Attempt>, k: nat): Log
    requires 1 <= k <= |script| && k <= p.maxAttempts
  {
    Log(UpTo(k), UpTo(Failures(script, k)), Delays(p, script, Backoffs(p, token, script, k)))
  }

  function Expected(p: Policy, token: Token, checkedAt: Instant, script: seq<Attempt>): Report
    requires p.maxAttempts <= |script|
  {
    Report(Final(p, token, checkedAt, script),
           if token.Cancelled(checkedAt) then Log([], [], []) else LogAfter(p, token, script, Last(p, token, script)))
  }

  /** The log at the head of attempt `n`, all earlier ones having been retried. */
  function LogBefore(p: Policy, script: seq<Attempt>, n: nat): Log
    requires 1 <= n <= |script| && n <= p.maxAttempts
  {
    Log(UpTo(n - 1), UpTo(n - 1), Delays(p, script, n - 1))
  }

  /** What attempt `n` adds to the log. */
  function Added(p: Policy, script: seq<Attempt>, n: nat): Log
    requires 1 <= n <= |script| && n <= p.maxAttempts
  {
    var a := script[n - 1];
    Log([n],
        if a.reply.Failure? then [n] else [],
        if a.reply.Failure? && a.retryable && n < p.maxAttempts then [Delay(p, script, n)] else [])
  }

  function Join(a: Log, b: Log): Log {
    Log(a.calls + b.calls, a.consulted + b.consulted, a.delays + b.delays)
  }

  lemma AttemptGoesOn(p: Policy, token: Token, script: seq<Attempt>, n: nat)
    requires 1 <= n < p.maxAttempts <= |script| && Settled(p, token, script, n).None?
    ensures LastFrom(p, token, script, n) == LastFrom(p, token, script, n + 1)
    ensures LogBefore(p, script, n + 1) == Join(LogBefore(p, script, n), Added(p, script, n))
  {
  }

  lemma LogOfLast(p: Policy, token: Token, script: seq<Attempt>, n: nat)
    requires 1 <= n <= p.maxAttempts <= |script| && Settled(p, token, script, n).Some?
    ensures LogAfter(p, token, script, n) == Join(LogBefore(p, script, n), Added(p, script, n))
  {
    assert UpTo(n) == UpTo(n - 1) + [n];
    assert UpTo(n - 1) + [] == UpTo(n - 1);
    assert Delays(p, script, n - 1) + [] == Delays(p, script, n - 1);
  }

  lemma AttemptSettles(p: Policy, token: Token, checkedAt: Instant, script: seq<Attempt>, n: nat)
    requires 1 <= n <= p.maxAttempts <= |script| && Settled(p, token, script, n).Some?
    requires !token.Cancelled(checkedAt) && Last(p, token, script) == LastFrom(p, token, script, n)
    ensures Expected(p, token, checkedAt, script)
            == Report(Settled(p, token, script, n).value, Join(LogBefore(p, script, n), Added(p, script, n)))
  {
    LogOfLast(p, token, script, n);
  }

  /** The body of the loop in `Retry::run_if`: one attempt that is not the last allowed. */
  method TryOnce(p: Policy, token: Token, script: seq<Attempt>, attempt: nat)
    returns (settled: Option<Outcome>, added: Log)
    requires 1 <= attempt < p.maxAttempts <= |script|
    ensures settled == Settled(p, token, script, attempt)
    ensures added == Added(p, script, attempt)
  {
    var a := script[attempt - 1];
    match a.reply {
      case Success(v) =>
        return Some(Done(v)), Log([attempt], [], []);
      case Failure(e) =>
        if !a.retryable {
          return Some(Unchanged(e)), Log([attempt], [attempt], []);
        }
        var delay := ComputeDelay(p.baseBackoff, p.maxBackoff, attempt, p.jitter, a.entropy);
        added := Log([attempt], [attempt], [delay]);
        if !SleepOrCancel(token, delay, a.wokeAt) {
          return Some(Exhausted(Some(e))), added;
        }
        return None, added;
    }
  }

  /** The unrolled last attempt. */
  method TryLast(p: Policy, token: Token, script: seq<Attempt>) returns (outcome: Outcome, added: Log)
    requires p.maxAttempts <= |script|
    ensures Settled(p, token, script, p.maxAttempts) == Some(outcome)
    ensures added == Added(p, script, p.maxAttempts)
  {
    var a := script[p.maxAttempts - 1];
    match a.reply {
      case Success(v) =>
        return Done(v), Log([p.maxAttempts], [], []);
      case Failure(e) =>
        added := Log([p.maxAttempts], [p.maxAttempts], []);
        if a.retryable {
          outcome := Exhausted(Some(e));
        } else {
          outcome := Unchanged(e);
        }
    }
  }

  /** `Retry::run_if`: the loop over the attempts 1 .. max - 1 and the unrolled last one. */
  method RunIf(p: Policy, token: Token, checkedAt: Instant, script: seq<Attempt>) returns (report: Report)
    requires p.maxAttempts <= |script|
    ensures report == Expected(p, token, checkedAt, script)
  {
    if token.Cancelled(checkedAt) {
      return Report(Exhausted(None), Log([], [], []));
    }
    var log, attempt := Log([], [], []), 1;
    while attempt < p.maxAttempts
      invariant 1 <= attempt <= p.maxAttempts
      invariant Last(p, token, script) == LastFrom(p, token, script, attempt)
      invariant log == LogBefore(p, script, attempt)
    {
      var settled, added := TryOnce(p, token, script, attempt);
      log := Join(log, added);
      if settled.Some? {
        AttemptSettles(p, token, checkedAt, script, attempt);
        return Report(settled.value, log);
      }
      AttemptGoesOn(p, token, script, attempt);
      attempt := attempt + 1;
    }
    var outcome, added := TryLast(p, token, script);
    AttemptSettles(p, token, checkedAt, script, attempt);
    return Report(outcome, Join(log, added));
  }

  /** `Retry::run` is `run_if` with a predicate that always answers true. */
  function AlwaysRetryable(script: seq<Attempt>): (s: seq<Attempt>)
    ensures |s| == |script| && forall i :: 0 <= i < |s| ==> s[i] == script[i].(retryable := true)
  {
    seq(|script|, i requires 0 <= i < |script| => script[i].(retryable := true))
  }

  method Run(p: Policy, token: Token, checkedAt: Instant, script: seq<Attempt>) returns (report: Report)
    requires p.maxAttempts <= |script|
    ensures report == Expected(p, token, checkedAt, AlwaysRetryable(script))
    ensures !report.outcome.Unchanged?
  {
    report := RunIf(p, token, checkedAt, AlwaysRetryable(script));
  }

  // ----- what callers can rely on -----------------------------------------------------------------

  lemma {:induction false} BeforeLast(p: Policy, token: Token, script: seq<Attempt>, n: nat, i: nat)
    requires 1 <= n <= p.maxAttempts <= |script|
    requires n <= i < LastFrom(p, token, script, n)
    ensures Settled(p, token, script, i).None?
    decreases p.maxAttempts - n
  {
    if n == i {
    } else {
      BeforeLast(p, token, script, n + 1, i);
    }
  }

  predicate Fired(token: Token, now: Instant) {
    token.FiresAt? && token.at <= now
  }

  /** Attempt `n` is a failure that the predicate accepts, there are attempts left, and there is nothing to
      wait for or the wait is not cancelled. */
  predicate TriedAgain(p: Policy, token: Token, script: seq<Attempt>, n: nat)
    requires 1 <= n <= |script| && n <= p.maxAttempts
  {
    && n < p.maxAttempts && script[n - 1].reply.Failure? && script[n - 1].retryable
    && (Delay(p, script, n) == 0 || !Fired(token, script[n - 1].wokeAt))
  }

  /** Every attempt before the last one is a retryable failure whose backoff ran to its end, and the
      last attempt alone decides: success is returned as it is, a failure the predicate refuses
      comes back unchanged, and `RetryExhausted` is for a retryable failure at the budget's end or
      in a backoff cut short, or for a token that had fired before anything was called. */
  lemma OutcomeIff(p: Policy, token: Token, checkedAt: Instant, script: seq<Attempt>)
    requires p.maxAttempts <= |script|
    ensures var k, r := Last(p, token, script), Final(p, token, checkedAt, script);
            && (forall n :: 1 <= n < k ==> TriedAgain(p, token, script, n))
            && (Fired(token, checkedAt) <==> r == Exhausted(None))
            && (r.Done? <==> !Fired(token, checkedAt) && script[k - 1].reply.Success?)
            && (r.Unchanged? <==>
                  !Fired(token, checkedAt) && script[k - 1].reply.Failure? && !script[k - 1].retryable)
            && (r.Exhausted? && r.cause.Some? <==>
                  !Fired(token, checkedAt) && script[k - 1].reply.Failure? && script[k - 1].retryable
                  && (k == p.maxAttempts || (Delay(p, script, k) != 0 && Fired(token, script[k - 1].wokeAt))))
            && (r.Done? ==> r.value == script[k - 1].reply.value)
            && (r.Unchanged? ==> r.report == script[k - 1].reply.report)
            && (r.Exhausted? && r.cause.Some? ==> r.cause.value == script[k - 1].reply.report)
  {
    var k := Last(p, token, script);
    forall n | 1 <= n < k ensures TriedAgain(p, token, script, n) {
      BeforeLast(p, token, script, 1, n);
    }
  }

  lemma LastNotTriedAgain(p: Policy, token: Token, script: seq<Attempt>)
    requires p.maxAttempts <= |script|
    ensures !TriedAgain(p, token, script, Last(p, token, script))
    ensures forall n :: 1 <= n < Last(p, token, script) ==> TriedAgain(p, token, script, n)
  {
    OutcomeIff(p, token, 0, script);
  }

  lemma LastUnique(p: Policy, token: Token, script: seq<Attempt>, k: nat)
    requires 1 <= k <= p.maxAttempts <= |script| && !TriedAgain(p, token, script, k)
    requires forall n :: 1 <= n < k ==> TriedAgain(p, token, script, n)
    ensures k == Last(p, token, script)
  {
    LastNotTriedAgain(p, token, script);
  }

  /** Attempt `n` ends the loop whatever the token does. */
  predicate Conclusive(p: Policy, script: seq<Attempt>, n: nat)
    requires 1 <= n <= |script|
  {
    script[n - 1].reply.Success? || !script[n - 1].retryable || n == p.maxAttempts
  }

  /** If no backoff up to attempt `k` finds the token fired, the last attempt is the first that succeeds, fails for
      good, or is the last allowed: no failure to be retried goes unretried. */
  lemma UndisturbedLast(p: Policy, token: Token, script: seq<Attempt>, k: nat)
    requires 1 <= k <= p.maxAttempts <= |script|
    requires forall n :: 1 <= n <= k && !Conclusive(p, script, n) ==> !Fired(token, script[n - 1].wokeAt)
    ensures Last(p, token, script) == k
            <==> Conclusive(p, script, k) && forall n :: 1 <= n < k ==> !Conclusive(p, script, n)
  {
    LastNotTriedAgain(p, token, script);
    if Conclusive(p, script, k) && forall n :: 1 <= n < k ==> !Conclusive(p, script, n) {
      forall n | 1 <= n < k ensures TriedAgain(p, token, script, n) {
        assert !Conclusive(p, script, n);
      }
      LastUnique(p, token, script, k);
    } else if Last(p, token, script) == k {
      forall n | 1 <= n < k ensures !Conclusive(p, script, n) {
        assert TriedAgain(p, token, script, n);
      }
    }
  }

  // ----- a description of every run -----------------------------------------------------------------

  predicate Counts(s: seq<nat>, n: nat) {
    |s| == n && forall i :: 0 <= i < n ==> s[i] == i + 1
  }

  /** `d` is the backoff after attempt `i + 1`. */
  ghost predicate SleepIs(p: Policy, script: seq<Attempt>, i: nat, d: nat)
    requires i < |script| && i < p.maxAttempts
  {
    IsBackoff(p.baseBackoff, p.maxBackoff, i + 1, p.jitter, script[i].entropy, d)
  }

  ghost predicate SleepsAre(p: Policy, script: seq<Attempt>, delays: seq<Duration>) {
    && |delays| <= |script| && |delays| <= p.maxAttempts
    && forall i :: 0 <= i < |delays| ==> SleepIs(p, script, i, delays[i])
  }

  /** The report `r` tells of a run whose last attempt is number `k`. */
  ghost predicate TellsLast(p: Policy, token: Token, script: seq<Attempt>, r: Report, k: nat) {
    && 1 <= k <= p.maxAttempts <= |script|
    && (forall n :: 1 <= n < k ==> TriedAgain(p, token, script, n)) && !TriedAgain(p, token, script, k)
    && var a := script[k - 1];
    && r.outcome == (match a.reply
                     case Success(v) => Done(v)
                     case Failure(e) => if a.retryable then Exhausted(Some(e)) else Unchanged(e))
    && Counts(r.log.calls, k)
    && Counts(r.log.consulted, if a.reply.Failure? then k else k - 1)
    && SleepsAre(p, script, r.log.delays)
    && |r.log.delays| == if a.reply.Failure? && a.retryable && k < p.maxAttempts then k else k - 1
  }

  ghost predicate Tells(p: Policy, token: Token, checkedAt: Instant, script: seq<Attempt>, r: Report) {
    if Fired(token, checkedAt) then r == Report(Exhausted(None), Log([], [], []))
    else exists k :: TellsLast(p, token, script, r, k)
  }

  lemma CountsUnique(s: seq<nat>, n: nat)
    ensures Counts(s, n) <==> s == UpTo(n)
  {
  }

  lemma {:induction false} DelaysAt(p: Policy, script: seq<Attempt>, d: nat, i: nat)
    requires i < d <= |script| && d <= p.maxAttempts
    ensures |Delays(p, script, d)| == d && Delays(p, script, d)[i] == Delay(p, script, i + 1)
  {
    if d == 1 {
    } else {
      DelaysAt(p, script, d - 1, if i < d - 1 then i else 0);
    }
  }

  lemma SleepsUnique(p: Policy, script: seq<Attempt>, delays: seq<Duration>)
    requires |delays| <= |script| && |delays| <= p.maxAttempts
    ensures SleepsAre(p, script, delays) <==> delays == Delays(p, script, |delays|)
  {
    var n := |delays|;
    if n > 0 {
      DelaysAt(p, script, n, 0);
    }
    forall i | 0 <= i < n ensures SleepIs(p, script, i, delays[i]) <==> delays[i] == Delays(p, script, n)[i] {
      DelaysAt(p, script, n, i);
      DelayIff(p.baseBackoff, p.maxBackoff, i + 1, p.jitter, script[i].entropy, delays[i]);
    }
  }

  lemma DelaysLength(p: Policy, script: seq<Attempt>, d: nat)
    requires d <= |script| && d <= p.maxAttempts
    ensures |Delays(p, script, d)| == d
  {
    if d > 0 {
      DelaysAt(p, script, d, 0);
    }
  }

  lemma ExpectedTells(p: Policy, token: Token, checkedAt: Instant, script: seq<Attempt>)
    requires p.maxAttempts <= |script| && !Fired(token, checkedAt)
    ensures TellsLast(p, token, script, Expected(p, token, checkedAt, script), Last(p, token, script))
  {
    var k, r := Last(p, token, script), Expected(p, token, checkedAt, script);
    LastNotTriedAgain(p, token, script);
    DelaysLength(p, script, Backoffs(p, token, script, k));
    SleepsUnique(p, script, r.log.delays);
  }

  lemma SameLog(p: Policy, token: Token, checkedAt: Instant, script: seq<Attempt>, r: Report, k: nat)
    requires TellsLast(p, token, script, r, k)
    requires TellsLast(p, token, script, Expected(p, token, checkedAt, script), k)
    ensures r == Expected(p, token, checkedAt, script)
  {
    var s := Expected(p, token, checkedAt, script);
    CountsUnique(r.log.calls, k);
    CountsUnique(s.log.calls, k);
    CountsUnique(r.log.consulted, if script[k - 1].reply.Failure? then k else k - 1);
    CountsUnique(s.log.consulted, if script[k - 1].reply.Failure? then k else k - 1);
    SleepsUnique(p, script, r.log.delays);
    SleepsUnique(p, script, s.log.delays);
  }

  /** What `run_if` returns, which attempts it makes, which failures it shows to the predicate and which
      backoffs it requests is exactly what the description tells, and it fits no other report. */
  lemma RunMeaning(p: Policy, token: Token, checkedAt: Instant, script: seq<Attempt>, r: Report)
    requires p.maxAttempts <= |script|
    ensures Tells(p, token, checkedAt, script, r) <==> r == Expected(p, token, checkedAt, script)
  {
    if !Fired(token, checkedAt) {
      ExpectedTells(p, token, checkedAt, script);
      if Tells(p, token, checkedAt, script, r) {
        var k :| TellsLast(p, token, script, r, k);
        LastUnique(p, token, script, k);
        SameLog(p, token, checkedAt, script, r, k);
      }
    }
  }

  // ----- bounds ---------------------------------------------------------------------------------------

  function Sum(s: seq<Duration>): nat {
    if s == [] then 0 else Sum(s[..|s| - 1]) + s[|s| - 1]
  }

  lemma Doubling(base: nat, d: nat)
    requires d > 0
    ensures base * (Pow2(d) - 1) == base * (Pow2(d - 1) - 1) + base * Pow2(d - 1)
  {
    var q := Pow2(d - 1);
    assert base * (2 * q - 1) == base * (q - 1) + base * q;
  }

  /** `d` backoffs add up to at most d times the cap and at most base * (2^d - 1), for every d,
      although the factor itself stops doubling at attempt 33. */
  lemma {:induction false} TotalBackoff(p: Policy, script: seq<Attempt>, d: nat)
    requires d <= |script| && d <= p.maxAttempts
    ensures Sum(Delays(p, script, d)) <= d * p.maxBackoff
    ensures Sum(Delays(p, script, d)) <= p.baseBackoff * (Pow2(d) - 1)
  {
    if d == 0 {
    } else {
      TotalBackoff(p, script, d - 1);
      DelayBounds(p.baseBackoff, p.maxBackoff, d, p.jitter, script[d - 1].entropy);
      assert Delays(p, script, d)[..|Delays(p, script, d)| - 1] == Delays(p, script, d - 1);
      Doubling(p.baseBackoff, d);
      assert d * p.maxBackoff == (d - 1) * p.maxBackoff + p.maxBackoff;
    }
  }

  /** `Retry::new()`: 3 attempts, 200ms base, 30s cap, full jitter. */
  const DEFAULT := Policy(3, 200_000_000, 30_000_000_000, true)

  /** Its two backoffs are drawn below 200ms and below 400ms. */
  lemma DefaultBackoff(script: seq<Attempt>, n: nat)
    requires 1 <= n <= 2 && n <= |script|
    ensures IsRemainder(script[n - 1].entropy, n * 200_000_000, Delay(DEFAULT, script, n))
  {
    assert Pow2(0) == 1 && Pow2(1) == 2;
    DelayIff(DEFAULT.baseBackoff, DEFAULT.maxBackoff, n, true, script[n - 1].entropy, Delay(DEFAULT, script, n));
  }

  lemma TwoDefaultBackoffs(d: nat)
    requires d <= 2
    ensures DEFAULT.baseBackoff * (Pow2(d) - 1) <= 600_000_000
  {
    assert Pow2(0) == 1 && Pow2(1) == 2 && Pow2(2) == 4;
  }

  /** The default policy never waits more than 600ms in all. */
  lemma DefaultWaitsAtMost600ms(token: Token, checkedAt: Instant, script: seq<Attempt>)
    requires |script| >= 3
    ensures Sum(Expected(DEFAULT, token, checkedAt, script).log.delays) <= 600_000_000
  {
    var k := Last(DEFAULT, token, script);
    var d := Backoffs(DEFAULT, token, script, k);
    assert d <= 2;
    TotalBackoff(DEFAULT, script, d);
    TwoDefaultBackoffs(d);
  }

  /** An attempt that starts once the token has fired, and is not the last, is followed by a zero
      backoff: the only kind of backoff that does not look at the token. */
  lemma OnlyZeroBackoffsOutliveCancel(p: Policy, token: Token, checkedAt: Instant, script: seq<Attempt>, n: nat)
    requires p.maxAttempts <= |script| && WellTimed(checkedAt, script) && token.FiresAt?
    requires 1 <= n < Last(p, token, script) && token.at <= script[n - 1].wokeAt
    ensures Delay(p, script, n) == 0
  {
    BeforeLast(p, token, script, 1, n);
  }

  function StartOf(script: seq<Attempt>, n: nat): Instant
    requires 1 <= n <= |script|
  {
    script[n - 1].startedAt
  }

  /** After the token has fired at most one further call of `op` starts. */
  ghost predicate AtMostOneLateCall(p: Policy, token: Token, checkedAt: Instant, script: seq<Attempt>)
    requires p.maxAttempts <= |script|
  {
    token.FiresAt? && !token.Cancelled(checkedAt) ==>
      forall n :: 1 <= n < Last(p, token, script) ==> StartOf(script, n) < token.at
  }

  ghost predicate HonoursCancel(p: Policy) {
    forall token: Token, checkedAt: Instant, script: seq<Attempt> |
      p.maxAttempts <= |script| && WellTimed(checkedAt, script) :: AtMostOneLateCall(p, token, checkedAt, script)
  }

  /** Failures that all start after a token firing at instant 1, with a jitter draw of zero. */
  function LateFailures(p: Policy): (script: seq<Attempt>)
    ensures |script| == p.maxAttempts && WellTimed(0, script)
  {
    seq(p.maxAttempts, _ => Attempt(1, 1, Failure(0), true, 0, 1))
  }

  lemma {:induction false} BackoffsVanish(p: Policy, n: nat)
    requires 1 <= n <= p.maxAttempts && (p.jitter || p.baseBackoff == 0 || p.maxBackoff == 0)
    ensures LastFrom(p, FiresAt(1), LateFailures(p), n) == p.maxAttempts
    decreases p.maxAttempts - n
  {
    ZeroDelayIff(p.baseBackoff, p.maxBackoff, n, 0);
    JitterOf(Capped(p.baseBackoff, p.maxBackoff, n), 0);
    assert Delay(p, LateFailures(p), n) == 0;
    if n == p.maxAttempts {
    } else {
      BackoffsVanish(p, n + 1);
    }
  }

  /** A cancellation is honoured in every run exactly when there is only one attempt or no backoff
      can be zero: jitter off, and neither the base nor the cap zero. (With jitter the draw may be
      zero, and then the token is not looked at before the next call.) */
  lemma HonoursCancelIff(p: Policy)
    ensures HonoursCancel(p) <==> p.maxAttempts == 1 || (!p.jitter && p.baseBackoff > 0 && p.maxBackoff > 0)
  {
    if p.maxAttempts == 1 || (!p.jitter && p.baseBackoff > 0 && p.maxBackoff > 0) {
      forall token: Token, checkedAt: Instant, script: seq<Attempt> |
        p.maxAttempts <= |script| && WellTimed(checkedAt, script)
        ensures AtMostOneLateCall(p, token, checkedAt, script)
      {
        forall n | 1 <= n < Last(p, token, script) && token.FiresAt? ensures StartOf(script, n) < token.at {
          BeforeLast(p, token, script, 1, n);
          ZeroDelayIff(p.baseBackoff, p.maxBackoff, n, script[n - 1].entropy);
        }
      }
    } else {
      var script := LateFailures(p);
      BackoffsVanish(p, 1);
      assert StartOf(script, 1) == 1;
      assert !AtMostOneLateCall(p, FiresAt(1), 0, script);
    }
  }
}
