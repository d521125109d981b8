/** What whole runs of `Supervisor::run` guarantee, for every script, token and policy. */
module SupervisionGuarantees {
  import opened Machine
  import opened Backoff
  import opened Supervision

  // ----- reading the reference --------------------------------------------------------

  lemma {:induction false} EndIsFirst(p: Policy, token: Token, script: seq<Round>, k: nat, i: nat)
    requires k <= |script| && k <= i < EndFrom(p, token, script, k)
    ensures Verdict(p, token, script, i).None?
    decreases |script| - k
  {
    if k == i {
    } else {
      EndIsFirst(p, token, script, k + 1, i);
    }
  }

  lemma {:induction false} EndBy(p: Policy, token: Token, script: seq<Round>, k: nat, i: nat)
    requires k <= i < |script| && Verdict(p, token, script, i).Some?
    ensures EndFrom(p, token, script, k) <= i
    decreases |script| - k
  {
    if k == i || Verdict(p, token, script, k).Some? {
    } else {
      EndBy(p, token, script, k + 1, i);
    }
  }

  /** A round that takes part in the run: it is the last one or an earlier one. */
  predicate Reached(p: Policy, token: Token, script: seq<Round>, k: nat) {
    k < |script| && k <= End(p, token, script)
  }

  lemma RestartedRound(p: Policy, token: Token, script: seq<Round>, k: nat)
    requires k < Restarts(p, token, script)
    ensures Reached(p, token, script, k) && VerdictBeforeSleep(p, token, script, k).None?
  {
    if k < End(p, token, script) {
      EndIsFirst(p, token, script, 0, k);
    }
  }

  // ----- the window ---------------------------------------------------------------------

  lemma {:induction false} AllExpired(h: seq<Instant>, now: Instant, window: Option<Duration>)
    requires Sorted(h) && h != [] && Expired(window, now, h[|h| - 1])
    ensures Recent(h, now, window) == []
    ensures forall i :: 0 <= i < |h| ==> Expired(window, now, h[i])
  {
    forall i | 0 <= i < |h| ensures Expired(window, now, h[i]) {
      assert h[i] <= h[|h| - 1];
    }
    if |h| == 1 {
    } else {
      AllExpired(h[..|h| - 1], now, window);
    }
  }

  /** The filter keeps the suffix of `h` that begins at `m`, and that is where nothing is expired. */
  predicate KeepsFrom(h: seq<Instant>, m: nat, now: Instant, window: Option<Duration>) {
    && m <= |h| && Recent(h, now, window) == h[m..]
    && forall i :: 0 <= i < |h| ==> (Expired(window, now, h[i]) <==> i < m)
  }

  lemma KeepsOneMore(init: seq<Instant>, last: Instant, m: nat, now: Instant, window: Option<Duration>)
    requires KeepsFrom(init, m, now, window) && !Expired(window, now, last)
    ensures KeepsFrom(init + [last], m, now, window)
  {
    assert (init + [last])[..|init|] == init;
    assert (init + [last])[m..] == init[m..] + [last];
  }

  lemma SortedInit(h: seq<Instant>)
    requires Sorted(h) && h != []
    ensures Sorted(h[..|h| - 1]) && h == h[..|h| - 1] + [h[|h| - 1]]
  {
  }

  /** On a sorted history the filter keeps a suffix. */
  lemma {:induction false} RecentIsSuffix(h: seq<Instant>, now: Instant, window: Option<Duration>) returns (m: nat)
    requires Sorted(h)
    ensures KeepsFrom(h, m, now, window)
  {
    if h == [] {
      m := 0;
    } else if Expired(window, now, h[|h| - 1]) {
      AllExpired(h, now, window);
      m := |h|;
    } else {
      SortedInit(h);
      m := RecentIsSuffix(h[..|h| - 1], now, window);
      KeepsOneMore(h[..|h| - 1], h[|h| - 1], m, now, window);
    }
  }

  /** At every budget check the deque holds, in order, exactly the restarts whose age is at most
      the window; it is sorted, non-empty, and ends with the restart being recorded. */
  lemma WindowContents(p: Policy, script: seq<Round>, k: nat)
    requires WellTimed(script) && k < |script|
    ensures var d := InWindow(p, script, k);
            && 1 <= |d| <= k + 1
            && Sorted(d)
            && d == Recorded(script[..k + 1])[k + 1 - |d|..]
            && forall i :: 0 <= i <= k ==>
                 (Expired(p.restartWindow, script[k].recordedAt, script[i].recordedAt) <==> i < k + 1 - |d|)
  {
    var h, now := Recorded(script[..k + 1]), script[k].recordedAt;
    RecordedSorted(script, k);
    var m := RecentIsSuffix(h, now, p.restartWindow);
    assert forall i :: 0 <= i <= k ==> h[i] == script[i].recordedAt;
    assert !Expired(p.restartWindow, now, h[k]);
  }

  /** One more restart lengthens the window by at most one entry. */
  lemma WindowGrowsByOne(p: Policy, script: seq<Round>, k: nat)
    requires WellTimed(script) && 0 < k < |script|
    ensures |InWindow(p, script, k)| <= |InWindow(p, script, k - 1)| + 1
  {
    var d, now := InWindow(p, script, k - 1), script[k].recordedAt;
    PushKeepsWindow(p, script, k, d);
    RecentMembers(d + [now], now, p.restartWindow);
  }

  predicate RealCap(p: Policy) {
    p.maxRestarts.Some? && p.maxRestarts.value < U32_MAX
  }

  /** With a cap below 2^32 - 1 the deque never holds more than cap + 1 entries, so its length
      survives the cast to 32 bits, and no restart that is performed has more than cap. */
  lemma {:induction false} DequeBounded(p: Policy, token: Token, script: seq<Round>, k: nat)
    requires WellTimed(script) && RealCap(p) && Reached(p, token, script, k)
    ensures |InWindow(p, script, k)| <= p.maxRestarts.value + 1
    ensures k < Restarts(p, token, script) ==> |InWindow(p, script, k)| <= p.maxRestarts.value
  {
    if k == 0 {
      WindowContents(p, script, 0);
    } else {
      DequeBounded(p, token, script, k - 1);
      WindowGrowsByOne(p, script, k);
    }
    if k < Restarts(p, token, script) {
      RestartedRound(p, token, script, k);
      SmallRemainder(|InWindow(p, script, k)|, 0x1_0000_0000);
    }
  }

  // ----- the sliding-window budget --------------------------------------------------------

  /** How many entries of `h` lie in the closed interval [from, to]. */
  function CountIn(h: seq<Instant>, from: int, to: int): nat {
    if h == [] then 0
    else CountIn(h[..|h| - 1], from, to) + if from <= h[|h| - 1] <= to then 1 else 0
  }

  /** How many lie in the closed interval of length `w` that begins at `from`. */
  function CountWindow(h: seq<Instant>, from: int, w: nat): nat {
    CountIn(h, from, from + w)
  }

  /** The instants recorded for the restarts that the supervisor goes on to perform. */
  function Performed(p: Policy, token: Token, script: seq<Round>): seq<Instant> {
    Recorded(script[..Restarts(p, token, script)])
  }

  lemma {:induction false} CountAtMostRecent(h: seq<Instant>, from: int, now: Instant, w: Duration)
    requires now <= from + w
    ensures CountIn(h, from, from + w) <= |Recent(h, now, Some(w))|
  {
    if h == [] {
    } else {
      CountAtMostRecent(h[..|h| - 1], from, now, w);
    }
  }

  lemma {:induction false} WindowBudgetPrefix(p: Policy, token: Token, script: seq<Round>, m: nat, from: int)
    requires WellTimed(script) && RealCap(p) && p.restartWindow.Some?
    requires m <= Restarts(p, token, script)
    ensures CountIn(Recorded(script[..m]), from, from + p.restartWindow.value) <= p.maxRestarts.value
  {
    if m == 0 {
    } else {
      var h, w := Recorded(script[..m]), p.restartWindow.value;
      assert h[..m - 1] == Recorded(script[..m - 1]);
      if from <= h[m - 1] <= from + w {
        CountAtMostRecent(h, from, h[m - 1], w);
        RestartedRound(p, token, script, m - 1);
        DequeBounded(p, token, script, m - 1);
      } else {
        WindowBudgetPrefix(p, token, script, m - 1, from);
      }
    }
  }

  /** Whatever happens, every closed interval as long as the window contains at most `cap` of the
      restarts that are performed. */
  lemma SlidingWindowBudget(p: Policy, token: Token, script: seq<Round>, from: int)
    requires WellTimed(script) && RealCap(p) && p.restartWindow.Some?
    ensures CountWindow(Performed(p, token, script), from, p.restartWindow.value) <= p.maxRestarts.value
  {
    WindowBudgetPrefix(p, token, script, Restarts(p, token, script), from);
  }

  lemma {:induction false} CountSplits(h: seq<Instant>, from: int, mid: int, to: int)
    requires from <= mid <= to
    ensures CountIn(h, from, to) <= CountIn(h, from, mid) + CountIn(h, mid, to)
  {
    if h == [] {
    } else {
      CountSplits(h[..|h| - 1], from, mid, to);
    }
  }

  lemma {:induction false} CountWidens(h: seq<Instant>, from: int, mid: int, to: int)
    requires mid <= to
    ensures CountIn(h, from, mid) <= CountIn(h, from, to)
  {
    if h == [] {
    } else {
      CountWidens(h[..|h| - 1], from, mid, to);
    }
  }

  lemma OneMore(a: nat, b: nat)
    ensures a * (b + 1) == a * b + a
  {
  }

  lemma SmallQuotient(x: nat, n: nat)
    requires x < n
    ensures x / n == 0
  {
    SmallRemainder(x, n);
    assert x == n * (x / n) + x % n;
  }

  lemma OneLess(x: nat, n: nat)
    requires 0 < n <= x
    ensures x / n == (x - n) / n + 1
  {
    var q, r := (x - n) / n, (x - n) % n;
    assert x == n * (q + 1) + r;
    assert x == n * (x / n) + x % n;
    var d := x / n - (q + 1);
    assert n * d == r - x % n;
    if d >= 1 {
      MulMonotone(n, 1, d);
    }
  }

  /** From windows to spans: a span is covered by one window more than fit into it. */
  lemma {:induction false} WindowsCoverSpan(h: seq<Instant>, w: nat, cap: nat, from: int, span: nat)
    requires w > 0 && forall f: int :: CountWindow(h, f, w) <= cap
    ensures CountIn(h, from, from + span) <= cap * (span / w + 1)
    decreases span
  {
    assert CountWindow(h, from, w) <= cap;
    if span < w {
      CountWidens(h, from, from + span, from + w);
      SmallQuotient(span, w);
    } else {
      WindowsCoverSpan(h, w, cap, from + w, span - w);
      CountSplits(h, from, from + w, from + span);
      OneLess(span, w);
      OneMore(cap, (span - w) / w + 1);
    }
  }

  /** A span of length T holds at most cap * (floor(T / window) + 1) performed restarts. */
  lemma SpanBudget(p: Policy, token: Token, script: seq<Round>, from: int, span: nat)
    requires WellTimed(script) && RealCap(p) && p.restartWindow.Some? && p.restartWindow.value > 0
    ensures CountIn(Performed(p, token, script), from, from + span)
            <= p.maxRestarts.value * (span / p.restartWindow.value + 1)
  {
    var h, w := Performed(p, token, script), p.restartWindow.value;
    forall f: int ensures CountWindow(h, f, w) <= p.maxRestarts.value {
      SlidingWindowBudget(p, token, script, f);
    }
    WindowsCoverSpan(h, w, p.maxRestarts.value, from, span);
  }

  /** At a round that is reached the cast does no harm. */
  lemma OverBudgetIff(p: Policy, token: Token, script: seq<Round>, k: nat)
    requires WellTimed(script) && RealCap(p) && Reached(p, token, script, k)
    ensures OverBudget(p, |InWindow(p, script, k)|) <==> |InWindow(p, script, k)| == p.maxRestarts.value + 1
  {
    DequeBounded(p, token, script, k);
    SmallRemainder(|InWindow(p, script, k)|, 0x1_0000_0000);
  }

  /** The window is over the cap exactly when the restart `cap` places earlier is still inside it. */
  lemma FullWindowIff(p: Policy, token: Token, script: seq<Round>, k: nat)
    requires WellTimed(script) && RealCap(p) && Reached(p, token, script, k)
    ensures var cap := p.maxRestarts.value;
            |InWindow(p, script, k)| == cap + 1
            <==> k >= cap && !Expired(p.restartWindow, script[k].recordedAt, script[k - cap].recordedAt)
  {
    DequeBounded(p, token, script, k);
    WindowContents(p, script, k);
  }

  /** When the loop gives up. At a round it reaches, with the token quiet and the exit
      restartable, the budget is exhausted exactly when the restart recorded `cap` places earlier
      is still inside the window; equivalently when the window holds exactly cap + 1 restarts. */
  lemma ExhaustedIff(p: Policy, token: Token, script: seq<Round>, k: nat)
    requires WellTimed(script) && RealCap(p) && Reached(p, token, script, k)
    requires !token.Cancelled(script[k].joinedAt) && ExitVerdict(p, script[k].exit).None?
    ensures var cap := p.maxRestarts.value;
            && (End(p, token, script) == k && FinalOutcome(p, token, script) == Error(RetryExhausted, None)
                <==> |InWindow(p, script, k)| == cap + 1)
            && (|InWindow(p, script, k)| == cap + 1
                <==> k >= cap && !Expired(p.restartWindow, script[k].recordedAt, script[k - cap].recordedAt))
  {
    OverBudgetIff(p, token, script, k);
    FullWindowIff(p, token, script, k);
    if |InWindow(p, script, k)| == p.maxRestarts.value + 1 {
      EndBy(p, token, script, 0, k);
    }
  }

  // ----- without a window: termination ---------------------------------------------------

  lemma WithoutWindow(p: Policy, script: seq<Round>, k: nat)
    requires WellTimed(script) && k < |script| && p.restartWindow.None?
    ensures |InWindow(p, script, k)| == k + 1
  {
    NothingExpired(Recorded(script[..k + 1]), script[k].recordedAt, p.restartWindow);
  }

  lemma CountsAtEnd(p: Policy, token: Token, script: seq<Round>, e: nat)
    requires e == End(p, token, script)
    ensures Calls(p, token, script) <= e + 1 && Restarts(p, token, script) <= e + 1
    ensures e == |script| ==> Calls(p, token, script) == Restarts(p, token, script) == e
    ensures e < |script| ==> FinalOutcome(p, token, script) != StillRunning
    ensures e < |script| && VerdictBeforeSleep(p, token, script, e).Some? ==> Restarts(p, token, script) == e
  {
  }

  lemma EndsAtCap(p: Policy, token: Token, script: seq<Round>)
    requires WellTimed(script) && RealCap(p) && p.restartWindow.None?
    requires |script| > p.maxRestarts.value
    ensures VerdictBeforeSleep(p, token, script, p.maxRestarts.value).Some?
  {
    WithoutWindow(p, script, p.maxRestarts.value);
    SmallRemainder(p.maxRestarts.value + 1, 0x1_0000_0000);
  }

  /** Without a window the supervisor ends within cap + 1 turns, so it calls the factory at most
      cap + 1 times and performs at most cap restarts. */
  lemma TotalBudget(p: Policy, token: Token, script: seq<Round>)
    requires WellTimed(script) && RealCap(p) && p.restartWindow.None?
    ensures Calls(p, token, script) <= p.maxRestarts.value + 1
    ensures Restarts(p, token, script) <= p.maxRestarts.value
    ensures |script| > p.maxRestarts.value ==> FinalOutcome(p, token, script) != StillRunning
  {
    var e := End(p, token, script);
    if |script| > p.maxRestarts.value {
      EndsAtCap(p, token, script);
      EndBy(p, token, script, 0, p.maxRestarts.value);
    }
    CountsAtEnd(p, token, script, e);
  }

  /** With the token quiet up to the last join and every exit restartable it is exactly cap + 1 calls,
      and then the budget error, which carries no task report although the last task may have failed. */
  lemma CrashLoopExhausts(p: Policy, token: Token, script: seq<Round>)
    requires WellTimed(script) && RealCap(p) && p.restartWindow.None?
    requires |script| > p.maxRestarts.value
    requires !token.Cancelled(script[p.maxRestarts.value].joinedAt)
    requires forall k :: 0 <= k <= p.maxRestarts.value ==> ExitVerdict(p, script[k].exit).None?
    ensures Calls(p, token, script) == p.maxRestarts.value + 1
    ensures FinalOutcome(p, token, script) == Error(RetryExhausted, None)
  {
    var cap, e := p.maxRestarts.value, End(p, token, script);
    TotalBudget(p, token, script);
    assert e <= cap;
    assert e < cap ==> script[e].wokeAt <= script[cap].headAt;
    WithoutWindow(p, script, e);
    SmallRemainder(e + 1, 0x1_0000_0000);
  }

  // ----- cancellation -----------------------------------------------------------------------

  /** The loop ends no later than the first turn whose head sees the token fired, and once the
      token has fired at most one further call of the factory starts: every call but the last is
      even joined before. */
  lemma CancelStopsRestarts(p: Policy, token: Token, script: seq<Round>)
    requires WellTimed(script) && token.FiresAt?
    ensures forall i :: 0 <= i < Calls(p, token, script) - 1 ==>
              script[i].startedAt <= script[i].joinedAt < token.at
    ensures forall k :: 0 <= k < |script| && token.at <= script[k].headAt ==>
              End(p, token, script) <= k && Calls(p, token, script) <= k
  {
    forall i | 0 <= i < Calls(p, token, script) - 1 ensures script[i].joinedAt < token.at {
      EndIsFirst(p, token, script, 0, i);
    }
    forall k | 0 <= k < |script| && token.at <= script[k].headAt
      ensures End(p, token, script) <= k && Calls(p, token, script) <= k
    {
      EndBy(p, token, script, 0, k);
    }
  }

  /** A cancellation seen at any of the three checkpoints of a turn gives `Ok(())` there. */
  lemma CancelSeenIsOk(p: Policy, token: Token, script: seq<Round>, k: nat)
    requires WellTimed(script) && Reached(p, token, script, k)
    requires || token.Cancelled(script[k].headAt)
             || token.Cancelled(script[k].joinedAt)
             || (VerdictBeforeSleep(p, token, script, k).None? && Delay(p, script, k) != 0
                 && token.Cancelled(script[k].wokeAt))
    ensures End(p, token, script) == k && FinalOutcome(p, token, script) == Stopped
  {
    EndBy(p, token, script, 0, k);
  }

  /** An error is returned only if the token had not fired by that turn's post-run check. */
  lemma ErrorOnlyBeforeCancel(p: Policy, token: Token, script: seq<Round>)
    requires FinalOutcome(p, token, script).Error?
    ensures var e := End(p, token, script);
            e < |script| && !token.Cancelled(script[e].joinedAt) && Calls(p, token, script) == e + 1
  {
  }

  /** Whatever the policy, no error carries a report of the supervised future as its cause. */
  lemma ErrorsCarryNoReport(p: Policy, token: Token, script: seq<Round>)
    ensures FinalOutcome(p, token, script).Error? ==> FinalOutcome(p, token, script).cause.None?
  {
  }

  /** What a task's exit decides once the token was seen quiet after the join: the run ends there
      with `Concurrency` exactly for a panic that is not to be restarted or a lost task, with `Ok`
      and nothing recorded exactly for a clean return that is not to be restarted; an error report
      alone never ends it. */
  lemma ExitDecides(p: Policy, token: Token, script: seq<Round>, k: nat)
    requires Reached(p, token, script, k) && !token.Cancelled(script[k].joinedAt)
    requires WellTimed(script)
    ensures End(p, token, script) == k && FinalOutcome(p, token, script) == Error(Concurrency, None)
            <==> script[k].exit.Aborted? || (script[k].exit.Panicked? && !p.restartOnPanic)
    ensures End(p, token, script) == k && FinalOutcome(p, token, script) == Stopped && Restarts(p, token, script) == k
            <==> script[k].exit.Finished? && !p.restartOnOk
    ensures script[k].exit.Failed? && !token.Cancelled(script[k].wokeAt) && p.maxRestarts.None? ==>
              k < End(p, token, script)
  {
    if Verdict(p, token, script, k).Some? {
      EndBy(p, token, script, 0, k);
    }
  }

  // ----- the backoff curve --------------------------------------------------------------------

  /** The run lasted at least as long as the largest backoff. */
  predicate LongRun(p: Policy, r: Round) {
    p.maxBackoff == 0 || r.elapsedAt - r.startedAt >= p.maxBackoff
  }

  /** `n` restarts since the latest long run, that run's own included, or since the start. */
  predicate StreakIs(p: Policy, script: seq<Round>, k: nat, n: nat)
    requires k < |script|
  {
    && 1 <= n <= k + 1
    && (forall i :: k + 1 - n < i <= k ==> !LongRun(p, script[i]))
    && (n <= k ==> LongRun(p, script[k + 1 - n]))
  }

  /** The counter is the number of restarts since the latest long run, that run's included. */
  lemma {:induction false} StreakMeaning(p: Policy, script: seq<Round>, k: nat)
    requires k < |script|
    ensures StreakIs(p, script, k, Streak(p, script, k))
  {
    if k == 0 || LongRun(p, script[k]) {
    } else {
      StreakMeaning(p, script, k - 1);
    }
  }

  lemma {:induction false} StreakExtends(p: Policy, script: seq<Round>, i: nat, j: nat)
    requires i <= j < |script|
    requires forall m :: i < m <= j ==> !LongRun(p, script[m])
    ensures Streak(p, script, j) == Streak(p, script, i) + (j - i)
    decreases j
  {
    if i == j {
    } else {
      StreakExtends(p, script, i, j - 1);
    }
  }

  /** Within a streak without long runs the un-jittered backoffs never shrink; all stay under the cap. */
  lemma BackoffWithinStreak(p: Policy, script: seq<Round>, i: nat, j: nat)
    requires i <= j < |script| && !p.jitter
    requires forall m :: i < m <= j ==> !LongRun(p, script[m])
    ensures Delay(p, script, i) <= Delay(p, script, j) <= p.maxBackoff
  {
    StreakExtends(p, script, i, j);
    DelayMonotone(p.baseBackoff, p.maxBackoff, Consecutive(p, script, i), Consecutive(p, script, j), 0);
  }

  /** The first backoff after a long run starts again from the short end of the curve, and every
      backoff is bounded by the cap and by the doubling of its place in the streak. */
  lemma BackoffBounds(p: Policy, script: seq<Round>, k: nat)
    requires k < |script|
    ensures Delay(p, script, k) <= p.maxBackoff
    ensures Delay(p, script, k) <= p.baseBackoff * Pow2(Streak(p, script, k) - 1)
    ensures LongRun(p, script[k]) ==> Delay(p, script, k) <= p.baseBackoff
  {
    StreakMeaning(p, script, k);
    var c := Consecutive(p, script, k);
    DelayBounds(p.baseBackoff, p.maxBackoff, c, p.jitter, script[k].entropy);
    Pow2Monotone(c - 1, Streak(p, script, k) - 1);
    MulMonotone(p.baseBackoff, Pow2(c - 1), Pow2(Streak(p, script, k) - 1));
  }

  lemma {:induction false} RequestedBackoff(p: Policy, script: seq<Round>, n: nat, i: nat)
    requires i < n <= |script|
    ensures |Delays(p, script, n)| == n && Delays(p, script, n)[i] == Delay(p, script, i)
  {
    if n == 1 {
    } else {
      RequestedBackoff(p, script, n - 1, if i < n - 1 then i else 0);
    }
  }
}
