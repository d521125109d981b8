/** A restart cap of 2^32 - 1 in src/concurrency/supervisor.rs: the check never fires, and whether the
    budget is kept all the same is decided by how slow the backoffs make the loop. */
module MaximalCap {
  import opened Machine
  import opened Backoff
  import opened Supervision
  import opened SupervisionGuarantees

  /** The budget as promised: at most `cap` restarts in every interval as long as the window, or
      at most `cap` in all when there is no window. */
  ghost predicate BudgetKept(p: Policy, token: Token, script: seq<Round>) {
    p.maxRestarts.Some? ==>
      var h := Performed(p, token, script);
      match p.restartWindow
      case Some(w) => forall from: int :: CountWindow(h, from, w) <= p.maxRestarts.value
      case None => |h| <= p.maxRestarts.value
  }

  /** The scripts a real clock can produce: a sleep that runs to its end takes at least its delay. */
  predicate Genuine(p: Policy, token: Token, script: seq<Round>) {
    && WellTimed(script)
    && forall k :: 0 <= k < End(p, token, script) ==> script[k].recordedAt + Delay(p, script, k) <= script[k].wokeAt
  }

  ghost predicate AlwaysKept(p: Policy) {
    forall token: Token, script: seq<Round> | Genuine(p, token, script) :: BudgetKept(p, token, script)
  }

  lemma NeverOver(p: Policy, restarts: nat)
    requires p.maxRestarts == Some(U32_MAX)
    ensures !OverBudget(p, restarts)
  {
  }

  /** With a cap of 2^32 - 1 no run at all ends with the budget error: the cast wraps first. */
  lemma MaximalCapNeverFires(p: Policy, token: Token, script: seq<Round>)
    requires p.maxRestarts == Some(U32_MAX)
    ensures FinalOutcome(p, token, script) != Error(RetryExhausted, None)
  {
    var e := End(p, token, script);
    if e < |script| {
      NeverOver(p, |InWindow(p, script, e)|);
    }
  }

  // ----- the least time that restarts take -----------------------------------------------------

  function Next(counter: u32): u32 {
    Min(counter + 1, U32_MAX)
  }

  /** The least time in which `n` more restarts can follow one with this counter, when `delays` are the
      shortest backoffs after each counter: a run before them that resets the counter lasts `reset`. */
  function LeastSpan(delays: u32 -> nat, reset: nat, n: nat, counter: u32): nat
    decreases n
  {
    if n == 0 then 0
    else
      var on, anew := LeastSpan(delays, reset, n - 1, Next(counter)), LeastSpan(delays, reset, n - 1, 1);
      delays(counter) + Min(on, reset + anew)
  }

  predicate Rising(delays: u32 -> nat) {
    forall a: u32, b: u32 | a <= b :: delays(a) <= delays(b)
  }

  lemma {:induction false} SpanMonotoneInCounter(delays: u32 -> nat, reset: nat, n: nat, a: u32, b: u32)
    requires Rising(delays) && a <= b
    ensures LeastSpan(delays, reset, n, a) <= LeastSpan(delays, reset, n, b)
    decreases n
  {
    if n == 0 {
    } else {
      SpanMonotoneInCounter(delays, reset, n - 1, Next(a), Next(b));
    }
  }

  lemma {:induction false} SpanMonotone(delays: u32 -> nat, reset: nat, m: nat, n: nat, counter: u32)
    requires m <= n
    ensures LeastSpan(delays, reset, m, counter) <= LeastSpan(delays, reset, n, counter)
    decreases n
  {
    if m == 0 {
    } else {
      SpanMonotone(delays, reset, m - 1, n - 1, Next(counter));
      SpanMonotone(delays, reset, m - 1, n - 1, 1);
    }
  }

  /** The shortest backoffs that the policy allows. */
  function LeastDelays(p: Policy): u32 -> nat {
    counter => if p.jitter then 0 else Capped(p.baseBackoff, p.maxBackoff, counter)
  }

  /** The least time in which `n` restarts can follow the first one of a run. */
  function SpanOf(p: Policy, n: nat): nat {
    LeastSpan(LeastDelays(p), p.maxBackoff, n, 1)
  }

  lemma LeastDelaysRise(p: Policy)
    ensures Rising(LeastDelays(p))
  {
    forall a: u32, b: u32 | a <= b ensures LeastDelays(p)(a) <= LeastDelays(p)(b) {
      DelayMonotone(p.baseBackoff, p.maxBackoff, a, b, 0);
    }
  }

  // ----- no run is faster -----------------------------------------------------------------------

  /** No backoff of the script is shorter than `delays` says. */
  predicate NoShorter(p: Policy, script: seq<Round>, delays: u32 -> nat) {
    forall k :: 0 <= k < |script| ==> delays(Consecutive(p, script, k)) <= Delay(p, script, k)
  }

  /** From a restart at `t` with counter `c` to the next, at `t'` with counter `c'`. */
  predicate Gap(delays: u32 -> nat, reset: nat, t: Instant, c: u32, t': Instant, c': u32) {
    (c' == Next(c) && t' >= t + delays(c)) || (c' == 1 && t' >= t + delays(c) + reset)
  }

  predicate Gaps(delays: u32 -> nat, reset: nat, times: seq<Instant>, counters: seq<u32>) {
    |times| == |counters| && forall k :: 0 <= k < |times| - 1 ==>
      Gap(delays, reset, times[k], counters[k], times[k + 1], counters[k + 1])
  }

  lemma {:induction false} GapsAddUp(delays: u32 -> nat, reset: nat, times: seq<Instant>, counters: seq<u32>,
                                     i: nat, n: nat)
    requires Gaps(delays, reset, times, counters) && i + n < |times|
    ensures times[i + n] >= times[i] + LeastSpan(delays, reset, n, counters[i])
    decreases n
  {
    if n == 0 {
    } else {
      assert Gap(delays, reset, times[i], counters[i], times[i + 1], counters[i + 1]);
      GapsAddUp(delays, reset, times, counters, i + 1, n - 1);
    }
  }

  lemma OneGap(p: Policy, token: Token, script: seq<Round>, delays: u32 -> nat, i: nat)
    requires Genuine(p, token, script) && NoShorter(p, script, delays) && i + 1 < |script| && i < End(p, token, script)
    ensures Gap(delays, p.maxBackoff, script[i].recordedAt, Consecutive(p, script, i),
                script[i + 1].recordedAt, Consecutive(p, script, i + 1))
  {
    var r, s := script[i], script[i + 1];
    assert r.recordedAt + Delay(p, script, i) <= r.wokeAt <= s.headAt;
  }

  /** The counters at the first `n` restarts. */
  function Counters(p: Policy, script: seq<Round>, n: nat): (counters: seq<u32>)
    requires n <= |script|
    ensures |counters| == n && forall k :: 0 <= k < n ==> counters[k] == Consecutive(p, script, k)
  {
    seq(n, k requires 0 <= k < n => Consecutive(p, script, k))
  }

  /** `n` restarts after the i-th at least the least span has passed. */
  lemma RestartsTakeTime(p: Policy, token: Token, script: seq<Round>, delays: u32 -> nat, i: nat, n: nat)
    requires Genuine(p, token, script) && NoShorter(p, script, delays) && i + n < Restarts(p, token, script)
    ensures script[i + n].recordedAt
            >= script[i].recordedAt + LeastSpan(delays, p.maxBackoff, n, Consecutive(p, script, i))
  {
    var times, counters := Performed(p, token, script), Counters(p, script, Restarts(p, token, script));
    forall k | 0 <= k < |times| - 1
      ensures Gap(delays, p.maxBackoff, times[k], counters[k], times[k + 1], counters[k + 1])
    {
      OneGap(p, token, script, delays, k);
    }
    GapsAddUp(delays, p.maxBackoff, times, counters, i, n);
  }

  lemma SpanGrows(delays: u32 -> nat, reset: nat, m: nat, n: nat, counter: u32)
    requires Rising(delays) && m <= n && counter >= 1
    ensures LeastSpan(delays, reset, m, 1) <= LeastSpan(delays, reset, n, counter)
  {
    SpanMonotone(delays, reset, m, n, 1);
    SpanMonotoneInCounter(delays, reset, n, 1, counter);
  }

  lemma LeastDelaysAreLeast(p: Policy, script: seq<Round>)
    ensures NoShorter(p, script, LeastDelays(p))
  {
  }

  lemma FarApart(p: Policy, token: Token, script: seq<Round>, i: nat, m: nat, n: nat)
    requires Genuine(p, token, script) && i + n < Restarts(p, token, script) && m <= n
    ensures script[i + n].recordedAt >= script[i].recordedAt + SpanOf(p, m)
  {
    LeastDelaysAreLeast(p, script);
    LeastDelaysRise(p);
    StreakMeaning(p, script, i);
    SpanGrows(LeastDelays(p), p.maxBackoff, m, n, Consecutive(p, script, i));
    RestartsTakeTime(p, token, script, LeastDelays(p), i, n);
  }

  /** Where entries lie in an interval there are a first and a last, as many places apart. */
  lemma {:induction false} CountSpread(h: seq<Instant>, from: int, to: int) returns (i: nat, n: nat)
    requires CountIn(h, from, to) >= 1
    ensures i + n < |h| && from <= h[i] && h[i + n] <= to && n + 1 >= CountIn(h, from, to)
  {
    var init, last := h[..|h| - 1], |h| - 1;
    if !(from <= h[last] <= to) {
      i, n := CountSpread(init, from, to);
    } else if CountIn(init, from, to) == 0 {
      i, n := last, 0;
    } else {
      i, n := CountSpread(init, from, to);
      n := last - i;
    }
  }

  lemma PerformedSpread(p: Policy, token: Token, script: seq<Round>, from: int, w: nat, m: nat)
    returns (i: nat, n: nat)
    requires CountWindow(Performed(p, token, script), from, w) > m
    ensures i + n < Restarts(p, token, script) && m <= n
    ensures script[i + n].recordedAt <= script[i].recordedAt + w
  {
    i, n := CountSpread(Performed(p, token, script), from, from + w);
  }

  lemma WindowHoldsAtMost(p: Policy, token: Token, script: seq<Round>, from: int, w: Duration, cap: nat)
    requires Genuine(p, token, script) && SpanOf(p, cap) > w
    ensures CountWindow(Performed(p, token, script), from, w) <= cap
  {
    if CountWindow(Performed(p, token, script), from, w) > cap {
      var i, n := PerformedSpread(p, token, script, from, w, cap);
      FarApart(p, token, script, i, cap, n);
    }
  }

  lemma SlowLoopKeepsBudget(p: Policy, token: Token, script: seq<Round>, w: Duration)
    requires p.maxRestarts.Some? && p.restartWindow == Some(w) && Genuine(p, token, script)
    requires SpanOf(p, p.maxRestarts.value) > w
    ensures BudgetKept(p, token, script)
  {
    forall from: int ensures CountWindow(Performed(p, token, script), from, w) <= p.maxRestarts.value {
      WindowHoldsAtMost(p, token, script, from, w, p.maxRestarts.value);
    }
  }

  // ----- one run is as fast -----------------------------------------------------------------------

  /** A restart: the counter the loop then has, when it is recorded, and how long its run was. */
  datatype Pace = Pace(counter: u32, at: Instant, ran: nat)

  /** `b` is the next restart after `a`, the sleep being as short as can be, and the run either failing
      at once or lasting just long enough to reset the counter. */
  predicate Follows(delays: u32 -> nat, reset: nat, a: Pace, b: Pace) {
    var woke := a.at + delays(a.counter);
    b == if b.ran >= reset then Pace(1, woke + reset, reset) else Pace(Next(a.counter), woke, 0)
  }

  predicate Paced(delays: u32 -> nat, reset: nat, paces: seq<Pace>) {
    && (forall k :: 0 <= k < |paces| ==> paces[k].ran <= paces[k].at)
    && forall k :: 0 < k < |paces| ==> Follows(delays, reset, paces[k - 1], paces[k])
  }

  /** The restart after `a` that leaves less to wait for `n` more. */
  function Quicker(delays: u32 -> nat, reset: nat, n: nat, a: Pace): Pace {
    var woke := a.at + delays(a.counter);
    if reset + LeastSpan(delays, reset, n, 1) <= LeastSpan(delays, reset, n, Next(a.counter))
    then Pace(1, woke + reset, reset)
    else Pace(Next(a.counter), woke, 0)
  }

  lemma QuickerFollows(delays: u32 -> nat, reset: nat, n: nat, a: Pace)
    requires Rising(delays)
    ensures var b := Quicker(delays, reset, n, a);
            && Follows(delays, reset, a, b) && b.ran <= b.at
            && b.at + LeastSpan(delays, reset, n, b.counter) == a.at + LeastSpan(delays, reset, n + 1, a.counter)
  {
    SpanMonotoneInCounter(delays, reset, n, 1, Next(a.counter));
  }

  lemma Prepended(delays: u32 -> nat, reset: nat, first: Pace, rest: seq<Pace>) returns (paces: seq<Pace>)
    requires rest != [] && Paced(delays, reset, rest)
    requires Follows(delays, reset, first, rest[0]) && first.ran <= first.at
    ensures paces == [first] + rest && Paced(delays, reset, paces)
  {
    paces := [first] + rest;
    forall k | 0 < k < |paces| ensures Follows(delays, reset, paces[k - 1], paces[k]) {
      assert k > 1 ==> Follows(delays, reset, rest[k - 2], rest[k - 1]);
    }
  }

  /** There is a run whose last restart comes at the least span after its first. */
  lemma {:induction false} FastestPaces(delays: u32 -> nat, reset: nat, n: nat, first: Pace)
    returns (paces: seq<Pace>)
    requires Rising(delays) && first.ran <= first.at
    ensures |paces| == n + 1 && paces[0] == first && Paced(delays, reset, paces)
    ensures paces[n].at == first.at + LeastSpan(delays, reset, n, first.counter)
    decreases n
  {
    if n == 0 {
      paces := [first];
    } else {
      var next := Quicker(delays, reset, n - 1, first);
      QuickerFollows(delays, reset, n - 1, first);
      var rest := FastestPaces(delays, reset, n - 1, next);
      paces := Prepended(delays, reset, first, rest);
    }
  }

  function PacedRound(delays: u32 -> nat, pace: Pace): Round
    requires pace.ran <= pace.at
  {
    var started, woke := pace.at - pace.ran, pace.at + delays(pace.counter);
    Round(started, started, pace.at, pace.at, pace.at, woke, Failed(0), 0)
  }

  function PacedScript(delays: u32 -> nat, paces: seq<Pace>): (script: seq<Round>)
    requires forall k :: 0 <= k < |paces| ==> paces[k].ran <= paces[k].at
    ensures |script| == |paces| && forall k :: 0 <= k < |script| ==> script[k] == PacedRound(delays, paces[k])
  {
    seq(|paces|, k requires 0 <= k < |paces| => PacedRound(delays, paces[k]))
  }

  lemma {:induction false} PacedInOrder(delays: u32 -> nat, reset: nat, paces: seq<Pace>, j: nat, k: nat)
    requires Paced(delays, reset, paces) && j < k < |paces|
    ensures paces[j].at + delays(paces[j].counter) <= paces[k].at - paces[k].ran
    decreases k
  {
    assert Follows(delays, reset, paces[k - 1], paces[k]);
    if j == k - 1 {
    } else {
      PacedInOrder(delays, reset, paces, j, k - 1);
    }
  }

  lemma PacedIsWellTimed(delays: u32 -> nat, reset: nat, paces: seq<Pace>)
    requires Paced(delays, reset, paces)
    ensures WellTimed(PacedScript(delays, paces))
  {
    var script := PacedScript(delays, paces);
    forall j, k | 0 <= j < k < |script| ensures script[j].wokeAt <= script[k].headAt {
      PacedInOrder(delays, reset, paces, j, k);
    }
  }

  /** The loop's counter follows the pace. */
  lemma {:induction false} PacedCounter(p: Policy, delays: u32 -> nat, paces: seq<Pace>, k: nat)
    requires Paced(delays, p.maxBackoff, paces) && k < |paces| && paces[0].counter == 1
    ensures Consecutive(p, PacedScript(delays, paces), k) == paces[k].counter
  {
    if k == 0 {
    } else {
      PacedCounter(p, delays, paces, k - 1);
      assert Follows(delays, p.maxBackoff, paces[k - 1], paces[k]);
    }
  }

  lemma PacedDelay(p: Policy, paces: seq<Pace>, k: nat)
    requires Paced(LeastDelays(p), p.maxBackoff, paces) && k < |paces| && paces[0].counter == 1
    ensures var script := PacedScript(LeastDelays(p), paces);
            script[k].recordedAt + Delay(p, script, k) == script[k].wokeAt
  {
    PacedCounter(p, LeastDelays(p), paces, k);
    JitterOf(Capped(p.baseBackoff, p.maxBackoff, paces[k].counter), 0);
  }

  lemma PacedIsGenuine(p: Policy, paces: seq<Pace>)
    requires Paced(LeastDelays(p), p.maxBackoff, paces) && paces != [] && paces[0].counter == 1
    ensures Genuine(p, Quiet, PacedScript(LeastDelays(p), paces))
  {
    PacedIsWellTimed(LeastDelays(p), p.maxBackoff, paces);
    var script := PacedScript(LeastDelays(p), paces);
    forall k | 0 <= k < |script| ensures script[k].recordedAt + Delay(p, script, k) <= script[k].wokeAt {
      PacedDelay(p, paces, k);
    }
  }

  lemma CrashAfterCrash(p: Policy, script: seq<Round>, k: nat)
    requires p.maxRestarts == Some(U32_MAX) && k < |script| && script[k].exit == Failed(0)
    ensures Verdict(p, Quiet, script, k).None?
  {
    NeverOver(p, |InWindow(p, script, k)|);
  }

  lemma {:induction false} NeverEnds(p: Policy, script: seq<Round>, k: nat)
    requires k <= |script| && forall i :: 0 <= i < |script| ==> Verdict(p, Quiet, script, i).None?
    ensures EndFrom(p, Quiet, script, k) == |script|
    decreases |script| - k
  {
    if k == |script| {
    } else {
      NeverEnds(p, script, k + 1);
    }
  }

  lemma {:induction false} CountAll(h: seq<Instant>, from: int, to: int)
    requires forall i :: 0 <= i < |h| ==> from <= h[i] <= to
    ensures CountIn(h, from, to) == |h|
  {
    if h == [] {
    } else {
      CountAll(h[..|h| - 1], from, to);
    }
  }

  lemma AllPerformed(p: Policy, script: seq<Round>)
    requires p.maxRestarts == Some(U32_MAX) && forall k :: 0 <= k < |script| ==> script[k].exit == Failed(0)
    ensures Performed(p, Quiet, script) == Recorded(script)
  {
    forall k | 0 <= k < |script| ensures Verdict(p, Quiet, script, k).None? {
      CrashAfterCrash(p, script, k);
    }
    NeverEnds(p, script, 0);
    assert script[..|script|] == script;
  }

  lemma PacedWithin(p: Policy, paces: seq<Pace>, n: nat, span: nat)
    requires p.maxRestarts == Some(U32_MAX) && |paces| == n + 1 && paces[n].at <= span
    requires Paced(LeastDelays(p), p.maxBackoff, paces)
    ensures var h := Performed(p, Quiet, PacedScript(LeastDelays(p), paces));
            |h| == n + 1 && CountIn(h, 0, span) == n + 1
  {
    var script := PacedScript(LeastDelays(p), paces);
    AllPerformed(p, script);
    forall k | 0 <= k < n ensures paces[k].at <= span {
      PacedInOrder(LeastDelays(p), p.maxBackoff, paces, k, n);
    }
    CountAll(Recorded(script), 0, span);
  }

  /** There is a genuine run in which `n` restarts more are performed within the least span. */
  lemma FastestRun(p: Policy, n: nat) returns (script: seq<Round>)
    requires p.maxRestarts == Some(U32_MAX)
    ensures Genuine(p, Quiet, script)
    ensures var h := Performed(p, Quiet, script); |h| == n + 1 && CountIn(h, 0, SpanOf(p, n)) == n + 1
  {
    LeastDelaysRise(p);
    var paces := FastestPaces(LeastDelays(p), p.maxBackoff, n, Pace(1, 0, 0));
    script := PacedScript(LeastDelays(p), paces);
    PacedIsGenuine(p, paces);
    PacedWithin(p, paces, n, SpanOf(p, n));
  }

  lemma FastLoopOverruns(p: Policy) returns (script: seq<Round>)
    requires p.maxRestarts == Some(U32_MAX)
    requires p.restartWindow.Some? ==> SpanOf(p, p.maxRestarts.value) <= p.restartWindow.value
    ensures Genuine(p, Quiet, script) && !BudgetKept(p, Quiet, script)
  {
    script := FastestRun(p, p.maxRestarts.value);
    if p.restartWindow.Some? {
      var h, w := Performed(p, Quiet, script), p.restartWindow.value;
      CountWidens(h, 0, SpanOf(p, p.maxRestarts.value), w);
      assert CountWindow(h, 0, w) > p.maxRestarts.value;
    }
  }

  // ----- when the budget is kept ----------------------------------------------------------------------

  lemma RealCapKeepsBudget(p: Policy, token: Token, script: seq<Round>)
    requires RealCap(p) && WellTimed(script)
    ensures BudgetKept(p, token, script)
  {
    match p.restartWindow {
      case Some(w) =>
        forall from: int ensures CountWindow(Performed(p, token, script), from, w) <= p.maxRestarts.value {
          SlidingWindowBudget(p, token, script, from);
        }
      case None =>
        TotalBudget(p, token, script);
    }
  }

  lemma SlowLoopAlwaysKept(p: Policy)
    requires p.maxRestarts.Some? && p.restartWindow.Some?
    requires SpanOf(p, p.maxRestarts.value) > p.restartWindow.value
    ensures AlwaysKept(p)
  {
    forall token: Token, script: seq<Round> | Genuine(p, token, script) ensures BudgetKept(p, token, script) {
      SlowLoopKeepsBudget(p, token, script, p.restartWindow.value);
    }
  }

  /** The budget is kept in every run exactly when the cap is below 2^32 - 1, or there is a window and
      even the fastest run needs longer than the window for one restart more than the cap. */
  lemma BudgetKeptIff(p: Policy)
    requires p.maxRestarts.Some?
    ensures AlwaysKept(p)
            <==> p.maxRestarts.value < U32_MAX
                 || (p.restartWindow.Some? && SpanOf(p, p.maxRestarts.value) > p.restartWindow.value)
  {
    if RealCap(p) {
      forall token: Token, script: seq<Round> | Genuine(p, token, script) ensures BudgetKept(p, token, script) {
        RealCapKeepsBudget(p, token, script);
      }
    } else if p.restartWindow.Some? && SpanOf(p, p.maxRestarts.value) > p.restartWindow.value {
      SlowLoopAlwaysKept(p);
    } else {
      var script := FastLoopOverruns(p);
    }
  }

  // ----- bounds for the least span ------------------------------------------------------------------

  /** The delays of `n` restarts in a row when no run resets the counter. */
  function StreakSpan(delays: u32 -> nat, n: nat, counter: u32): nat
    decreases n
  {
    if n == 0 then 0 else delays(counter) + StreakSpan(delays, n - 1, Next(counter))
  }

  lemma {:induction false} SpanAtMostStreak(delays: u32 -> nat, reset: nat, n: nat, counter: u32)
    ensures LeastSpan(delays, reset, n, counter) <= StreakSpan(delays, n, counter)
    decreases n
  {
    if n == 0 {
    } else {
      SpanAtMostStreak(delays, reset, n - 1, Next(counter));
    }
  }

  lemma {:induction false} SpanAtLeast(delays: u32 -> nat, reset: nat, n: nat, counter: u32, shortest: nat)
    requires counter >= 1 && forall c: u32 :: c >= 1 ==> delays(c) >= shortest
    ensures LeastSpan(delays, reset, n, counter) >= n * shortest
    decreases n
  {
    if n == 0 {
    } else {
      SpanAtLeast(delays, reset, n - 1, Next(counter), shortest);
      SpanAtLeast(delays, reset, n - 1, 1, shortest);
      assert n * shortest == (n - 1) * shortest + shortest;
    }
  }

  lemma {:induction false} FreeStreak(delays: u32 -> nat, n: nat, counter: u32)
    requires forall c: u32 :: delays(c) == 0
    ensures StreakSpan(delays, n, counter) == 0
    decreases n
  {
    if n == 0 {
    } else {
      FreeStreak(delays, n - 1, Next(counter));
    }
  }

  /** No backoff has to take any time. */
  predicate Hasty(p: Policy) {
    p.jitter || p.baseBackoff == 0 || p.maxBackoff == 0
  }

  lemma HastyIsFree(p: Policy, n: nat)
    requires Hasty(p)
    ensures StreakSpan(LeastDelays(p), n, 1) == 0
  {
    forall c: u32 ensures LeastDelays(p)(c) == 0 {
      ZeroDelayIff(p.baseBackoff, p.maxBackoff, c, 0);
    }
    FreeStreak(LeastDelays(p), n, 1);
  }

  lemma ShortestBackoff(p: Policy, n: nat)
    requires !p.jitter
    ensures SpanOf(p, n) >= n * Min(p.baseBackoff, p.maxBackoff)
  {
    var shortest := Min(p.baseBackoff, p.maxBackoff);
    forall c: u32 | c >= 1 ensures LeastDelays(p)(c) >= shortest {
      FactorAtMostPower(c);
      MulMonotone(p.baseBackoff, 1, Factor(c));
    }
    SpanAtLeast(LeastDelays(p), p.maxBackoff, n, 1, shortest);
  }

  /** What can be told from the policy by hand, for a cap of 2^32 - 1. It overruns if there is no
      window, or no backoff has to take any time, or the delays of a streak that is never reset fit in
      the window; it does not if 2^32 - 1 shortest backoffs alone outlast the window. */
  lemma MaximalCapByHand(p: Policy)
    requires p.maxRestarts == Some(U32_MAX)
    ensures p.restartWindow.None? || Hasty(p) ==> !AlwaysKept(p)
    ensures p.restartWindow.Some? && StreakSpan(LeastDelays(p), p.maxRestarts.value, 1) <= p.restartWindow.value ==>
              !AlwaysKept(p)
    ensures p.restartWindow.Some? && !p.jitter
            && p.restartWindow.value < p.maxRestarts.value * Min(p.baseBackoff, p.maxBackoff) ==>
              AlwaysKept(p)
  {
    BudgetKeptIff(p);
    SpanAtMostStreak(LeastDelays(p), p.maxBackoff, p.maxRestarts.value, 1);
    if Hasty(p) {
      HastyIsFree(p, p.maxRestarts.value);
    }
    if !p.jitter {
      ShortestBackoff(p, p.maxRestarts.value);
    }
  }
}
