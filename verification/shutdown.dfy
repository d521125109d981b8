/** src/concurrency/shutdown.rs: token, tracker and concurrent `shutdown` calls as a step system. */
module Shutdown {
  datatype Result = Success | Failure | Panic | Cancelled

  /** Life of a tracked task. An isolated task goes from `Running` to `Left`. A critical wrapper
      sees its inner task end (`Joined`), reacts (`Judged`) and then leaves. `Killed` is a task
      aborted through the `JoinHandle` that `spawn` and `spawn_critical` hand out. */
  datatype Stage = Running | Joined(result: Result) | Judged(result: Result) | Left(result: Result) | Killed

  datatype Task = Task(critical: bool, stage: Stage)

  /** Progress of one `shutdown` call. `resolved` is the sticky flag of the wait future: it is set
      by every moment from the start of the wait on at which the tracker is closed and empty. */
  datatype Call = Entered | HasCancelled | HasClosed | Waiting(resolved: bool) | TimedOut
                | ReturnedOk | ReturnedErr(remaining: nat)

  datatype System = System(cancelled: bool, closed: bool, tasks: seq<Task>, calls: seq<Call>)

  datatype Step =
    | Spawn(critical: bool)                // spawn, spawn_critical, or a spawn through tracker()
    | End(id: nat, result: Result)         // an isolated task ends, in whatever way
    | InnerEnds(id: nat, result: Result)   // the task inside a critical wrapper ends
    | Judge(id: nat)                       // the wrapper matches on the result
    | Leave(id: nat)                       // the wrapper ends
    | Kill(id: nat)                        // abort through the join handle
    | Trigger                              // trigger, or a cancel through token()
    | Close | Reopen                       // through tracker()
    | Enter                                // shutdown is called
    | CancelIn(c: nat) | CloseIn(c: nat) | WaitIn(c: nat)
    | PollIn(c: nat)                       // the wait future is polled and ready
    | TimeoutIn(c: nat)                    // the wait future is polled, not ready, and time is up
    | CountIn(c: nat)                      // tracker.len() for the error report

  const FRESH := System(false, false, [], [])

  predicate Alive(t: Task) {
    !t.stage.Left? && !t.stage.Killed?
  }

  /** `tracker.len()` */
  function Live(tasks: seq<Task>): nat {
    if tasks == [] then 0 else Live(tasks[..|tasks| - 1]) + if Alive(tasks[|tasks| - 1]) then 1 else 0
  }

  predicate ClosedAndEmpty(s: System) {
    s.closed && Live(s.tasks) == 0
  }

  predicate At(s: System, c: nat, call: Call) {
    c < |s.calls| && s.calls[c] == call
  }

  predicate IsCritical(s: System, id: nat) {
    id < |s.tasks| && s.tasks[id].critical
  }

  predicate Enabled(s: System, e: Step) {
    match e
    case Spawn(_) => true
    case End(id, _) => id < |s.tasks| && !s.tasks[id].critical && s.tasks[id].stage.Running?
    case InnerEnds(id, _) => IsCritical(s, id) && s.tasks[id].stage.Running?
    case Judge(id) => IsCritical(s, id) && s.tasks[id].stage.Joined?
    case Leave(id) => IsCritical(s, id) && s.tasks[id].stage.Judged?
    case Kill(id) => id < |s.tasks| && (s.tasks[id].stage.Running? || s.tasks[id].stage.Joined?)
    case Trigger => true
    case Close => true
    case Reopen => true
    case Enter => true
    case CancelIn(c) => At(s, c, Entered)
    case CloseIn(c) => At(s, c, HasCancelled)
    case WaitIn(c) => At(s, c, HasClosed)
    case PollIn(c) => At(s, c, Waiting(true))
    case TimeoutIn(c) => At(s, c, Waiting(false))
    case CountIn(c) => At(s, c, TimedOut)
  }

  function Staged(s: System, id: nat, stage: Stage): System
    requires id < |s.tasks|
  {
    s.(tasks := s.tasks[id := s.tasks[id].(stage := stage)])
  }

  function Called(s: System, c: nat, call: Call): System
    requires c < |s.calls|
  {
    s.(calls := s.calls[c := call])
  }

  /** The effect of a step on the system, before waiters are notified. */
  function Effect(s: System, e: Step): System
    requires Enabled(s, e)
  {
    match e
    case Spawn(critical) => s.(tasks := s.tasks + [Task(critical, Running)])
    case End(id, result) => Staged(s, id, Left(result))
    case InnerEnds(id, result) => Staged(s, id, Joined(result))
    case Judge(id) =>
      var result := s.tasks[id].stage.result;
      Staged(s, id, Judged(result)).(cancelled := s.cancelled || !result.Success?)
    case Leave(id) => Staged(s, id, Left(s.tasks[id].stage.result))
    case Kill(id) => Staged(s, id, Killed)
    case Trigger => s.(cancelled := true)
    case Close => s.(closed := true)
    case Reopen => s.(closed := false)
    case Enter => s.(calls := s.calls + [Entered])
    case CancelIn(c) => Called(s, c, HasCancelled).(cancelled := true)
    case CloseIn(c) => Called(s, c, HasClosed).(closed := true)
    case WaitIn(c) => Called(s, c, Waiting(false))
    case PollIn(c) => Called(s, c, ReturnedOk)
    case TimeoutIn(c) => Called(s, c, TimedOut)
    case CountIn(c) => Called(s, c, ReturnedErr(Live(s.tasks)))
  }

  function Woken(call: Call): Call {
    if call.Waiting? then Waiting(true) else call
  }

  /** A tracker that is closed and empty resolves every wait future there is. */
  function Notify(s: System): System {
    if ClosedAndEmpty(s) then s.(calls := seq(|s.calls|, c requires 0 <= c < |s.calls| => Woken(s.calls[c])))
    else s
  }

  function Apply(s: System, e: Step): System
    requires Enabled(s, e)
  {
    Notify(Effect(s, e))
  }

  function Init(run: seq<Step>): (r: seq<Step>)
    requires run != []
    ensures |r| == |run| - 1
  {
    run[..|run| - 1]
  }

  /** Any interleaving of spawns, exits, panics, triggers and shutdown calls; latest step last. */
  predicate Valid(s: System, run: seq<Step>)
    decreases |run|, 0
  {
    run == [] || (Valid(s, Init(run)) && Enabled(Exec(s, Init(run)), run[|run| - 1]))
  }

  function Exec(s: System, run: seq<Step>): System
    requires Valid(s, run)
    decreases |run|, 1
  {
    if run == [] then s else Apply(Exec(s, Init(run)), run[|run| - 1])
  }

  lemma {:induction false} ValidPrefix(s: System, run: seq<Step>, k: nat)
    requires Valid(s, run) && k <= |run|
    ensures Valid(s, run[..k])
    decreases |run|
  {
    if k == |run| {
      assert run[..k] == run;
    } else {
      ValidPrefix(s, Init(run), k);
      assert Init(run)[..k] == run[..k];
    }
  }

  /** The state after the first `k` steps. */
  function StateAt(s: System, run: seq<Step>, k: nat): System
    requires Valid(s, run) && k <= |run|
  {
    ValidPrefix(s, run, k);
    Exec(s, run[..k])
  }

  lemma StateAtInit(s: System, run: seq<Step>, k: nat)
    requires Valid(s, run) && run != [] && k < |run|
    ensures Valid(s, Init(run)) && StateAt(s, run, k) == StateAt(s, Init(run), k)
  {
    assert Init(run)[..k] == run[..k];
  }

  lemma StateAtEnd(s: System, run: seq<Step>)
    requires Valid(s, run)
    ensures StateAt(s, run, |run|) == Exec(s, run)
  {
    assert run[..|run|] == run;
  }

  lemma StateAtStep(s: System, run: seq<Step>, k: nat)
    requires Valid(s, run) && k < |run|
    ensures Enabled(StateAt(s, run, k), run[k]) && StateAt(s, run, k + 1) == Apply(StateAt(s, run, k), run[k])
  {
    ValidPrefix(s, run, k + 1);
    assert Init(run[..k + 1]) == run[..k];
  }

  lemma Snoc(s: System, run: seq<Step>, e: Step)
    requires Valid(s, run) && Enabled(Exec(s, run), e)
    ensures Valid(s, run + [e]) && Exec(s, run + [e]) == Apply(Exec(s, run), e)
  {
    assert Init(run + [e]) == run;
  }

  // ----- the token --------------------------------------------------------------------------

  /** The steps that cancel: an explicit trigger, a shutdown call, and a critical wrapper that has
      seen its task fail, panic or be aborted. Nothing an isolated task does is among them. */
  predicate Cancels(s: System, e: Step)
    requires Enabled(s, e)
  {
    e.Trigger? || e.CancelIn? || (e.Judge? && !s.tasks[e.id].stage.result.Success?)
  }

  predicate CancelsAt(run: seq<Step>, k: nat)
    requires Valid(FRESH, run) && k < |run|
  {
    StateAtStep(FRESH, run, k);
    Cancels(StateAt(FRESH, run, k), run[k])
  }

  lemma CancelledNext(run: seq<Step>, k: nat)
    requires Valid(FRESH, run) && k < |run|
    ensures StateAt(FRESH, run, k + 1).cancelled <==> StateAt(FRESH, run, k).cancelled || CancelsAt(run, k)
  {
    StateAtStep(FRESH, run, k);
  }

  predicate CancelledBefore(run: seq<Step>, n: nat)
    requires Valid(FRESH, run) && n <= |run|
  {
    exists k :: 0 <= k < n && CancelsAt(run, k)
  }

  lemma {:induction false} CancelledUpToIff(run: seq<Step>, n: nat)
    requires Valid(FRESH, run) && n <= |run|
    ensures StateAt(FRESH, run, n).cancelled <==> CancelledBefore(run, n)
  {
    if n == 0 {
      assert run[..0] == [];
    } else {
      CancelledUpToIff(run, n - 1);
      CancelledNext(run, n - 1);
      assert CancelledBefore(run, n) <==> CancelledBefore(run, n - 1) || CancelsAt(run, n - 1);
    }
  }

  /** The token is cancelled exactly when one of the cancelling steps has happened; in particular
      it never un-cancels, and isolated failures never cancel it. */
  lemma CancelledIff(run: seq<Step>)
    requires Valid(FRESH, run)
    ensures Exec(FRESH, run).cancelled <==> CancelledBefore(run, |run|)
  {
    CancelledUpToIff(run, |run|);
    StateAtEnd(FRESH, run);
  }

  /** A critical wrapper that has left the tracker by itself has seen `Ok(())`, or the token is
      cancelled; so has one that has only reacted so far. */
  predicate CriticalsPropagate(s: System) {
    forall i :: 0 <= i < |s.tasks| && s.tasks[i].critical && (s.tasks[i].stage.Judged? || s.tasks[i].stage.Left?)
      ==> s.tasks[i].stage.result.Success? || s.cancelled
  }

  /** A shutdown call that has got past its first action has cancelled the token for good. */
  predicate CallsCancelled(s: System) {
    forall c :: 0 <= c < |s.calls| && !s.calls[c].Entered? ==> s.cancelled
  }

  lemma StepPropagates(s: System, e: Step)
    requires Enabled(s, e) && CriticalsPropagate(s) && CallsCancelled(s)
    ensures CriticalsPropagate(Apply(s, e)) && CallsCancelled(Apply(s, e))
  {
    var t := Effect(s, e);
    assert CriticalsPropagate(t) && CallsCancelled(t);
    assert Apply(s, e).tasks == t.tasks;
  }

  lemma {:induction false} CriticalFailurePropagates(run: seq<Step>)
    requires Valid(FRESH, run)
    ensures CriticalsPropagate(Exec(FRESH, run)) && CallsCancelled(Exec(FRESH, run))
    decreases |run|
  {
    if run == [] {
    } else {
      CriticalFailurePropagates(Init(run));
      StepPropagates(Exec(FRESH, Init(run)), run[|run| - 1]);
    }
  }

  // ----- what a shutdown call's result means ---------------------------------------------------

  /** Call `c` is waiting and, with the token cancelled, the tracker is closed and empty. */
  predicate EmptyNow(s: System, c: nat) {
    c < |s.calls| && s.calls[c].Waiting? && s.cancelled && ClosedAndEmpty(s)
  }

  /** At some moment of the run it was so. */
  predicate SeenEmpty(run: seq<Step>, c: nat)
    requires Valid(FRESH, run)
    decreases |run|
  {
    EmptyNow(Exec(FRESH, run), c) || (run != [] && SeenEmpty(Init(run), c))
  }

  /** The same, with the moment named: after the first `k` steps. */
  predicate EmptySometime(run: seq<Step>, c: nat)
    requires Valid(FRESH, run)
  {
    exists k :: 0 <= k <= |run| && EmptyNow(StateAt(FRESH, run, k), c)
  }

  lemma {:induction false} SeenEmptyIff(run: seq<Step>, c: nat)
    requires Valid(FRESH, run)
    ensures SeenEmpty(run, c) <==> EmptySometime(run, c)
    decreases |run|
  {
    StateAtEnd(FRESH, run);
    if run == [] {
    } else {
      var before := Init(run);
      SeenEmptyIff(before, c);
      forall k | 0 <= k < |run| ensures StateAt(FRESH, run, k) == StateAt(FRESH, before, k) {
        StateAtInit(FRESH, run, k);
      }
    }
  }

  /** The call has come out of its wait, or is about to, with a moment of emptiness seen. */
  predicate Satisfied(s: System, c: nat) {
    c < |s.calls| && (s.calls[c] == Waiting(true) || s.calls[c].ReturnedOk?)
  }

  predicate GivenUp(s: System, c: nat) {
    c < |s.calls| && (s.calls[c].TimedOut? || s.calls[c].ReturnedErr?)
  }

  lemma StepSatisfies(s: System, e: Step, c: nat)
    requires Enabled(s, e) && CallsCancelled(Apply(s, e))
    ensures Satisfied(Apply(s, e), c) <==> Satisfied(s, c) || EmptyNow(Apply(s, e), c)
  {
    var t := Effect(s, e);
    assert |t.calls| >= |s.calls|;
    if c < |t.calls| {
      assert Apply(s, e).calls[c] == if ClosedAndEmpty(t) then Woken(t.calls[c]) else t.calls[c];
      assert c >= |s.calls| ==> t.calls[c] == Entered;
    }
  }

  /** Over every interleaving, also with several shutdown calls, spawns after the close and
      reopenings: the wait of a shutdown call is satisfied exactly when at some moment of it, with
      the token cancelled, the tracker was closed and no tracked task remained. */
  lemma {:induction false} SatisfiedIff(run: seq<Step>, c: nat)
    requires Valid(FRESH, run)
    ensures Satisfied(Exec(FRESH, run), c) <==> SeenEmpty(run, c)
    decreases |run|
  {
    if run == [] {
    } else {
      SatisfiedIff(Init(run), c);
      CriticalFailurePropagates(run);
      StepSatisfies(Exec(FRESH, Init(run)), run[|run| - 1], c);
    }
  }

  /** So `shutdown` returns Ok only after such a moment, and gives up only if there was none. */
  lemma ShutdownMeaning(run: seq<Step>, c: nat)
    requires Valid(FRESH, run)
    ensures At(Exec(FRESH, run), c, ReturnedOk) ==> EmptySometime(run, c)
    ensures GivenUp(Exec(FRESH, run), c) ==> !EmptySometime(run, c)
  {
    SatisfiedIff(run, c);
    SeenEmptyIff(run, c);
  }

  // ----- how many tasks are tracked -----------------------------------------------------------------

  lemma {:induction false} LiveUpdate(tasks: seq<Task>, i: nat, t: Task)
    requires i < |tasks|
    ensures Live(tasks[i := t]) + (if Alive(tasks[i]) then 1 else 0) == Live(tasks) + (if Alive(t) then 1 else 0)
  {
    var n := |tasks| - 1;
    if i == n {
      assert tasks[i := t][..n] == tasks[..n];
    } else {
      LiveUpdate(tasks[..n], i, t);
      assert tasks[i := t][..n] == tasks[..n][i := t];
    }
  }

  lemma LiveAppend(tasks: seq<Task>, t: Task)
    requires Alive(t)
    ensures Live(tasks + [t]) == Live(tasks) + 1
  {
    assert (tasks + [t])[..|tasks|] == tasks;
  }

  /** The steps by which a task leaves the tracker. */
  predicate Departs(e: Step) {
    e.End? || e.Leave? || e.Kill?
  }

  lemma LiveChanges(s: System, e: Step)
    requires Enabled(s, e)
    ensures Live(Apply(s, e).tasks) + (if Departs(e) then 1 else 0) == Live(s.tasks) + (if e.Spawn? then 1 else 0)
  {
    match e {
      case Spawn(critical) => LiveAppend(s.tasks, Task(critical, Running));
      case End(id, result) => LiveUpdate(s.tasks, id, s.tasks[id].(stage := Left(result)));
      case InnerEnds(id, result) => LiveUpdate(s.tasks, id, s.tasks[id].(stage := Joined(result)));
      case Judge(id) => LiveUpdate(s.tasks, id, s.tasks[id].(stage := Judged(s.tasks[id].stage.result)));
      case Leave(id) => LiveUpdate(s.tasks, id, s.tasks[id].(stage := Left(s.tasks[id].stage.result)));
      case Kill(id) => LiveUpdate(s.tasks, id, s.tasks[id].(stage := Killed));
      case _ =>
    }
  }

  /** How many of the steps from the i-th up to the j-th spawn a task, or make one depart. */
  function Spawns(run: seq<Step>, i: nat, j: nat): nat
    requires i <= j <= |run|
  {
    if i == j then 0 else Spawns(run, i, j - 1) + if run[j - 1].Spawn? then 1 else 0
  }

  function Departures(run: seq<Step>, i: nat, j: nat): nat
    requires i <= j <= |run|
  {
    if i == j then 0 else Departures(run, i, j - 1) + if Departs(run[j - 1]) then 1 else 0
  }

  /** The number of tasks tracked after the first `k` steps. */
  function Tracked(run: seq<Step>, k: nat): nat
    requires Valid(FRESH, run) && k <= |run|
  {
    Live(StateAt(FRESH, run, k).tasks)
  }

  lemma LiveNext(run: seq<Step>, k: nat)
    requires Valid(FRESH, run) && k < |run|
    ensures Tracked(run, k + 1) + (if Departs(run[k]) then 1 else 0) == Tracked(run, k) + if run[k].Spawn? then 1 else 0
  {
    StateAtStep(FRESH, run, k);
    LiveChanges(StateAt(FRESH, run, k), run[k]);
  }

  /** Tasks are neither lost nor made up between two moments of a run. */
  lemma {:induction false} LiveBetween(run: seq<Step>, i: nat, j: nat)
    requires Valid(FRESH, run) && i <= j <= |run|
    ensures Tracked(run, j) + Departures(run, i, j) == Tracked(run, i) + Spawns(run, i, j)
    decreases j
  {
    if i == j {
    } else {
      LiveBetween(run, i, j - 1);
      LiveNext(run, j - 1);
    }
  }

  // ----- what Ok says about the tasks ---------------------------------------------------------------

  /** If the wait of call `c` is satisfied, no task is tracked. */
  predicate SettledEmpty(s: System, c: nat) {
    Satisfied(s, c) ==> Live(s.tasks) == 0
  }

  /** A spawn while the wait is satisfied is the only step that breaks this. */
  lemma StepSettles(s: System, e: Step, c: nat)
    requires Enabled(s, e) && SettledEmpty(s, c)
    ensures SettledEmpty(Apply(s, e), c) <==> !(e.Spawn? && Satisfied(s, c))
  {
    LiveChanges(s, e);
  }

  /** Step `k` spawns a task although the wait of call `c` is satisfied already. */
  predicate SpawnsTooLate(run: seq<Step>, k: nat, c: nat)
    requires Valid(FRESH, run) && k < |run|
  {
    run[k].Spawn? && Satisfied(StateAt(FRESH, run, k), c)
  }

  predicate NoneTooLate(run: seq<Step>, n: nat, c: nat)
    requires Valid(FRESH, run) && n <= |run|
  {
    forall k :: 0 <= k < n ==> !SpawnsTooLate(run, k, c)
  }

  predicate SettledAt(run: seq<Step>, k: nat, c: nat)
    requires Valid(FRESH, run) && k <= |run|
  {
    SettledEmpty(StateAt(FRESH, run, k), c)
  }

  predicate SettledUpTo(run: seq<Step>, n: nat, c: nat)
    requires Valid(FRESH, run) && n <= |run|
  {
    forall k :: 0 <= k <= n ==> SettledAt(run, k, c)
  }

  lemma SettlesAt(run: seq<Step>, k: nat, c: nat)
    requires Valid(FRESH, run) && k < |run| && SettledAt(run, k, c)
    ensures SettledAt(run, k + 1, c) <==> !SpawnsTooLate(run, k, c)
  {
    StateAtStep(FRESH, run, k);
    StepSettles(StateAt(FRESH, run, k), run[k], c);
  }

  lemma SettledNext(run: seq<Step>, n: nat, c: nat)
    requires Valid(FRESH, run) && n < |run|
    ensures SettledUpTo(run, n + 1, c) <==> SettledUpTo(run, n, c) && SettledAt(run, n + 1, c)
  {
  }

  lemma TooLateNext(run: seq<Step>, n: nat, c: nat)
    requires Valid(FRESH, run) && n < |run|
    ensures NoneTooLate(run, n + 1, c) <==> NoneTooLate(run, n, c) && !SpawnsTooLate(run, n, c)
  {
  }

  lemma {:induction false} SettledUpToIff(run: seq<Step>, n: nat, c: nat)
    requires Valid(FRESH, run) && n <= |run|
    ensures SettledUpTo(run, n, c) <==> NoneTooLate(run, n, c)
  {
    if n == 0 {
      assert run[..0] == [];
    } else {
      SettledUpToIff(run, n - 1, c);
      SettledNext(run, n - 1, c);
      TooLateNext(run, n - 1, c);
      if SettledUpTo(run, n - 1, c) {
        SettlesAt(run, n - 1, c);
      }
    }
  }

  /** From the moment at which the wait of a shutdown call is satisfied no tracked task is left, when
      the call returns and ever after, exactly if none is spawned from that moment on. What is spawned
      before, also after the close, the call waits for. */
  lemma OkMeansNobodyLeft(run: seq<Step>, c: nat)
    requires Valid(FRESH, run)
    ensures SettledUpTo(run, |run|, c) <==> NoneTooLate(run, |run|, c)
    ensures NoneTooLate(run, |run|, c) && At(Exec(FRESH, run), c, ReturnedOk) ==> Live(Exec(FRESH, run).tasks) == 0
  {
    SettledUpToIff(run, |run|, c);
    StateAtEnd(FRESH, run);
    assert SettledUpTo(run, |run|, c) ==> SettledAt(run, |run|, c);
  }

  /** What is left when `shutdown` has returned Ok is what was spawned since the moment of emptiness and
      has not departed yet. */
  lemma TasksLeftAfterOk(run: seq<Step>, c: nat) returns (k: nat)
    requires Valid(FRESH, run) && At(Exec(FRESH, run), c, ReturnedOk)
    ensures k <= |run| && EmptyNow(StateAt(FRESH, run, k), c)
    ensures Live(Exec(FRESH, run).tasks) == Spawns(run, k, |run|) - Departures(run, k, |run|)
  {
    ShutdownMeaning(run, c);
    k :| 0 <= k <= |run| && EmptyNow(StateAt(FRESH, run, k), c);
    LiveBetween(run, k, |run|);
    StateAtEnd(FRESH, run);
  }

  // ----- what the timeout report says ----------------------------------------------------------------

  predicate ReopenFree(run: seq<Step>) {
    forall i :: 0 <= i < |run| ==> !run[i].Reopen?
  }

  lemma ReopenFreePrefix(run: seq<Step>, k: nat)
    requires ReopenFree(run) && k <= |run|
    ensures ReopenFree(run[..k])
  {
  }

  /** An unresolved wait is one of a tracker that is open or not empty. */
  predicate WaitsForSomething(s: System) {
    forall c :: 0 <= c < |s.calls| && s.calls[c] == Waiting(false) ==> !ClosedAndEmpty(s)
  }

  predicate PastClose(call: Call) {
    !call.Entered? && !call.HasCancelled?
  }

  predicate ClosedByCalls(s: System) {
    forall c :: 0 <= c < |s.calls| && PastClose(s.calls[c]) ==> s.closed
  }

  lemma StepWaits(s: System, e: Step)
    requires Enabled(s, e)
    ensures WaitsForSomething(Apply(s, e))
  {
    var t := Effect(s, e);
    assert Apply(s, e).closed == t.closed && Apply(s, e).tasks == t.tasks;
  }

  lemma StepKeepsClosed(s: System, e: Step)
    requires Enabled(s, e) && ClosedByCalls(s) && !e.Reopen?
    ensures ClosedByCalls(Apply(s, e))
  {
    assert ClosedByCalls(Effect(s, e));
  }

  lemma {:induction false} UnresolvedWaits(run: seq<Step>)
    requires Valid(FRESH, run)
    ensures WaitsForSomething(Exec(FRESH, run))
    ensures ReopenFree(run) ==> ClosedByCalls(Exec(FRESH, run))
    decreases |run|
  {
    if run == [] {
    } else {
      var before, e := Exec(FRESH, Init(run)), run[|run| - 1];
      UnresolvedWaits(Init(run));
      StepWaits(before, e);
      if ReopenFree(run) {
        ReopenFreePrefix(run, |run| - 1);
        StepKeepsClosed(before, e);
      }
    }
  }

  /** When the time is up somebody is left, or the tracker has been reopened behind the call's back. */
  lemma TimeoutFindsSomeone(run: seq<Step>, c: nat)
    requires Valid(FRESH, run) && Enabled(Exec(FRESH, run), TimeoutIn(c))
    ensures Live(Exec(FRESH, run).tasks) > 0 || !Exec(FRESH, run).closed
    ensures ReopenFree(run) ==> Live(Exec(FRESH, run).tasks) > 0
  {
    UnresolvedWaits(run);
  }

  lemma StepInto(s: System, e: Step, c: nat)
    requires Enabled(s, e) && c < |Apply(s, e).calls|
    ensures var call := Apply(s, e).calls[c];
            && (call.TimedOut? ==> At(s, c, call) || e == TimeoutIn(c))
            && (call.ReturnedErr? ==>
                  At(s, c, call) || (e == CountIn(c) && At(s, c, TimedOut) && call.remaining == Live(s.tasks)))
  {
    var t := Effect(s, e);
    assert Apply(s, e).calls[c] == if ClosedAndEmpty(t) then Woken(t.calls[c]) else t.calls[c];
  }

  lemma {:induction false} TimedOutAt(run: seq<Step>, c: nat) returns (i: nat)
    requires Valid(FRESH, run) && At(Exec(FRESH, run), c, TimedOut)
    ensures i < |run| && run[i] == TimeoutIn(c)
    decreases |run|
  {
    var n := |run| - 1;
    StepInto(Exec(FRESH, Init(run)), run[n], c);
    if run[n] == TimeoutIn(c) {
      i := n;
    } else {
      i := TimedOutAt(Init(run), c);
    }
  }

  lemma {:induction false} CountedAt(run: seq<Step>, c: nat, remaining: nat) returns (i: nat, j: nat)
    requires Valid(FRESH, run) && At(Exec(FRESH, run), c, ReturnedErr(remaining))
    ensures i < j < |run| && run[i] == TimeoutIn(c) && run[j] == CountIn(c)
    ensures remaining == Tracked(run, j)
    decreases |run|
  {
    var n, before := |run| - 1, Init(run);
    StepInto(Exec(FRESH, before), run[n], c);
    if At(Exec(FRESH, before), c, ReturnedErr(remaining)) {
      i, j := CountedAt(before, c, remaining);
      StateAtInit(FRESH, run, j);
    } else {
      i := TimedOutAt(before, c);
      j := n;
      assert run[..n] == before;
    }
  }

  /** The number reported is the number of tasks tracked when the time was up, plus those spawned and
      minus those departed until the count. So it is the documented number exactly when as many have
      come as gone, and zero exactly when all have gone; and unless somebody has reopened the tracker,
      there was one to go. */
  lemma ReportMeaning(run: seq<Step>, c: nat, remaining: nat) returns (i: nat, j: nat)
    requires Valid(FRESH, run) && At(Exec(FRESH, run), c, ReturnedErr(remaining))
    ensures i < j < |run| && run[i] == TimeoutIn(c) && run[j] == CountIn(c)
    ensures remaining == Tracked(run, i) + Spawns(run, i, j) - Departures(run, i, j)
    ensures Tracked(run, i) > 0 || !StateAt(FRESH, run, i).closed
    ensures ReopenFree(run) ==> Tracked(run, i) > 0
  {
    i, j := CountedAt(run, c, remaining);
    LiveBetween(run, i, j);
    StateAtStep(FRESH, run, i);
    ValidPrefix(FRESH, run, i);
    TimeoutFindsSomeone(run[..i], c);
    if ReopenFree(run) {
      ReopenFreePrefix(run, i);
    }
  }

  // ----- concrete runs -------------------------------------------------------------------

  /** One more step of a concrete run, to the state given. */
  lemma Then(run: seq<Step>, e: Step, after: System) returns (run': seq<Step>)
    requires Valid(FRESH, run) && Enabled(Exec(FRESH, run), e) && Apply(Exec(FRESH, run), e) == after
    ensures run' == run + [e] && Valid(FRESH, run') && Exec(FRESH, run') == after
  {
    Snoc(FRESH, run, e);
    run' := run + [e];
  }

  lemma ThenCancels(run: seq<Step>, tasks: seq<Task>) returns (run': seq<Step>)
    requires Valid(FRESH, run) && Exec(FRESH, run) == System(false, false, tasks, [])
    ensures Valid(FRESH, run') && Exec(FRESH, run') == System(true, false, tasks, [HasCancelled])
  {
    run' := Then(run, Enter, System(false, false, tasks, [Entered]));
    run' := Then(run', CancelIn(0), System(true, false, tasks, [HasCancelled]));
  }

  /** A shutdown call gets as far as its wait with nothing happening in between. */
  lemma ThenShutdownWaits(run: seq<Step>, tasks: seq<Task>) returns (run': seq<Step>)
    requires Valid(FRESH, run) && Exec(FRESH, run) == System(false, false, tasks, [])
    ensures Valid(FRESH, run') && Exec(FRESH, run') == System(true, true, tasks, [Waiting(Live(tasks) == 0)])
  {
    run' := ThenCancels(run, tasks);
    run' := Then(run', CloseIn(0), System(true, true, tasks, [HasClosed]));
    run' := Then(run', WaitIn(0), System(true, true, tasks, [Waiting(Live(tasks) == 0)]));
  }

  const RUNNING := [Task(false, Running)]
  const GONE := [Task(false, Left(Success))]

  lemma LiveOne()
    ensures Live(RUNNING) == 1 && Live(GONE) == 0
  {
    assert RUNNING[..0] == [] && GONE[..0] == [];
  }

  lemma ThenSpawned(run: seq<Step>) returns (run': seq<Step>)
    requires Valid(FRESH, run) && Exec(FRESH, run) == System(true, true, [], [Waiting(true)])
    ensures Valid(FRESH, run') && Exec(FRESH, run') == System(true, true, RUNNING, [Waiting(true)])
  {
    run' := Then(run, Spawn(false), System(true, true, RUNNING, [Waiting(true)]));
  }

  /** Closing does not keep tasks out: a task spawned between the moment of emptiness and the poll
      is running when shutdown returns Ok. */
  lemma OkWithATaskLeft() returns (run: seq<Step>)
    ensures Valid(FRESH, run) && Exec(FRESH, run) == System(true, true, RUNNING, [ReturnedOk])
  {
    run := ThenShutdownWaits([], []);
    run := ThenSpawned(run);
    run := Then(run, PollIn(0), System(true, true, RUNNING, [ReturnedOk]));
  }

  lemma ThenTimesOut(run: seq<Step>) returns (run': seq<Step>)
    requires Valid(FRESH, run) && Exec(FRESH, run) == System(true, true, RUNNING, [Waiting(false)])
    ensures Valid(FRESH, run') && Exec(FRESH, run') == System(true, true, RUNNING, [TimedOut])
  {
    run' := Then(run, TimeoutIn(0), System(true, true, RUNNING, [TimedOut]));
  }

  lemma ThenEnds(run: seq<Step>) returns (run': seq<Step>)
    requires Valid(FRESH, run) && Exec(FRESH, run) == System(true, true, RUNNING, [TimedOut])
    ensures Valid(FRESH, run') && Exec(FRESH, run') == System(true, true, GONE, [TimedOut])
  {
    run' := Then(run, End(0, Success), System(true, true, GONE, [TimedOut]));
  }

  /** The error report may count no task at all: the last one may leave between the timeout and the
      count. */
  lemma TimeoutWithNobodyLeft() returns (run: seq<Step>)
    ensures Valid(FRESH, run) && Exec(FRESH, run) == System(true, true, GONE, [ReturnedErr(0)])
  {
    LiveOne();
    run := Then([], Spawn(false), System(false, false, RUNNING, []));
    run := ThenShutdownWaits(run, RUNNING);
    run := ThenTimesOut(run);
    run := ThenEnds(run);
    run := Then(run, CountIn(0), System(true, true, GONE, [ReturnedErr(0)]));
  }

  lemma ThenReopens(run: seq<Step>) returns (run': seq<Step>)
    requires Valid(FRESH, run) && Exec(FRESH, run) == System(true, true, RUNNING, [Waiting(false)])
    ensures Valid(FRESH, run') && Exec(FRESH, run') == System(true, false, RUNNING, [Waiting(false)])
  {
    run' := Then(run, Reopen, System(true, false, RUNNING, [Waiting(false)]));
  }

  lemma ThenEndsUnseen(run: seq<Step>) returns (run': seq<Step>)
    requires Valid(FRESH, run) && Exec(FRESH, run) == System(true, false, RUNNING, [Waiting(false)])
    ensures Valid(FRESH, run') && Exec(FRESH, run') == System(true, false, GONE, [Waiting(false)])
  {
    run' := Then(run, End(0, Success), System(true, false, GONE, [Waiting(false)]));
  }

  /** Behind a reopening a shutdown call may time out although no task is tracked at all. */
  lemma TimeoutBehindReopening() returns (run: seq<Step>)
    ensures Valid(FRESH, run) && Exec(FRESH, run) == System(true, false, GONE, [TimedOut])
  {
    LiveOne();
    run := Then([], Spawn(false), System(false, false, RUNNING, []));
    run := ThenShutdownWaits(run, RUNNING);
    run := ThenReopens(run);
    run := ThenEndsUnseen(run);
    run := Then(run, TimeoutIn(0), System(true, false, GONE, [TimedOut]));
  }

  /** A critical wrapper can also be made to leave through its join handle, and then nothing is
      cancelled: that is the one way out which `CriticalFailurePropagates` does not cover. */
  lemma KilledCriticalCancelsNothing() returns (run: seq<Step>)
    ensures Valid(FRESH, run) && Exec(FRESH, run) == System(false, false, [Task(true, Killed)], [])
  {
    Snoc(FRESH, [], Spawn(true));
    Snoc(FRESH, [] + [Spawn(true)], Kill(0));
    run := [] + [Spawn(true)] + [Kill(0)];
  }
}
