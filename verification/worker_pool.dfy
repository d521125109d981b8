/** src/concurrency/worker_pool.rs: the pool as a step system over semaphore, tasks and caller. */
module WorkerPools {
  /** A task holds its permit until its body is left, normally or by a panic. Between that and
      the moment the join set sees it as finished lies `Leaving`. */
  datatype Phase = Spawned | Handling | Leaving | Finished | Reaped

  datatype Task = Task(job: nat, phase: Phase)

  /** The one owner of the pool: `submit` borrows it mutably and `join` consumes it. */
  datatype Caller = Idle | Draining(job: nat) | Waiting(job: nat) | Holding(job: nat) | Joining | Joined

  /** Task `i` is the i-th that was spawned. `handed` logs the tasks whose job went to the handler,
      `accepted` the jobs whose `submit` returned, `late` how many tasks were leaving, unseen, when
      `submit` last found nothing to reap. */
  datatype Pool = Pool(
    cap: nat, permits: nat, tasks: seq<Task>, caller: Caller,
    handed: seq<nat>, accepted: seq<nat>, late: nat)

  datatype Step =
    | BeginSubmit(job: nat)      // submit is called
    | Reap(id: nat)              // try_join_next or join_next yields a finished task
    | ReapNone                   // try_join_next yields None
    | Acquire                    // acquire_owned resolves
    | Abandon                    // the suspended submit future is dropped
    | Spawn                      // joins.spawn; submit returns
    | Start(id: nat)             // a task is polled first and calls the handler
    | Leave(id: nat)             // the handler's future is done or panicked; the permit is dropped
    | Report(id: nat)            // the join set sees the task as finished
    | BeginJoin                  // join is called
    | JoinNone                   // join_next yields None; join returns

  function Fresh(cap: nat): Pool {
    Pool(cap, cap, [], Idle, [], [], 0)
  }

  const HELD: set<Phase> := {Spawned, Handling}
  const TRACKED: set<Phase> := {Spawned, Handling, Leaving, Finished}

  predicate Free(tasks: seq<Task>, phases: set<Phase>) {
    forall i :: 0 <= i < |tasks| ==> tasks[i].phase !in phases
  }

  predicate InPhase(s: Pool, id: nat, phase: Phase) {
    id < |s.tasks| && s.tasks[id].phase == phase
  }

  predicate Enabled(s: Pool, e: Step) {
    match e
    case BeginSubmit(_) => s.caller.Idle?
    case Reap(id) => (s.caller.Draining? || s.caller.Joining?) && InPhase(s, id, Finished)
    case ReapNone => s.caller.Draining? && Free(s.tasks, {Finished})
    case Acquire => s.caller.Waiting? && s.permits > 0
    case Abandon => s.caller.Waiting?
    case Spawn => s.caller.Holding?
    case Start(id) => InPhase(s, id, Spawned)
    case Leave(id) => InPhase(s, id, Handling)
    case Report(id) => InPhase(s, id, Leaving)
    case BeginJoin => s.caller.Idle?
    case JoinNone => s.caller.Joining? && Free(s.tasks, TRACKED)
  }

  function Moved(s: Pool, id: nat, phase: Phase): seq<Task>
    requires id < |s.tasks|
  {
    s.tasks[id := s.tasks[id].(phase := phase)]
  }

  function Count(tasks: seq<Task>, phases: set<Phase>): nat {
    if tasks == [] then 0
    else Count(tasks[..|tasks| - 1], phases) + if tasks[|tasks| - 1].phase in phases then 1 else 0
  }

  function Apply(s: Pool, e: Step): Pool
    requires Enabled(s, e)
  {
    match e
    case BeginSubmit(job) => s.(caller := Draining(job))
    case Reap(id) => s.(tasks := Moved(s, id, Reaped))
    case ReapNone => s.(caller := Waiting(s.caller.job), late := Count(s.tasks, {Leaving}))
    case Acquire => s.(caller := Holding(s.caller.job), permits := s.permits - 1)
    case Abandon => s.(caller := Idle)
    case Spawn =>
      s.(caller := Idle, tasks := s.tasks + [Task(s.caller.job, Spawned)], accepted := s.accepted + [s.caller.job])
    case Start(id) => s.(tasks := Moved(s, id, Handling), handed := s.handed + [id])
    case Leave(id) => s.(tasks := Moved(s, id, Leaving), permits := s.permits + 1)
    case Report(id) => s.(tasks := Moved(s, id, Finished))
    case BeginJoin => s.(caller := Joining)
    case JoinNone => s.(caller := Joined)
  }

  /** Any interleaving of the caller and the tasks is a sequence of enabled steps. */
  predicate Valid(s: Pool, run: seq<Step>)
    decreases run
  {
    run == [] || (Enabled(s, run[0]) && Valid(Apply(s, run[0]), run[1..]))
  }

  function Exec(s: Pool, run: seq<Step>): Pool
    requires Valid(s, run)
    decreases run
  {
    if run == [] then s else Exec(Apply(s, run[0]), run[1..])
  }

  // ----- counting tasks --------------------------------------------------------------------

  /** `WorkerPool::active` */
  function Active(s: Pool): nat {
    Count(s.tasks, TRACKED)
  }

  function Weight(t: Task, phases: set<Phase>): nat {
    if t.phase in phases then 1 else 0
  }

  lemma {:induction false} CountUpdate(tasks: seq<Task>, i: nat, t: Task, phases: set<Phase>)
    requires i < |tasks|
    ensures Count(tasks[i := t], phases) == Count(tasks, phases) - Weight(tasks[i], phases) + Weight(t, phases)
  {
    var n := |tasks| - 1;
    if i == n {
      assert tasks[i := t][..n] == tasks[..n];
    } else {
      CountUpdate(tasks[..n], i, t, phases);
      assert tasks[i := t][..n] == tasks[..n][i := t];
    }
  }

  lemma CountAppend(tasks: seq<Task>, t: Task, phases: set<Phase>)
    ensures Count(tasks + [t], phases) == Count(tasks, phases) + Weight(t, phases)
  {
    assert (tasks + [t])[..|tasks|] == tasks;
  }

  lemma {:induction false} CountSplit(tasks: seq<Task>)
    ensures Count(tasks, TRACKED) == Count(tasks, HELD) + Count(tasks, {Leaving}) + Count(tasks, {Finished})
  {
    if tasks == [] {
    } else {
      CountSplit(tasks[..|tasks| - 1]);
    }
  }

  /** `active()` counts every task that was spawned and has not been reaped, finished or not. */
  lemma {:induction false} ActiveMeaning(tasks: seq<Task>)
    ensures Count(tasks, TRACKED) + Count(tasks, {Reaped}) == |tasks|
  {
    if tasks == [] {
    } else {
      ActiveMeaning(tasks[..|tasks| - 1]);
      var phase := tasks[|tasks| - 1].phase;
      assert phase.Spawned? || phase.Handling? || phase.Leaving? || phase.Finished? || phase.Reaped?;
      assert phase in TRACKED <==> !phase.Reaped?;
    }
  }

  lemma {:induction false} CountZeroIff(tasks: seq<Task>, phases: set<Phase>)
    ensures Count(tasks, phases) == 0 <==> Free(tasks, phases)
  {
    if tasks == [] {
    } else {
      var init, last := tasks[..|tasks| - 1], tasks[|tasks| - 1];
      CountZeroIff(init, phases);
      assert tasks == init + [last];
      assert Free(tasks, phases) <==> Free(init, phases) && last.phase !in phases;
    }
  }

  // ----- the invariant ------------------------------------------------------------------------

  /** Permits are neither lost nor made: free, held by an unfinished task, or with the submitter. */
  predicate PermitsConserved(s: Pool) {
    s.permits + Count(s.tasks, HELD) + (if s.caller.Holding? then 1 else 0) == s.cap
  }

  function Handings(s: Pool, id: nat): nat {
    multiset(s.handed)[id]
  }

  /** A task's job has gone to the handler once if the task was ever started, and never before. */
  predicate HandedOnce(s: Pool) {
    && (forall i :: i in s.handed ==> i < |s.tasks|)
    && (forall i :: 0 <= i < |s.tasks| ==> Handings(s, i) == if s.tasks[i].phase.Spawned? then 0 else 1)
  }

  predicate JobsKept(s: Pool) {
    |s.tasks| == |s.accepted| && forall i :: 0 <= i < |s.tasks| ==> s.tasks[i].job == s.accepted[i]
  }

  predicate ActiveBounded(s: Pool) {
    Active(s) <= s.cap + s.late + if s.caller.Waiting? || s.caller.Holding? then 0 else 1
  }

  predicate JoinedMeansReaped(s: Pool) {
    s.caller.Joined? ==> Free(s.tasks, TRACKED)
  }

  predicate Inv(s: Pool) {
    PermitsConserved(s) && HandedOnce(s) && JobsKept(s) && ActiveBounded(s) && JoinedMeansReaped(s)
  }

  lemma MoveCounts(s: Pool, id: nat, phase: Phase)
    requires id < |s.tasks|
    ensures var t, p := Moved(s, id, phase), s.tasks[id].phase;
            && Count(t, HELD) == Count(s.tasks, HELD) - Weight(s.tasks[id], HELD) + Weight(t[id], HELD)
            && Count(t, TRACKED) == Count(s.tasks, TRACKED) - Weight(s.tasks[id], TRACKED) + Weight(t[id], TRACKED)
  {
    CountUpdate(s.tasks, id, s.tasks[id].(phase := phase), HELD);
    CountUpdate(s.tasks, id, s.tasks[id].(phase := phase), TRACKED);
  }

  lemma StepKeepsPermits(s: Pool, e: Step)
    requires PermitsConserved(s) && Enabled(s, e)
    ensures PermitsConserved(Apply(s, e))
  {
    match e {
      case Reap(id) => MoveCounts(s, id, Reaped);
      case Spawn => CountAppend(s.tasks, Task(s.caller.job, Spawned), HELD);
      case Start(id) => MoveCounts(s, id, Handling);
      case Leave(id) => MoveCounts(s, id, Leaving);
      case Report(id) => MoveCounts(s, id, Finished);
      case _ =>
    }
  }

  lemma StepKeepsHandings(s: Pool, e: Step)
    requires HandedOnce(s) && Enabled(s, e)
    ensures HandedOnce(Apply(s, e))
  {
    if e.Spawn? {
      assert |s.tasks| !in s.handed;
    }
  }

  lemma StepKeepsActive(s: Pool, e: Step)
    requires PermitsConserved(s) && ActiveBounded(s) && Enabled(s, e)
    ensures ActiveBounded(Apply(s, e))
  {
    match e {
      case Reap(id) => MoveCounts(s, id, Reaped);
      case ReapNone =>
        CountSplit(s.tasks);
        CountZeroIff(s.tasks, {Finished});
      case Spawn => CountAppend(s.tasks, Task(s.caller.job, Spawned), TRACKED);
      case Start(id) => MoveCounts(s, id, Handling);
      case Leave(id) => MoveCounts(s, id, Leaving);
      case Report(id) => MoveCounts(s, id, Finished);
      case _ =>
    }
  }

  /** Every step keeps the invariant, whoever takes it. */
  lemma StepKeepsInv(s: Pool, e: Step)
    requires Inv(s) && Enabled(s, e)
    ensures Inv(Apply(s, e))
  {
    StepKeepsPermits(s, e);
    StepKeepsHandings(s, e);
    StepKeepsActive(s, e);
  }

  lemma {:induction false} RunKeepsInv(s: Pool, run: seq<Step>)
    requires Inv(s) && Valid(s, run)
    ensures Inv(Exec(s, run)) && Exec(s, run).cap == s.cap
    decreases run
  {
    if run == [] {
    } else {
      StepKeepsInv(s, run[0]);
      RunKeepsInv(Apply(s, run[0]), run[1..]);
    }
  }

  // ----- guarantees over every run ---------------------------------------------------------------

  /** The state after a run of a new pool. */
  predicate Reaches(cap: nat, run: seq<Step>, s: Pool) {
    Valid(Fresh(cap), run) && Exec(Fresh(cap), run) == s
  }

  lemma ReachedInv(cap: nat, run: seq<Step>, s: Pool)
    requires Reaches(cap, run, s)
    ensures Inv(s) && s.cap == cap
  {
    RunKeepsInv(Fresh(cap), run);
  }

  lemma {:induction false} HandlingIsHeld(tasks: seq<Task>)
    ensures Count(tasks, {Handling}) <= Count(tasks, HELD)
  {
    if tasks == [] {
    } else {
      HandlingIsHeld(tasks[..|tasks| - 1]);
    }
  }

  /** Permits are conserved in every reachable state, so no more than `cap` handlers ever run, and a
      suspended submitter is really blocked exactly when unfinished tasks hold all the permits. */
  lemma PermitConservation(cap: nat, run: seq<Step>, s: Pool)
    requires Reaches(cap, run, s)
    ensures PermitsConserved(s)
    ensures Count(s.tasks, {Handling}) <= Count(s.tasks, HELD) <= cap
    ensures s.caller.Waiting? ==> (!Enabled(s, Acquire) <==> Count(s.tasks, HELD) == cap)
  {
    ReachedInv(cap, run, s);
    HandlingIsHeld(s.tasks);
  }

  /** Each accepted job is handed to the handler exactly once, at its task's start, and never
      twice; the log holds nothing else. */
  lemma HandedExactlyOnce(cap: nat, run: seq<Step>, s: Pool, id: nat)
    requires Reaches(cap, run, s)
    ensures |s.tasks| == |s.accepted|
    ensures id < |s.accepted| ==>
              s.tasks[id].job == s.accepted[id] && Handings(s, id) == if s.tasks[id].phase.Spawned? then 0 else 1
    ensures id >= |s.accepted| ==> Handings(s, id) == 0
  {
    ReachedInv(cap, run, s);
    if id >= |s.accepted| {
      assert id !in s.handed;
    }
  }

  /** The jobs of the `submit` calls that return in a run, in order; `pending` is the job of the call in
      progress at its start. */
  function JobsOf(run: seq<Step>, pending: nat): seq<nat> {
    if run == [] then []
    else if run[0].Spawn? then [pending] + JobsOf(run[1..], pending)
    else JobsOf(run[1..], if run[0].BeginSubmit? then run[0].job else pending)
  }

  predicate Pending(s: Pool, job: nat) {
    s.caller.Draining? || s.caller.Waiting? || s.caller.Holding? ==> s.caller.job == job
  }

  /** The accepted jobs are those of the `submit` calls that returned: none is lost, mixed up or made up. */
  lemma {:induction false} AcceptedAreSubmitted(s: Pool, run: seq<Step>, pending: nat)
    requires Valid(s, run) && Pending(s, pending)
    ensures Exec(s, run).accepted == s.accepted + JobsOf(run, pending)
    decreases run
  {
    if run == [] {
    } else {
      AcceptedAreSubmitted(Apply(s, run[0]), run[1..], if run[0].BeginSubmit? then run[0].job else pending);
    }
  }

  /** The tasks that start in a run, in order. */
  function StartsOf(run: seq<Step>): seq<nat> {
    if run == [] then []
    else if run[0].Start? then [run[0].id] + StartsOf(run[1..])
    else StartsOf(run[1..])
  }

  /** The handler is called for exactly the tasks that start, in the order in which they start. */
  lemma {:induction false} HandedAreStarted(s: Pool, run: seq<Step>)
    requires Valid(s, run)
    ensures Exec(s, run).handed == s.handed + StartsOf(run)
    decreases run
  {
    if run == [] {
    } else {
      var next := Apply(s, run[0]);
      HandedAreStarted(next, run[1..]);
      if run[0].Start? {
        assert next.handed == s.handed + [run[0].id];
      } else {
        assert next.handed == s.handed;
      }
    }
  }

  /** How many `submit` calls begin in a run, and how many return or are dropped. */
  function Begun(run: seq<Step>): nat {
    if run == [] then 0 else (if run[0].BeginSubmit? then 1 else 0) + Begun(run[1..])
  }

  function Ended(run: seq<Step>): nat {
    if run == [] then 0 else (if run[0].Spawn? || run[0].Abandon? then 1 else 0) + Ended(run[1..])
  }

  predicate Submitting(s: Pool) {
    s.caller.Draining? || s.caller.Waiting? || s.caller.Holding?
  }

  /** Every `submit` call that begins returns, is dropped, or is still in progress. */
  lemma {:induction false} SubmitsBalance(s: Pool, run: seq<Step>)
    requires Valid(s, run)
    ensures Ended(run) + (if Submitting(Exec(s, run)) then 1 else 0) == Begun(run) + if Submitting(s) then 1 else 0
    decreases run
  {
    if run == [] {
    } else {
      SubmitsBalance(Apply(s, run[0]), run[1..]);
    }
  }

  /** When `join` has returned, every accepted job was handed over exactly once and its task is
      finished and reaped, and all permits are back. */
  lemma JoinWaitsForAll(cap: nat, run: seq<Step>, s: Pool)
    requires Reaches(cap, run, s) && s.caller.Joined?
    ensures |s.tasks| == |s.accepted|
    ensures forall i :: 0 <= i < |s.tasks| ==> s.tasks[i].phase.Reaped? && Handings(s, i) == 1
    ensures s.permits == cap && Active(s) == 0
  {
    ReachedInv(cap, run, s);
    CountZeroIff(s.tasks, HELD);
    CountZeroIff(s.tasks, TRACKED);
    forall i | 0 <= i < |s.tasks| ensures s.tasks[i].phase.Reaped? {
      assert s.tasks[i].phase !in TRACKED;
    }
  }

  // ----- active() over runs -------------------------------------------------------------------------

  /** How many tasks a run spawns, and how many it reaps. */
  function Spawns(run: seq<Step>): nat {
    if run == [] then 0 else (if run[0].Spawn? then 1 else 0) + Spawns(run[1..])
  }

  function Reaps(run: seq<Step>): nat {
    if run == [] then 0 else (if run[0].Reap? then 1 else 0) + Reaps(run[1..])
  }

  lemma StepChangesActive(s: Pool, e: Step)
    requires Enabled(s, e)
    ensures Active(Apply(s, e)) + (if e.Reap? then 1 else 0) == Active(s) + (if e.Spawn? then 1 else 0)
  {
    match e {
      case Reap(id) => MoveCounts(s, id, Reaped);
      case Spawn => CountAppend(s.tasks, Task(s.caller.job, Spawned), TRACKED);
      case Start(id) => MoveCounts(s, id, Handling);
      case Leave(id) => MoveCounts(s, id, Leaving);
      case Report(id) => MoveCounts(s, id, Finished);
      case _ =>
    }
  }

  /** Over every run `active()` changes by the tasks spawned less the tasks reaped, and by nothing else. */
  lemma {:induction false} ActiveCounts(s: Pool, run: seq<Step>)
    requires Valid(s, run)
    ensures Active(Exec(s, run)) + Reaps(run) == Active(s) + Spawns(run)
    decreases run
  {
    if run == [] {
    } else {
      StepChangesActive(s, run[0]);
      ActiveCounts(Apply(s, run[0]), run[1..]);
    }
  }

  // ----- bounds for active() ----------------------------------------------------------------------------------

  /** Whenever the drain of a `submit` finds nothing left to reap, at most `t` tasks are on their way
      out. Such a task is still being polled, so on a runtime with `t` threads this is so; with `t` zero
      it says that permit release and task finish are one step. */
  predicate LeavingAtMost(s: Pool, run: seq<Step>, t: nat)
    requires Valid(s, run)
    decreases run
  {
    run == [] || ((run[0].ReapNone? ==> Count(s.tasks, {Leaving}) <= t) && LeavingAtMost(Apply(s, run[0]), run[1..], t))
  }

  lemma {:induction false} LateAtMost(s: Pool, run: seq<Step>, t: nat)
    requires Valid(s, run) && LeavingAtMost(s, run, t) && s.late <= t
    ensures Exec(s, run).late <= t
    decreases run
  {
    if run == [] {
    } else {
      LateAtMost(Apply(s, run[0]), run[1..], t);
    }
  }

  /** `active()` stays within the cap plus one plus the tasks that the last drain could not see, so
      within the cap plus one plus `t` if there are never more than `t` of them. */
  lemma ActiveStaysBounded(cap: nat, run: seq<Step>, s: Pool, t: nat)
    requires Reaches(cap, run, s)
    ensures Active(s) <= cap + 1 + s.late
    ensures LeavingAtMost(Fresh(cap), run, t) ==> Active(s) <= cap + 1 + t
  {
    ReachedInv(cap, run, s);
    if LeavingAtMost(Fresh(cap), run, t) {
      LateAtMost(Fresh(cap), run, t);
    }
  }

  lemma {:induction false} ExecConcat(s: Pool, a: seq<Step>, b: seq<Step>)
    requires Valid(s, a) && Valid(Exec(s, a), b)
    ensures Valid(s, a + b) && Exec(s, a + b) == Exec(Exec(s, a), b)
    decreases a
  {
    if a == [] {
      assert a + b == b;
    } else {
      assert (a + b)[1..] == a[1..] + b;
      ExecConcat(Apply(s, a[0]), a[1..], b);
    }
  }

  lemma ExecSnoc(s: Pool, run: seq<Step>, e: Step)
    requires Valid(s, run) && Enabled(Exec(s, run), e)
    ensures Valid(s, run + [e]) && Exec(s, run + [e]) == Apply(Exec(s, run), e)
  {
    var mid := Exec(s, run);
    assert [e][1..] == [];
    assert Valid(Apply(mid, e), []);
    ExecConcat(s, run, [e]);
  }

  // ----- the bound is reached -------------------------------------------------------------------

  /** A run of a new pool to `s` in which never more than `t` tasks leave at once unseen. */
  predicate Attains(cap: nat, t: nat, run: seq<Step>, s: Pool) {
    Reaches(cap, run, s) && LeavingAtMost(Fresh(cap), run, t)
  }

  lemma {:induction false} LeavingSnoc(s: Pool, run: seq<Step>, e: Step, t: nat)
    requires Valid(s, run) && LeavingAtMost(s, run, t) && Enabled(Exec(s, run), e)
    requires e.ReapNone? ==> Count(Exec(s, run).tasks, {Leaving}) <= t
    ensures Valid(s, run + [e]) && LeavingAtMost(s, run + [e], t)
    decreases run
  {
    ExecSnoc(s, run, e);
    if run == [] {
      assert [e][1..] == [];
    } else {
      assert (run + [e])[0] == run[0] && (run + [e])[1..] == run[1..] + [e];
      LeavingSnoc(Apply(s, run[0]), run[1..], e, t);
    }
  }

  /** One more step, to the state given. */
  lemma Then(cap: nat, t: nat, run: seq<Step>, s: Pool, e: Step, after: Pool) returns (run': seq<Step>)
    requires Attains(cap, t, run, s) && Enabled(s, e) && Apply(s, e) == after
    requires e.ReapNone? ==> Count(s.tasks, {Leaving}) <= t
    ensures Attains(cap, t, run', after)
  {
    ExecSnoc(Fresh(cap), run, e);
    LeavingSnoc(Fresh(cap), run, e, t);
    run' := run + [e];
  }

  /** `n` tasks in one phase, and then `m` in another. */
  function Row(n: nat, phase: Phase, m: nat, other: Phase): (tasks: seq<Task>)
    ensures |tasks| == n + m
  {
    seq(n + m, i => Task(0, if i < n then phase else other))
  }

  lemma {:induction false} RowCounts(n: nat, phase: Phase, m: nat, other: Phase, phases: set<Phase>)
    ensures Count(Row(n, phase, m, other), phases)
            == (if phase in phases then n else 0) + (if other in phases then m else 0)
    decreases n + m
  {
    var row := Row(n, phase, m, other);
    if n + m == 0 {
    } else if m == 0 {
      assert row[..n - 1] == Row(n - 1, phase, 0, other);
      RowCounts(n - 1, phase, 0, other, phases);
    } else {
      assert row[..n + m - 1] == Row(n, phase, m - 1, other);
      RowCounts(n, phase, m - 1, other, phases);
    }
  }

  /** What matters of an idle or suspended pool: free permits, tasks, caller. */
  predicate Looks(s: Pool, permits: nat, tasks: seq<Task>, caller: Caller) {
    s.permits == permits && s.tasks == tasks && s.caller == caller
  }

  /** `submit` comes as far as its wait for a permit. */
  lemma ThenWaits(cap: nat, t: nat, run: seq<Step>, s: Pool, permits: nat, tasks: seq<Task>)
    returns (run': seq<Step>, s': Pool)
    requires Attains(cap, t, run, s) && Looks(s, permits, tasks, Idle)
    requires Free(tasks, {Finished}) && Count(tasks, {Leaving}) <= t
    ensures Attains(cap, t, run', s') && Looks(s', permits, tasks, Waiting(0))
  {
    var draining := s.(caller := Draining(0));
    run' := Then(cap, t, run, s, BeginSubmit(0), draining);
    s' := draining.(caller := Waiting(0), late := Count(tasks, {Leaving}));
    run' := Then(cap, t, run', draining, ReapNone, s');
  }

  /** And from there to its return. */
  lemma ThenSpawns(cap: nat, t: nat, run: seq<Step>, s: Pool, permits: nat, tasks: seq<Task>)
    returns (run': seq<Step>, s': Pool)
    requires Attains(cap, t, run, s) && Looks(s, permits + 1, tasks, Waiting(0))
    ensures Attains(cap, t, run', s') && Looks(s', permits, tasks + [Task(0, Spawned)], Idle)
  {
    var holding := s.(caller := Holding(0), permits := permits);
    run' := Then(cap, t, run, s, Acquire, holding);
    s' := Apply(holding, Spawn);
    run' := Then(cap, t, run', holding, Spawn, s');
  }

  /** A task that has not been polled yet starts, and leaves. */
  lemma ThenLeaves(cap: nat, t: nat, run: seq<Step>, s: Pool, permits: nat, tasks: seq<Task>, caller: Caller, id: nat)
    returns (run': seq<Step>, s': Pool)
    requires Attains(cap, t, run, s) && Looks(s, permits, tasks, caller)
    requires id < |tasks| && tasks[id] == Task(0, Spawned)
    ensures Attains(cap, t, run', s') && Looks(s', permits + 1, tasks[id := Task(0, Leaving)], caller)
  {
    var handling := Apply(s, Start(id));
    run' := Then(cap, t, run, s, Start(id), handling);
    s' := Apply(handling, Leave(id));
    run' := Then(cap, t, run', handling, Leave(id), s');
    assert handling.tasks[id := Task(0, Leaving)] == tasks[id := Task(0, Leaving)];
  }

  /** `n` jobs in a row, each leaving before the next is submitted and none seen to finish. */
  lemma {:induction false} AllLeaving(cap: nat, t: nat, n: nat) returns (run: seq<Step>, s: Pool)
    requires cap >= 1 && n <= t + 1
    ensures Attains(cap, t, run, s) && Looks(s, cap, Row(n, Leaving, 0, Spawned), Idle)
    decreases n
  {
    if n == 0 {
      run, s := [], Fresh(cap);
    } else {
      var row := Row(n - 1, Leaving, 0, Spawned);
      RowCounts(n - 1, Leaving, 0, Spawned, {Leaving});
      run, s := AllLeaving(cap, t, n - 1);
      run, s := ThenWaits(cap, t, run, s, cap, row);
      run, s := ThenSpawns(cap, t, run, s, cap - 1, row);
      run, s := ThenLeaves(cap, t, run, s, cap - 1, row + [Task(0, Spawned)], Idle, n - 1);
      assert (row + [Task(0, Spawned)])[n - 1 := Task(0, Leaving)] == Row(n, Leaving, 0, Spawned);
    }
  }

  /** Behind them, `m` jobs that hold a permit each. */
  lemma {:induction false} ThenHolding(cap: nat, t: nat, m: nat) returns (run: seq<Step>, s: Pool)
    requires cap >= 1 && m <= cap
    ensures Attains(cap, t, run, s) && Looks(s, cap - m, Row(t, Leaving, m, Spawned), Idle)
    decreases m
  {
    if m == 0 {
      run, s := AllLeaving(cap, t, t);
    } else {
      var row := Row(t, Leaving, m - 1, Spawned);
      RowCounts(t, Leaving, m - 1, Spawned, {Leaving});
      run, s := ThenHolding(cap, t, m - 1);
      run, s := ThenWaits(cap, t, run, s, cap - (m - 1), row);
      run, s := ThenSpawns(cap, t, run, s, cap - m, row);
      assert row + [Task(0, Spawned)] == Row(t, Leaving, m, Spawned);
    }
  }

  /** With `t` tasks leaving unseen and `cap` more at work, another `submit` drains nothing and waits;
      one task leaves, and the job submitted is one too many. */
  lemma ActiveBoundReached(cap: nat, t: nat) returns (run: seq<Step>, s: Pool)
    requires cap >= 1
    ensures Attains(cap, t, run, s) && Active(s) == cap + 1 + t
  {
    var row := Row(t, Leaving, cap, Spawned);
    RowCounts(t, Leaving, cap, Spawned, {Leaving});
    run, s := ThenHolding(cap, t, cap);
    run, s := ThenWaits(cap, t, run, s, 0, row);
    run, s := ThenLeaves(cap, t, run, s, 0, row, Waiting(0), t);
    var row' := row[t := Task(0, Leaving)];
    assert row' == Row(t + 1, Leaving, cap - 1, Spawned);
    RowCounts(t + 1, Leaving, cap - 1, Spawned, TRACKED);
    run, s := ThenSpawns(cap, t, run, s, 0, row');
    CountAppend(row', Task(0, Spawned), TRACKED);
  }

  ghost predicate ActiveNeverAbove(cap: nat, t: nat, bound: nat) {
    forall run: seq<Step>, s: Pool :: Attains(cap, t, run, s) ==> Active(s) <= bound
  }

  /** When at most `t` tasks leave at once unseen, `active()` is bounded by exactly the cap plus one
      plus `t`. So the cap plus one is a bound if and only if release and finish are one step. */
  lemma ActiveBoundIff(cap: nat, t: nat, bound: nat)
    requires cap >= 1
    ensures ActiveNeverAbove(cap, t, bound) <==> bound >= cap + 1 + t
    ensures ActiveNeverAbove(cap, t, cap + 1) <==> t == 0
  {
    forall run: seq<Step>, s: Pool | Attains(cap, t, run, s) ensures Active(s) <= cap + 1 + t {
      ActiveStaysBounded(cap, run, s, t);
    }
    var run, s := ActiveBoundReached(cap, t);
  }

  /** Without a bound on the tasks leaving at once, and so on the threads, there is no bound: whatever
      the cap, any number of tasks can be tracked, each having released its permit without the next drain
      seeing it finished. */
  lemma ActiveUnboundedOtherwise(cap: nat, n: nat) returns (run: seq<Step>, s: Pool)
    requires cap >= 1
    ensures Reaches(cap, run, s) && Active(s) == |s.tasks| == n
    ensures s.caller.Idle? && s.permits == cap && forall i :: 0 <= i < n ==> s.tasks[i].phase.Leaving?
  {
    run, s := AllLeaving(cap, n, n);
    RowCounts(n, Leaving, 0, Spawned, TRACKED);
  }

  // ----- progress --------------------------------------------------------------------------------------

  predicate TaskStep(e: Step) {
    e.Start? || e.Leave? || e.Report?
  }

  function Rank(p: Phase): nat {
    match p
    case Spawned => 4
    case Handling => 3
    case Leaving => 2
    case Finished => 1
    case Reaped => 0
  }

  function Work(tasks: seq<Task>): nat {
    if tasks == [] then 0 else Work(tasks[..|tasks| - 1]) + Rank(tasks[|tasks| - 1].phase)
  }

  lemma {:induction false} WorkUpdate(tasks: seq<Task>, i: nat, t: Task)
    requires i < |tasks|
    ensures Work(tasks[i := t]) == Work(tasks) - Rank(tasks[i].phase) + Rank(t.phase)
  {
    var n := |tasks| - 1;
    if i == n {
      assert tasks[i := t][..n] == tasks[..n];
    } else {
      WorkUpdate(tasks[..n], i, t);
      assert tasks[i := t][..n] == tasks[..n][i := t];
    }
  }

  /** The step that the first unreaped task, or else the caller, can take. */
  function NextOf(s: Pool, id: nat): Step
    requires id < |s.tasks|
  {
    match s.tasks[id].phase
    case Spawned => Start(id)
    case Handling => Leave(id)
    case Leaving => Report(id)
    case Finished => Reap(id)
    case Reaped => JoinNone
  }

  /** A joining pool is never stuck: until it has joined, some step is enabled. */
  lemma JoinNeverStuck(s: Pool)
    requires s.caller.Joining?
    ensures exists e :: Enabled(s, e) && (TaskStep(e) || e.Reap? || e.JoinNone?)
  {
    if id: nat :| id < |s.tasks| && s.tasks[id].phase in TRACKED {
      assert Enabled(s, NextOf(s, id));
    } else {
      assert Enabled(s, JoinNone);
    }
  }

  lemma JoinedIsFinal(s: Pool, run: seq<Step>)
    requires s.caller.Joined? && Free(s.tasks, TRACKED) && Valid(s, run)
    ensures run == []
  {
  }

  /** And it cannot go on for ever: a run from a joining pool has a bounded number of steps. */
  lemma {:induction false} JoinTerminates(s: Pool, run: seq<Step>)
    requires s.caller.Joining? && Valid(s, run)
    ensures |run| <= Work(s.tasks) + 1
    decreases run
  {
    if run == [] {
    } else {
      var e := run[0];
      var next := Apply(s, e);
      if e.JoinNone? {
        JoinedIsFinal(next, run[1..]);
      } else {
        var id := e.id;
        WorkUpdate(s.tasks, id, next.tasks[id]);
        JoinTerminates(next, run[1..]);
      }
    }
  }

  lemma SomeTaskCanMove(s: Pool)
    requires PermitsConserved(s) && s.cap >= 1 && s.caller.Waiting?
    ensures s.permits == 0 ==> exists e :: TaskStep(e) && Enabled(s, e)
  {
    if s.permits == 0 {
      CountZeroIff(s.tasks, HELD);
      var id: nat :| id < |s.tasks| && s.tasks[id].phase in HELD;
      assert Enabled(s, NextOf(s, id));
    }
  }

  /** A suspended submitter is never deadlocked: if no permit is free, some task can move, and
      tasks can move only `Work` many times before a permit is free. */
  lemma SubmitNeverStuck(s: Pool, run: seq<Step>)
    requires Inv(s) && s.cap >= 1 && s.caller.Waiting? && Valid(s, run)
    requires forall i :: 0 <= i < |run| ==> TaskStep(run[i])
    ensures |run| <= Work(s.tasks)
    ensures s.permits == 0 ==> exists e :: TaskStep(e) && Enabled(s, e)
    decreases run
  {
    SomeTaskCanMove(s);
    if run == [] {
    } else {
      var next := Apply(s, run[0]);
      StepKeepsInv(s, run[0]);
      WorkUpdate(s.tasks, run[0].id, next.tasks[run[0].id]);
      SubmitNeverStuck(next, run[1..]);
    }
  }
}
