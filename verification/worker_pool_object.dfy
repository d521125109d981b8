/** src/concurrency/worker_pool.rs: the object whose methods take the steps of `WorkerPools`. */
module WorkerPoolObject {
  import opened Machine
  import opened WorkerPools

  predicate CanMove(tasks: seq<Task>, e: Step) {
    match e
    case Start(id) => id < |tasks| && tasks[id].phase.Spawned?
    case Leave(id) => id < |tasks| && tasks[id].phase.Handling?
    case Report(id) => id < |tasks| && tasks[id].phase.Leaving?
    case _ => false
  }

  class WorkerPool {
    const maxConcurrent: nat
    var permits: nat         // the semaphore
    var tasks: seq<Task>     // the join set; reaped tasks stay listed as `Reaped`
    var caller: Caller
    ghost var handed: seq<nat>
    ghost var accepted: seq<nat>
    ghost var late: nat

    ghost function View(): Pool
      reads this
    {
      Pool(maxConcurrent, permits, tasks, caller, handed, accepted, late)
    }

    constructor (maxConcurrent: nat)
      requires maxConcurrent >= 1
      ensures View() == Fresh(maxConcurrent)
    {
      this.maxConcurrent := maxConcurrent;
      permits, tasks, caller := maxConcurrent, [], Idle;
      handed, accepted, late := [], [], 0;
    }

    /** `active`: the tasks spawned and not reaped yet. */
    method Active() returns (n: nat)
      ensures n + Count(tasks, {Reaped}) == |tasks|
      ensures n == WorkerPools.Active(View())
    {
      ActiveMeaning(tasks);
      n := Count(tasks, TRACKED);
    }

    /** `try_join_next`, and `join_next` when a task is ready: reap some finished task. */
    method TryJoinNext() returns (reaped: Option<nat>)
      requires caller.Draining? || caller.Joining?
      modifies this`tasks
      ensures reaped.Some? ==>
                Enabled(old(View()), Reap(reaped.value)) && View() == Apply(old(View()), Reap(reaped.value))
      ensures reaped.None? ==> View() == old(View()) && Free(tasks, {Finished})
    {
      var i := 0;
      while i < |tasks|
        invariant 0 <= i <= |tasks| && tasks == old(tasks)
        invariant forall j :: 0 <= j < i ==> tasks[j].phase != Finished
      {
        if tasks[i].phase == Finished {
          tasks := tasks[i := tasks[i].(phase := Reaped)];
          return Some(i);
        }
        i := i + 1;
      }
      return None;
    }

    /** A step of one of the spawned tasks, taken by the runtime. */
    method TaskMoves(e: Step)
      requires TaskStep(e) && Enabled(View(), e)
      modifies this
      ensures View() == Apply(old(View()), e)
    {
      match e {
        case Start(id) =>
          tasks := tasks[id := tasks[id].(phase := Handling)];
          handed := handed + [id];
        case Leave(id) =>
          tasks := tasks[id := tasks[id].(phase := Leaving)];
          permits := permits + 1;
        case Report(id) =>
          tasks := tasks[id := tasks[id].(phase := Finished)];
      }
    }

    /** The runtime takes one step of a task, if that step is possible now. */
    method Meanwhile(e: Step, ghost start: Pool, ghost run: seq<Step>) returns (ghost run': seq<Step>)
      requires Valid(start, run) && View() == Exec(start, run)
      modifies this
      ensures Valid(start, run') && View() == Exec(start, run')
      ensures caller == old(caller) && accepted == old(accepted)
    {
      run' := run;
      if CanMove(tasks, e) {
        ExecSnoc(start, run, e);
        run' := run + [e];
        TaskMoves(e);
      }
    }

    /** `while try_join_next().is_some() {}` */
    method Drain(ghost start: Pool, ghost run: seq<Step>) returns (ghost run': seq<Step>)
      requires Valid(start, run) && View() == Exec(start, run) && caller.Draining?
      modifies this`tasks
      ensures Valid(start, run') && View() == Exec(start, run') && Free(tasks, {Finished})
    {
      run' := run;
      var more := true;
      while more
        invariant caller == old(caller)
        invariant Valid(start, run') && View() == Exec(start, run')
        invariant !more ==> Free(tasks, {Finished})
        decreases Work(tasks), more
      {
        ghost var before := View();
        var reaped := TryJoinNext();
        if reaped.Some? {
          WorkUpdate(before.tasks, reaped.value, tasks[reaped.value]);
          ExecSnoc(start, run', Reap(reaped.value));
          run' := run' + [Reap(reaped.value)];
        } else {
          more := false;
        }
      }
    }

    /** `submit`. While it is suspended the runtime takes the steps of `schedule` that are possible;
        the result is false when the schedule ends with the submitter still suspended. `run` is the
        run of the step system that all of it amounts to. */
    method Submit(job: nat, schedule: seq<Step>) returns (returned: bool, ghost run: seq<Step>)
      requires caller.Idle?
      modifies this
      ensures Valid(old(View()), run) && View() == Exec(old(View()), run)
      ensures returned ==> caller.Idle? && accepted == old(accepted) + [job]
                           && tasks != [] && tasks[|tasks| - 1] == Task(job, Spawned)
      ensures !returned ==> caller == Waiting(job) && permits == 0 && accepted == old(accepted)
    {
      ghost var start := View();
      ExecSnoc(start, [], BeginSubmit(job));
      run := [] + [BeginSubmit(job)];
      caller := Draining(job);
      run := Drain(start, run);
      ExecSnoc(start, run, ReapNone);
      run := run + [ReapNone];
      late := Count(tasks, {Leaving});
      caller := Waiting(job);
      var k := 0;
      while permits == 0 && k < |schedule|
        invariant caller == Waiting(job) && accepted == old(accepted)
        invariant Valid(start, run) && View() == Exec(start, run)
      {
        run := Meanwhile(schedule[k], start, run);
        k := k + 1;
      }
      if permits == 0 {
        return false, run;
      }
      ExecSnoc(start, run, Acquire);
      run := run + [Acquire];
      permits := permits - 1;
      caller := Holding(job);
      ExecSnoc(start, run, Spawn);
      run := run + [Spawn];
      tasks := tasks + [Task(job, Spawned)];
      accepted := accepted + [job];
      caller := Idle;
      return true, run;
    }

    /** `join`: reap as long as `join_next` yields a task, and be suspended while none is ready. */
    method Join(schedule: seq<Step>) returns (returned: bool, ghost run: seq<Step>)
      requires caller.Idle?
      modifies this
      ensures Valid(old(View()), run) && View() == Exec(old(View()), run)
      ensures returned ==> caller.Joined? && Free(tasks, TRACKED)
      ensures !returned ==> caller.Joining? && !Free(tasks, TRACKED)
      ensures accepted == old(accepted)
    {
      ghost var start := View();
      ExecSnoc(start, [], BeginJoin);
      run := [] + [BeginJoin];
      caller := Joining;
      var k := 0;
      while Count(tasks, TRACKED) > 0
        invariant caller.Joining? && accepted == old(accepted)
        invariant 0 <= k <= |schedule|
        invariant Valid(start, run) && View() == Exec(start, run)
        decreases |schedule| - k, Work(tasks)
      {
        ghost var before := View();
        var reaped := TryJoinNext();
        if reaped.Some? {
          WorkUpdate(before.tasks, reaped.value, tasks[reaped.value]);
          ExecSnoc(start, run, Reap(reaped.value));
          run := run + [Reap(reaped.value)];
        } else if k < |schedule| {
          run := Meanwhile(schedule[k], start, run);
          k := k + 1;
        } else {
          CountZeroIff(tasks, TRACKED);
          return false, run;
        }
      }
      CountZeroIff(tasks, TRACKED);
      ExecSnoc(start, run, JoinNone);
      run := run + [JoinNone];
      caller := Joined;
      return true, run;
    }
  }
}
