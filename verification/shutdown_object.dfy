/** src/concurrency/shutdown.rs: the controller object, whose history is a run of `Shutdown`. */
module ShutdownObject {
  import opened Shutdown

  predicate SpawnFree(run: seq<Step>) {
    forall i :: 0 <= i < |run| ==> !run[i].Spawn?
  }

  /** A step that is not part of a shutdown call. */
  predicate Foreign(e: Step) {
    e.Spawn? || e.End? || e.InnerEnds? || e.Judge? || e.Leave? || e.Kill? || e.Trigger? || e.Close? || e.Reopen?
  }

  lemma ForeignKeepsCall(s: System, e: Step, c: nat)
    requires Foreign(e) && Enabled(s, e) && c < |s.calls|
    ensures var t := Apply(s, e);
            c < |t.calls| && (t.calls[c] == s.calls[c] || (s.calls[c] == Waiting(false) && t.calls[c] == Waiting(true)))
  {
    assert Effect(s, e).calls == s.calls;
  }

  lemma SpawnWakesNobody(s: System, critical: bool)
    ensures Apply(s, Spawn(critical)) == s.(tasks := s.tasks + [Task(critical, Running)])
  {
    LiveAppend(s.tasks, Task(critical, Running));
  }

  /** After every step the waits of an empty closed tracker are resolved, so that cancelling the token
      has nobody to notify. */
  lemma NobodyToWake(run: seq<Step>, t: System)
    requires Valid(FRESH, run) && t == Exec(FRESH, run).(cancelled := true)
    ensures Notify(t) == t
  {
    UnresolvedWaits(run);
    if ClosedAndEmpty(t) {
      forall c | 0 <= c < |t.calls| ensures Woken(t.calls[c]) == t.calls[c] {
        assert t.calls[c].Waiting? ==> t.calls[c].resolved;
      }
    }
  }

  /** Clones of the controller share one token and one tracker, that is, one object. */
  class ShutdownController {
    var cancelled: bool        // the token
    var closed: bool           // the tracker: its closed bit and its tasks
    var tasks: seq<Task>
    var calls: seq<Call>       // the shutdown calls made so far, and where each of them is
    ghost var history: seq<Step>

    function View(): System
      reads this
    {
      System(cancelled, closed, tasks, calls)
    }

    ghost predicate Consistent()
      reads this
    {
      Valid(FRESH, history) && View() == Exec(FRESH, history)
    }

    constructor ()
      ensures Consistent() && history == []
    {
      cancelled, closed, tasks, calls, history := false, false, [], [], [];
    }

    /** `is_shutdown` */
    method IsShutdown() returns (r: bool)
      requires Consistent()
      ensures r <==> CancelledBefore(history, |history|)
    {
      CancelledIff(history);
      r := cancelled;
    }

    /** `trigger` */
    method Trigger()
      requires Consistent()
      modifies this
      ensures Consistent() && history == old(history) + [Step.Trigger]
      ensures View() == old(View()).(cancelled := true)
    {
      NobodyToWake(history, View().(cancelled := true));
      Snoc(FRESH, history, Step.Trigger);
      cancelled := true;
      history := history + [Step.Trigger];
    }

    /** `tracker.spawn`, which `spawn` calls with its future and `spawn_critical` with a wrapper; what
        the wrapper does when its inner task ends is `WrapperReacts`. */
    method Track(critical: bool) returns (id: nat)
      requires Consistent()
      modifies this
      ensures Consistent() && history == old(history) + [Spawn(critical)]
      ensures View() == old(View()).(tasks := old(tasks) + [Task(critical, Running)]) && id == |old(tasks)|
    {
      SpawnWakesNobody(View(), critical);
      Snoc(FRESH, history, Spawn(critical));
      id := |tasks|;
      tasks := tasks + [Task(critical, Running)];
      history := history + [Spawn(critical)];
    }

    /** The match on the result of `tokio::spawn(future).await`. */
    method WrapperReacts(id: nat)
      requires Consistent() && Enabled(View(), Judge(id))
      modifies this
      ensures Consistent() && history == old(history) + [Judge(id)]
      ensures cancelled <==> old(cancelled) || !old(tasks[id].stage.result.Success?)
    {
      var result := tasks[id].stage.result;
      tasks := tasks[id := tasks[id].(stage := Judged(result))];
      match result {
        case Success =>
        case Failure => cancelled := true;
        case Panic => cancelled := true;
        case Cancelled => cancelled := true;
      }
      calls := Notify(View()).calls;
      Snoc(FRESH, history, Judge(id));
      history := history + [Judge(id)];
    }

    /** Any step, by whoever it is taken. */
    method Take(e: Step)
      requires Consistent() && Enabled(View(), e)
      modifies this
      ensures Consistent() && history == old(history) + [e] && View() == Apply(old(View()), e)
    {
      Snoc(FRESH, history, e);
      var next := Apply(View(), e);
      cancelled, closed, tasks, calls := next.cancelled, next.closed, next.tasks, next.calls;
      history := history + [e];
    }

    /** A step of shutdown call `c`, which takes it to `call`. */
    method Proceed(e: Step, c: nat, call: Call)
      requires Consistent() && !Foreign(e) && Enabled(View(), e) && At(Effect(View(), e), c, call) && !call.Waiting?
      modifies this
      ensures Consistent() && old(history) <= history && At(View(), c, call) && tasks == old(tasks)
    {
      Take(e);
    }

    /** What happens elsewhere while call `c` is not waiting, or has been notified already: steps of
        tasks, tokens and tracker. A step that is not enabled when its turn comes does not happen. */
    method Elsewhere(es: seq<Step>, c: nat)
      requires Consistent() && c < |calls| && calls[c] != Waiting(false)
      modifies this
      ensures Consistent() && old(history) <= history && (es == [] ==> tasks == old(tasks))
      ensures c < |calls| && calls[c] == old(calls[c])
      ensures SettledEmpty(old(View()), c) && SpawnFree(es) ==> SettledEmpty(View(), c)
    {
      var k := 0;
      while k < |es|
        invariant k <= |es| && (es == [] ==> tasks == old(tasks))
        invariant Consistent() && old(history) <= history
        invariant c < |calls| && calls[c] == old(calls[c])
        invariant SettledEmpty(old(View()), c) && SpawnFree(es) ==> SettledEmpty(View(), c)
      {
        if Foreign(es[k]) && Enabled(View(), es[k]) {
          ForeignKeepsCall(View(), es[k], c);
          if SettledEmpty(View(), c) {
            StepSettles(View(), es[k], c);
          }
          Take(es[k]);
        }
        k := k + 1;
      }
    }

    /** `token.cancel()`, and what happens before the next statement. */
    method CancelToken(afterCancel: seq<Step>) returns (c: nat)
      requires Consistent()
      modifies this
      ensures Consistent() && old(history) <= history && c == |old(calls)| && At(View(), c, HasCancelled)
    {
      c := |calls|;
      Proceed(Enter, c, Entered);
      Proceed(CancelIn(c), c, HasCancelled);
      Elsewhere(afterCancel, c);
    }

    /** `tracker.close()`, and what happens before the wait begins. */
    method CloseTracker(c: nat, afterClose: seq<Step>)
      requires Consistent() && At(View(), c, HasCancelled)
      modifies this
      ensures Consistent() && old(history) <= history && At(View(), c, HasClosed)
    {
      Proceed(CloseIn(c), c, HasClosed);
      Elsewhere(afterClose, c);
    }

    /** The wait, up to its notification or the end of the time. */
    method UntilNotified(c: nat, meanwhile: seq<Step>)
      requires Consistent() && c < |calls| && calls[c].Waiting? && SettledEmpty(View(), c)
      modifies this
      ensures Consistent() && old(history) <= history && c < |calls| && calls[c].Waiting? && SettledEmpty(View(), c)
    {
      var k := 0;
      while k < |meanwhile| && !calls[c].resolved
        invariant Consistent() && old(history) <= history
        invariant c < |calls| && calls[c].Waiting? && SettledEmpty(View(), c)
      {
        if Foreign(meanwhile[k]) && Enabled(View(), meanwhile[k]) {
          ForeignKeepsCall(View(), meanwhile[k], c);
          StepSettles(View(), meanwhile[k], c);
          Take(meanwhile[k]);
        }
        k := k + 1;
      }
    }

    /** `tracker.len()`, for the report. */
    method CountRemaining(c: nat) returns (r: Call)
      requires Consistent() && At(View(), c, TimedOut)
      modifies this
      ensures Consistent() && old(history) <= history && tasks == old(tasks)
      ensures r == ReturnedErr(Live(tasks)) && At(View(), c, r)
    {
      r := ReturnedErr(Live(tasks));
      Proceed(CountIn(c), c, r);
    }

    /** The `Err` arm: the time is up, and the tasks still tracked are counted for the report. */
    method TimedOutWith(c: nat, afterTimeout: seq<Step>) returns (r: Call)
      requires Consistent() && At(View(), c, Waiting(false))
      modifies this
      ensures Consistent() && old(history) <= history && At(View(), c, r)
      ensures r == ReturnedErr(Live(tasks)) && (afterTimeout == [] ==> tasks == old(tasks))
    {
      Proceed(TimeoutIn(c), c, TimedOut);
      Elsewhere(afterTimeout, c);
      r := CountRemaining(c);
    }

    /** The `Ok` arm: the wait has been notified, and is polled. */
    method PolledAfter(c: nat, beforePoll: seq<Step>)
      requires Consistent() && At(View(), c, Waiting(true)) && SettledEmpty(View(), c)
      modifies this
      ensures Consistent() && old(history) <= history && At(View(), c, ReturnedOk)
      ensures SpawnFree(beforePoll) ==> Live(tasks) == 0
    {
      Elsewhere(beforePoll, c);
      Proceed(PollIn(c), c, ReturnedOk);
    }

    /** `timeout(timeout, tracker.wait()).await` and the match on what it gave. */
    method AwaitEmpty(c: nat, meanwhile: seq<Step>, beforePoll: seq<Step>, afterTimeout: seq<Step>)
      returns (r: Call)
      requires Consistent() && At(View(), c, HasClosed)
      modifies this
      ensures Consistent() && old(history) <= history && At(View(), c, r)
      ensures r == ReturnedOk || r == ReturnedErr(Live(tasks))
      ensures r.ReturnedOk? && SpawnFree(beforePoll) ==> Live(tasks) == 0
      ensures r.ReturnedErr? && afterTimeout == [] && ReopenFree(history) ==> r.remaining >= 1
    {
      StepSettles(View(), WaitIn(c), c);
      Take(WaitIn(c));
      UntilNotified(c, meanwhile);
      if calls[c].resolved {
        PolledAfter(c, beforePoll);
        r := ReturnedOk;
      } else {
        TimeoutFindsSomeone(history, c);
        ghost var before := history;
        r := TimedOutWith(c, afterTimeout);
        if ReopenFree(history) {
          ReopenFreePrefix(history, |before|);
        }
      }
    }

    /** `shutdown`. The schedules are what happens elsewhere after the cancel, after the close, during
        the wait, between its notification and its poll, and after the timeout; the timeout elapses when
        the third one is used up. The wait is polled before the clock is looked at. */
    method ShutDown(afterCancel: seq<Step>, afterClose: seq<Step>, meanwhile: seq<Step>,
                    beforePoll: seq<Step>, afterTimeout: seq<Step>)
      returns (c: nat, r: Call)
      requires Consistent()
      modifies this
      ensures Consistent() && old(history) <= history && c == |old(calls)| && At(View(), c, r)
      ensures r.ReturnedOk? || r.ReturnedErr?
      ensures r.ReturnedOk? ==> EmptySometime(history, c)
      ensures r.ReturnedOk? && SpawnFree(beforePoll) ==> Live(tasks) == 0
      ensures r.ReturnedErr? ==> !EmptySometime(history, c) && r.remaining == Live(tasks)
      ensures r.ReturnedErr? && afterTimeout == [] && ReopenFree(history) ==> r.remaining >= 1
    {
      c := CancelToken(afterCancel);
      CloseTracker(c, afterClose);
      r := AwaitEmpty(c, meanwhile, beforePoll, afterTimeout);
      ShutdownMeaning(history, c);
    }
  }
}
