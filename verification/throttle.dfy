/** src/concurrency/throttle.rs: the leading-edge throttle. */
module Throttling {
  import opened Machine

  /** What can happen to one throttle shared by many callers, in the order in which the mutex
      serializes it: a call enters its critical section, or somebody resets. A closure that starts,
      suspends or finishes does not touch the throttle. */
  datatype Event = Try(now: Instant) | Clear

  predicate Admits(interval: Duration, last: Option<Instant>, now: Instant) {
    last.None? || Elapsed(now, last.value) >= interval
  }

  function After(interval: Duration, last: Option<Instant>, e: Event): Option<Instant> {
    match e
    case Try(now) => if Admits(interval, last, now) then Some(now) else last
    case Clear => None
  }

  /** The mutex-guarded object. Each method is one critical section. */
  class Throttle {
    const minInterval: Duration
    var lastRun: Option<Instant>

    constructor (minInterval: Duration)
      ensures this.minInterval == minInterval && lastRun == None
    {
      this.minInterval := minInterval;
      lastRun := None;
    }

    /** The critical section of `try_run`; `now` is read while the lock is held. The closure runs
        after it, outside the lock, exactly when the result is true. */
    method TryRun(now: Instant) returns (admitted: bool)
      modifies this`lastRun
      ensures admitted == Admits(minInterval, old(lastRun), now)
      ensures lastRun == After(minInterval, old(lastRun), Try(now))
    {
      if lastRun.Some? && Elapsed(now, lastRun.value) < minInterval {
        return false;
      }
      lastRun := Some(now);
      return true;
    }

    method Reset()
      modifies this`lastRun
      ensures lastRun == After(minInterval, old(lastRun), Clear)
    {
      lastRun := None;
    }
  }

  /** The stamp after the first `k` events. */
  function Stamp(interval: Duration, events: seq<Event>, k: nat): Option<Instant>
    requires k <= |events|
  {
    if k == 0 then None else After(interval, Stamp(interval, events, k - 1), events[k - 1])
  }

  predicate Admitted(interval: Duration, events: seq<Event>, k: nat) {
    k < |events| && events[k].Try? && Admits(interval, Stamp(interval, events, k), events[k].now)
  }

  /** Calls read the clock inside the lock, so the readings never decrease. */
  predicate ClockOrder(events: seq<Event>) {
    forall i, j :: 0 <= i < j < |events| && events[i].Try? && events[j].Try? ==> events[i].now <= events[j].now
  }

  predicate NoClear(events: seq<Event>, from: nat, to: nat) {
    forall m :: from <= m < to && m < |events| ==> events[m].Try?
  }

  /** The class and the fold over events agree on every history. */
  method Replay(interval: Duration, events: seq<Event>) returns (admitted: seq<bool>)
    ensures |admitted| == |events|
    ensures forall k :: 0 <= k < |events| ==> admitted[k] == Admitted(interval, events, k)
  {
    var t := new Throttle(interval);
    admitted := [];
    var k := 0;
    while k < |events|
      invariant 0 <= k <= |events| && |admitted| == k
      invariant t.minInterval == interval && t.lastRun == Stamp(interval, events, k)
      invariant forall i :: 0 <= i < k ==> admitted[i] == Admitted(interval, events, i)
    {
      var a := false;
      match events[k] {
        case Try(now) => a := t.TryRun(now);
        case Clear => t.Reset();
      }
      admitted := admitted + [a];
      k := k + 1;
    }
  }

  /** The stamp is the latest admission since the latest reset, if there is one. */
  lemma {:induction false} StampMeaning(interval: Duration, events: seq<Event>, k: nat) returns (i: nat)
    requires k <= |events| && Stamp(interval, events, k).Some?
    ensures i < k && Admitted(interval, events, i) && Stamp(interval, events, k) == Some(events[i].now)
    ensures NoClear(events, i, k)
    ensures forall m :: i < m < k ==> !Admitted(interval, events, m)
  {
    if events[k - 1].Try? && Admits(interval, Stamp(interval, events, k - 1), events[k - 1].now) {
      i := k - 1;
    } else {
      i := StampMeaning(interval, events, k - 1);
    }
  }

  lemma {:induction false} StampPersists(interval: Duration, events: seq<Event>, i: nat, k: nat)
    requires ClockOrder(events) && i < k <= |events|
    requires Admitted(interval, events, i) && NoClear(events, i, k)
    ensures Stamp(interval, events, k).Some? && events[i].now <= Stamp(interval, events, k).value
  {
    if k == i + 1 {
    } else {
      StampPersists(interval, events, i, k - 1);
    }
  }

  /** Under any interleaving, admissions not separated by a reset are at least the interval apart. */
  lemma AdmissionsSpaced(interval: Duration, events: seq<Event>, i: nat, j: nat)
    requires ClockOrder(events) && i < j
    requires Admitted(interval, events, i) && Admitted(interval, events, j) && NoClear(events, i, j)
    ensures events[j].now - events[i].now >= interval
  {
    StampPersists(interval, events, i, j);
    var s := StampMeaning(interval, events, j);
    assert events[i].now <= events[s].now <= events[j].now;
  }

  /** A call is refused exactly when an admission since the last reset is closer than the interval. */
  lemma RefusedIff(interval: Duration, events: seq<Event>, j: nat)
    requires ClockOrder(events) && j < |events| && events[j].Try?
    ensures !Admitted(interval, events, j)
            <==> exists i :: 0 <= i < j && Admitted(interval, events, i) && NoClear(events, i, j)
                             && events[j].now - events[i].now < interval
  {
    if !Admitted(interval, events, j) {
      var i := StampMeaning(interval, events, j);
      assert events[i].now <= events[j].now;
    } else {
      forall i | 0 <= i < j && Admitted(interval, events, i) && NoClear(events, i, j)
        ensures events[j].now - events[i].now >= interval
      {
        AdmissionsSpaced(interval, events, i, j);
      }
    }
  }

  /** A reset makes a fresh start: behind it only the events since then matter. */
  lemma {:induction false} ResetStartsAfresh(interval: Duration, events: seq<Event>, c: nat, k: nat)
    requires c < k <= |events| && events[c].Clear?
    ensures Stamp(interval, events, k) == Stamp(interval, events[c + 1..], k - (c + 1))
    ensures k < |events| ==>
              Admitted(interval, events, k) == Admitted(interval, events[c + 1..], k - (c + 1))
  {
    if k == c + 1 {
    } else {
      ResetStartsAfresh(interval, events, c, k - 1);
    }
  }

  // ----- greedy admission is optimal --------------------------------------------------------

  function CountAdmitted(interval: Duration, events: seq<Event>, k: nat): nat
    requires k <= |events|
  {
    if k == 0 then 0
    else CountAdmitted(interval, events, k - 1) + if Admitted(interval, events, k - 1) then 1 else 0
  }

  predicate Apart(interval: Duration, events: seq<Event>, i: nat, j: nat) {
    i < |events| && j < |events| && events[i].Try? && events[j].Try? && NoClear(events, i, j) ==>
      events[j].now - events[i].now >= interval
  }

  /** Some of the first `k` events, all of them calls, in order, and any two with no reset between them
      at least the interval apart. */
  predicate Spaced(interval: Duration, events: seq<Event>, chosen: seq<nat>, k: nat) {
    && (forall a :: 0 <= a < |chosen| ==> chosen[a] < k && chosen[a] < |events| && events[chosen[a]].Try?)
    && (forall a, b :: 0 <= a < b < |chosen| ==> chosen[a] < chosen[b] && Apart(interval, events, chosen[a], chosen[b]))
  }

  lemma StampNotLater(interval: Duration, events: seq<Event>, k: nat)
    requires ClockOrder(events) && k < |events| && events[k].Try?
    ensures Stamp(interval, events, k).Some? ==> Stamp(interval, events, k).value <= events[k].now
  {
    if Stamp(interval, events, k).Some? {
      var i := StampMeaning(interval, events, k);
    }
  }

  lemma SpacedEarlier(interval: Duration, events: seq<Event>, chosen: seq<nat>, k: nat)
    requires k > 0 && Spaced(interval, events, chosen, k)
    requires chosen == [] || chosen[|chosen| - 1] < k - 1
    ensures Spaced(interval, events, chosen, k - 1)
  {
    forall a | 0 <= a < |chosen| ensures chosen[a] < k - 1 {
      assert a < |chosen| - 1 ==> chosen[a] < chosen[|chosen| - 1];
    }
  }

  lemma SpacedInit(interval: Duration, events: seq<Event>, chosen: seq<nat>, k: nat)
    requires k > 0 && Spaced(interval, events, chosen, k) && chosen != []
    ensures Spaced(interval, events, chosen[..|chosen| - 1], k - 1)
  {
    var init := chosen[..|chosen| - 1];
    forall a | 0 <= a < |init| ensures init[a] < k - 1 {
      assert chosen[a] < chosen[|chosen| - 1];
    }
  }

  lemma SpacedSnoc(interval: Duration, events: seq<Event>, chosen: seq<nat>, k: nat)
    requires Spaced(interval, events, chosen, k) && k < |events| && events[k].Try?
    requires forall a :: 0 <= a < |chosen| ==> Apart(interval, events, chosen[a], k)
    ensures Spaced(interval, events, chosen + [k], k + 1)
  {
  }

  lemma SpacedLater(interval: Duration, events: seq<Event>, chosen: seq<nat>, k: nat)
    requires Spaced(interval, events, chosen, k)
    ensures Spaced(interval, events, chosen, k + 1)
  {
  }

  /** Greedy is ahead of a selection: it has admitted as many; and when exactly as many, either it would
      admit at once, or the last of the selection came no earlier than its own, behind the same reset. */
  predicate Ahead(interval: Duration, events: seq<Event>, chosen: seq<nat>, k: nat)
    requires k <= |events|
  {
    && |chosen| <= CountAdmitted(interval, events, k)
    && (|chosen| == CountAdmitted(interval, events, k) && Stamp(interval, events, k).Some? ==>
          && chosen != []
          && var last := chosen[|chosen| - 1];
          && last < k && events[last].Try? && NoClear(events, last, k)
          && Stamp(interval, events, k).value <= events[last].now)
  }

  /** The event `k - 1` is not in the selection. */
  lemma AheadOfSkip(interval: Duration, events: seq<Event>, chosen: seq<nat>, k: nat)
    requires 0 < k <= |events| && Ahead(interval, events, chosen, k - 1)
    ensures Ahead(interval, events, chosen, k)
  {
  }

  /** The event `k - 1` is the last of the selection. */
  lemma AheadOfTake(interval: Duration, events: seq<Event>, chosen: seq<nat>, k: nat)
    requires ClockOrder(events) && 0 < k <= |events|
    requires Spaced(interval, events, chosen, k) && chosen != [] && chosen[|chosen| - 1] == k - 1
    requires Ahead(interval, events, chosen[..|chosen| - 1], k - 1)
    ensures Ahead(interval, events, chosen, k)
  {
    StampNotLater(interval, events, k - 1);
    if |chosen| > 1 {
      assert Apart(interval, events, chosen[|chosen| - 2], chosen[|chosen| - 1]);
    }
  }

  /** Greedy stays ahead of every selection. */
  lemma {:induction false} GreedyStaysAhead(interval: Duration, events: seq<Event>, chosen: seq<nat>, k: nat)
    requires ClockOrder(events) && k <= |events| && Spaced(interval, events, chosen, k)
    ensures Ahead(interval, events, chosen, k)
    decreases k
  {
    if k == 0 {
    } else if chosen == [] || chosen[|chosen| - 1] < k - 1 {
      SpacedEarlier(interval, events, chosen, k);
      GreedyStaysAhead(interval, events, chosen, k - 1);
      AheadOfSkip(interval, events, chosen, k);
    } else {
      SpacedInit(interval, events, chosen, k);
      GreedyStaysAhead(interval, events, chosen[..|chosen| - 1], k - 1);
      AheadOfTake(interval, events, chosen, k);
    }
  }

  function AdmittedIndices(interval: Duration, events: seq<Event>, k: nat): seq<nat>
    requires k <= |events|
  {
    if k == 0 then []
    else
      var before := AdmittedIndices(interval, events, k - 1);
      if Admitted(interval, events, k - 1) then before + [k - 1] else before
  }

  predicate AllAdmitted(interval: Duration, events: seq<Event>, chosen: seq<nat>, k: nat) {
    forall a :: 0 <= a < |chosen| ==> chosen[a] < k && Admitted(interval, events, chosen[a])
  }

  lemma {:induction false} AdmittedMembers(interval: Duration, events: seq<Event>, k: nat)
    requires k <= |events|
    ensures |AdmittedIndices(interval, events, k)| == CountAdmitted(interval, events, k)
    ensures AllAdmitted(interval, events, AdmittedIndices(interval, events, k), k)
  {
    if k == 0 {
    } else {
      AdmittedMembers(interval, events, k - 1);
    }
  }

  lemma AdmittedSnoc(interval: Duration, events: seq<Event>, chosen: seq<nat>, k: nat)
    requires ClockOrder(events) && Admitted(interval, events, k)
    requires Spaced(interval, events, chosen, k) && AllAdmitted(interval, events, chosen, k)
    ensures Spaced(interval, events, chosen + [k], k + 1)
  {
    forall a | 0 <= a < |chosen| ensures Apart(interval, events, chosen[a], k) {
      if NoClear(events, chosen[a], k) {
        AdmissionsSpaced(interval, events, chosen[a], k);
      }
    }
    SpacedSnoc(interval, events, chosen, k);
  }

  lemma {:induction false} AdmittedAreSpaced(interval: Duration, events: seq<Event>, k: nat)
    requires ClockOrder(events) && k <= |events|
    ensures Spaced(interval, events, AdmittedIndices(interval, events, k), k)
  {
    if k == 0 {
    } else {
      AdmittedAreSpaced(interval, events, k - 1);
      AdmittedMembers(interval, events, k - 1);
      var before := AdmittedIndices(interval, events, k - 1);
      if Admitted(interval, events, k - 1) {
        AdmittedSnoc(interval, events, before, k - 1);
      } else {
        SpacedLater(interval, events, before, k - 1);
      }
    }
  }

  /** On every history the number admitted among the first `k` events is the largest size of any
      selection of those calls that keeps the interval between resets: greedy reaches it and nothing
      exceeds it. */
  lemma GreedyIsOptimal(interval: Duration, events: seq<Event>, k: nat)
    requires ClockOrder(events) && k <= |events|
    ensures Spaced(interval, events, AdmittedIndices(interval, events, k), k)
    ensures |AdmittedIndices(interval, events, k)| == CountAdmitted(interval, events, k)
    ensures forall chosen :: Spaced(interval, events, chosen, k) ==> |chosen| <= CountAdmitted(interval, events, k)
  {
    AdmittedMembers(interval, events, k);
    AdmittedAreSpaced(interval, events, k);
    forall chosen | Spaced(interval, events, chosen, k) ensures |chosen| <= CountAdmitted(interval, events, k) {
      GreedyStaysAhead(interval, events, chosen, k);
    }
  }
}
