/** src/network/retry.rs: how many requests a stack of retrying clients sends after its token fired. */
module HttpCancellation {
  import opened Machine
  import opened Backoff
  import opened HttpRetry

  /** What a send does in time: requests that reach the server, and backoffs, each with its number, its
      length, whether the layer has a token attached, and whether it ran to its end. */
  datatype Event = Sent | Slept(number: nat, delay: Duration, attached: bool, whole: bool)

  /** The backoff after this attempt, as an event. */
  function Nap(l: Layer, w: World, attempt: u32, last: Reply, c: Cursor, whole: bool): Event {
    Slept(|c.naps|, DelayAfter(l, w, attempt, last, c), l.hasToken, whole)
  }

  /** The events of `Send`, in order. */
  function Trace(w: World, stack: seq<Layer>, req: Request, c: Cursor): seq<Event>
    decreases |stack|, 1, 0
  {
    if stack == [] then [Event.Sent]
    else
      var inner := stack[..|stack| - 1];
      var first := Send(w, inner, req, c);
      Trace(w, inner, req, c) + TraceOn(w, stack, req, 1, first.0, first.1)
  }

  /** The events of `Continue`. */
  function TraceOn(w: World, stack: seq<Layer>, req: Request, attempt: nat, last: Reply, c: Cursor): seq<Event>
    requires stack != [] && 1 <= attempt <= stack[|stack| - 1].policy.maxAttempts
    decreases |stack|, 0, stack[|stack| - 1].policy.maxAttempts - attempt
  {
    var l := stack[|stack| - 1];
    if attempt == l.policy.maxAttempts || !ShouldRetry(l.policy, last, req.verb) || !req.cloneable then []
    else if !TriesAgain(l, w, req, attempt, last, c) then [Nap(l, w, attempt, last, c, false)]
    else
      var inner, after := stack[..|stack| - 1], Napped(l, w, attempt, last, c);
      var next := Send(w, inner, req, after);
      [Nap(l, w, attempt, last, c, true)] + Trace(w, inner, req, after)
      + TraceOn(w, stack, req, attempt + 1, next.0, next.1)
  }

  // ----- what the trace accounts for ----------------------------------------------------------

  /** How many requests. */
  function Requests(trace: seq<Event>): nat {
    if trace == [] then 0 else Requests(trace[..|trace| - 1]) + if trace[|trace| - 1].Sent? then 1 else 0
  }

  /** The lengths of the backoffs. */
  function Delays(trace: seq<Event>): seq<Duration> {
    if trace == [] then []
    else Delays(trace[..|trace| - 1]) + if trace[|trace| - 1].Sent? then [] else [trace[|trace| - 1].delay]
  }

  lemma {:induction false} AccountConcat(a: seq<Event>, b: seq<Event>)
    ensures Requests(a + b) == Requests(a) + Requests(b)
    ensures Delays(a + b) == Delays(a) + Delays(b)
    decreases b
  {
    if b == [] {
      assert a + b == a;
    } else {
      assert (a + b)[..|a + b| - 1] == a + b[..|b| - 1];
      AccountConcat(a, b[..|b| - 1]);
    }
  }

  lemma NapAccounts(nap: Event, a: seq<Event>, b: seq<Event>)
    requires nap.Slept?
    ensures Requests([nap]) == 0 && Delays([nap]) == [nap.delay]
    ensures Requests([nap] + a + b) == Requests(a) + Requests(b)
    ensures Delays([nap] + a + b) == [nap.delay] + Delays(a) + Delays(b)
  {
    assert [nap][..0] == [];
    AccountConcat([nap] + a, b);
    AccountConcat([nap], a);
  }

  /** `c'` is what the events of the trace make of `c`. */
  predicate Accounts(c: Cursor, trace: seq<Event>, c': Cursor) {
    c' == Cursor(c.dispatched + Requests(trace), c.naps + Delays(trace))
  }

  lemma AccountsInTurn(c: Cursor, a: seq<Event>, mid: Cursor, b: seq<Event>, c': Cursor)
    requires Accounts(c, a, mid) && Accounts(mid, b, c')
    ensures Accounts(c, a + b, c')
  {
    AccountConcat(a, b);
  }

  /** The trace accounts for every request and every backoff, in order. */
  lemma {:induction false} TraceCounts(w: World, stack: seq<Layer>, req: Request, c: Cursor)
    ensures Accounts(c, Trace(w, stack, req, c), Send(w, stack, req, c).1)
    decreases |stack|, 1, 0
  {
    if stack == [] {
      assert [Event.Sent][..0] == [];
    } else {
      var inner := stack[..|stack| - 1];
      var first := Send(w, inner, req, c);
      TraceCounts(w, inner, req, c);
      TraceOnCounts(w, stack, req, 1, first.0, first.1);
      AccountsInTurn(c, Trace(w, inner, req, c), first.1,
                     TraceOn(w, stack, req, 1, first.0, first.1), Send(w, stack, req, c).1);
    }
  }

  lemma {:induction false} TraceOnCounts(w: World, stack: seq<Layer>, req: Request,
                                         attempt: nat, last: Reply, c: Cursor)
    requires stack != [] && 1 <= attempt <= stack[|stack| - 1].policy.maxAttempts
    ensures Accounts(c, TraceOn(w, stack, req, attempt, last, c), Continue(w, stack, req, attempt, last, c).1)
    decreases |stack|, 0, stack[|stack| - 1].policy.maxAttempts - attempt
  {
    var l := stack[|stack| - 1];
    NapAccounts(Nap(l, w, attempt, last, c, false), [], []);
    if !TriesAgain(l, w, req, attempt, last, c) {
    } else {
      var inner, after := stack[..|stack| - 1], Napped(l, w, attempt, last, c);
      var next := Send(w, inner, req, after);
      TraceCounts(w, inner, req, after);
      TraceOnCounts(w, stack, req, attempt + 1, next.0, next.1);
      var nap := Nap(l, w, attempt, last, c, true);
      NapAccounts(nap, [], []);
      AccountsInTurn(c, [nap], after, Trace(w, inner, req, after), next.1);
      AccountsInTurn(c, [nap] + Trace(w, inner, req, after), next.1,
                     TraceOn(w, stack, req, attempt + 1, next.0, next.1),
                     Continue(w, stack, req, attempt, last, c).1);
    }
  }

  // ----- one request per whole backoff --------------------------------------------------------

  /** Every request but one at the very start comes right after a backoff that ran to its end, and every
      such backoff is followed by a request. */
  predicate Orderly(trace: seq<Event>) {
    && (forall x :: 0 < x < |trace| && trace[x].Sent? ==> trace[x - 1].Slept? && trace[x - 1].whole)
    && (forall x :: 0 <= x < |trace| && trace[x].Slept? && trace[x].whole ==>
          x + 1 < |trace| && trace[x + 1].Sent?)
  }

  lemma OrderlyConcat(a: seq<Event>, b: seq<Event>)
    requires Orderly(a) && Orderly(b) && (b == [] || b[0].Slept?)
    ensures Orderly(a + b)
  {
  }

  lemma OrderlyNap(nap: Event, b: seq<Event>)
    requires nap.Slept? && nap.whole && Orderly(b) && b != [] && b[0].Sent?
    ensures Orderly([nap] + b)
  {
  }

  lemma {:induction false} TraceOrderly(w: World, stack: seq<Layer>, req: Request, c: Cursor)
    ensures Orderly(Trace(w, stack, req, c)) && Trace(w, stack, req, c) != [] && Trace(w, stack, req, c)[0].Sent?
    decreases |stack|, 1, 0
  {
    if stack == [] {
    } else {
      var inner := stack[..|stack| - 1];
      var first := Send(w, inner, req, c);
      TraceOrderly(w, inner, req, c);
      TraceOnOrderly(w, stack, req, 1, first.0, first.1);
      OrderlyConcat(Trace(w, inner, req, c), TraceOn(w, stack, req, 1, first.0, first.1));
    }
  }

  lemma {:induction false} TraceOnOrderly(w: World, stack: seq<Layer>, req: Request,
                                          attempt: nat, last: Reply, c: Cursor)
    requires stack != [] && 1 <= attempt <= stack[|stack| - 1].policy.maxAttempts
    ensures var trace := TraceOn(w, stack, req, attempt, last, c);
            Orderly(trace) && (trace == [] || trace[0].Slept?)
    decreases |stack|, 0, stack[|stack| - 1].policy.maxAttempts - attempt
  {
    var l := stack[|stack| - 1];
    if !TriesAgain(l, w, req, attempt, last, c) {
    } else {
      var inner, after := stack[..|stack| - 1], Napped(l, w, attempt, last, c);
      var next := Send(w, inner, req, after);
      TraceOrderly(w, inner, req, after);
      TraceOnOrderly(w, stack, req, attempt + 1, next.0, next.1);
      var nap := Nap(l, w, attempt, last, c, true);
      OrderlyNap(nap, Trace(w, inner, req, after));
      OrderlyConcat([nap] + Trace(w, inner, req, after), TraceOn(w, stack, req, attempt + 1, next.0, next.1));
    }
  }

  // ----- the token --------------------------------------------------------------------------------

  /** A backoff runs to its end exactly when it has no length, or no token is attached, or the token is
      not found fired. */
  predicate FollowsToken(w: World, e: Event) {
    e.Slept? ==> (e.whole <==> e.delay == 0 || !e.attached || !w.fired(e.number))
  }

  predicate AllFollowToken(w: World, trace: seq<Event>) {
    forall x :: 0 <= x < |trace| ==> FollowsToken(w, trace[x])
  }

  /** So no backoff with a length that finds an attached token fired is followed by a request, and every
      other one is: on any status, for any policy, in any layer of the stack. */
  lemma {:induction false} TraceFollowsToken(w: World, stack: seq<Layer>, req: Request, c: Cursor)
    ensures AllFollowToken(w, Trace(w, stack, req, c))
    decreases |stack|, 1, 0
  {
    if stack == [] {
    } else {
      var inner := stack[..|stack| - 1];
      var first := Send(w, inner, req, c);
      TraceFollowsToken(w, inner, req, c);
      TraceOnFollowsToken(w, stack, req, 1, first.0, first.1);
    }
  }

  lemma {:induction false} TraceOnFollowsToken(w: World, stack: seq<Layer>, req: Request,
                                               attempt: nat, last: Reply, c: Cursor)
    requires stack != [] && 1 <= attempt <= stack[|stack| - 1].policy.maxAttempts
    ensures AllFollowToken(w, TraceOn(w, stack, req, attempt, last, c))
    decreases |stack|, 0, stack[|stack| - 1].policy.maxAttempts - attempt
  {
    var l := stack[|stack| - 1];
    if !TriesAgain(l, w, req, attempt, last, c) {
    } else {
      var inner, after := stack[..|stack| - 1], Napped(l, w, attempt, last, c);
      var next := Send(w, inner, req, after);
      TraceFollowsToken(w, inner, req, after);
      TraceOnFollowsToken(w, stack, req, attempt + 1, next.0, next.1);
    }
  }

  // ----- layers that may go on ------------------------------------------------------------------

  /** The layer may make a second attempt of this request although its token has fired: no token is
      attached, or its own backoff can be zero, or the server can ask for a retry without delay, as far as
      servers do that (`zeroWaits`). */
  predicate Leaky(l: Layer, req: Request, zeroWaits: bool) {
    && Effective(l, req) >= 2
    && (l.policy.retryStatuses != [] || l.policy.retryNetworkErrors)
    && (|| !l.hasToken || l.policy.jitter || l.policy.baseBackoff == 0 || l.policy.maxBackoff == 0
        || (zeroWaits && l.policy.retryStatuses != []))
  }

  predicate NoneLeaky(stack: seq<Layer>, req: Request, zeroWaits: bool) {
    forall i :: 0 <= i < |stack| ==> !Leaky(stack[i], req, zeroWaits)
  }

  /** The servers in question: all of them, or those that never answer `Retry-After: 0`. */
  ghost predicate Allowed(w: World, zeroWaits: bool) {
    zeroWaits || forall k: nat :: !AsksNoWait(w.answers(k))
  }

  /** No backoff that found the token fired ran to its end. */
  predicate Firm(w: World, trace: seq<Event>) {
    forall x :: 0 <= x < |trace| && trace[x].Slept? && trace[x].whole ==> !w.fired(trace[x].number)
  }

  lemma TightLayer(l: Layer, w: World, req: Request, attempt: nat, last: Reply, c: Cursor, zeroWaits: bool)
    requires 1 <= attempt <= l.policy.maxAttempts && !Leaky(l, req, zeroWaits)
    requires TriesAgain(l, w, req, attempt, last, c) && (zeroWaits || !AsksNoWait(last))
    ensures !w.fired(|c.naps|)
  {
    assert Effective(l, req) >= 2;
    ZeroDelayIff(l.policy.baseBackoff, l.policy.maxBackoff, attempt, w.entropy(|c.naps|));
  }

  lemma {:induction false} TraceFirm(w: World, stack: seq<Layer>, req: Request, c: Cursor, zeroWaits: bool)
    requires NoneLeaky(stack, req, zeroWaits) && Allowed(w, zeroWaits)
    ensures Firm(w, Trace(w, stack, req, c))
    decreases |stack|, 1, 0
  {
    if stack == [] {
    } else {
      var inner := stack[..|stack| - 1];
      var first := Send(w, inner, req, c);
      TraceFirm(w, inner, req, c, zeroWaits);
      SendBounds(w, inner, req, c);
      TraceOnFirm(w, stack, req, 1, first.0, first.1, zeroWaits);
    }
  }

  lemma {:induction false} TraceOnFirm(w: World, stack: seq<Layer>, req: Request,
                                       attempt: nat, last: Reply, c: Cursor, zeroWaits: bool)
    requires stack != [] && 1 <= attempt <= stack[|stack| - 1].policy.maxAttempts
    requires NoneLeaky(stack, req, zeroWaits) && Allowed(w, zeroWaits)
    requires c.dispatched > 0 && last == w.answers(c.dispatched - 1)
    ensures Firm(w, TraceOn(w, stack, req, attempt, last, c))
    decreases |stack|, 0, stack[|stack| - 1].policy.maxAttempts - attempt
  {
    var l := stack[|stack| - 1];
    if !TriesAgain(l, w, req, attempt, last, c) {
    } else {
      var inner, after := stack[..|stack| - 1], Napped(l, w, attempt, last, c);
      var next := Send(w, inner, req, after);
      TightLayer(l, w, req, attempt, last, c, zeroWaits);
      TraceFirm(w, inner, req, after, zeroWaits);
      SendBounds(w, inner, req, after);
      TraceOnFirm(w, stack, req, attempt + 1, next.0, next.1, zeroWaits);
    }
  }

  // ----- requests after the token fired ---------------------------------------------------------

  /** The token, which does not un-fire, fires between the events before `q` and those from `q` on. */
  predicate FiresBefore(w: World, trace: seq<Event>, q: nat) {
    q <= |trace| && forall x :: 0 <= x < |trace| && trace[x].Slept? ==> (w.fired(trace[x].number) <==> x >= q)
  }

  /** However the servers in question answer and whenever the token fires, at most one request is sent
      after it. */
  ghost predicate HonoursCancel(stack: seq<Layer>, req: Request, c: Cursor, zeroWaits: bool) {
    forall w: World, q: nat | Allowed(w, zeroWaits) && FiresBefore(w, Trace(w, stack, req, c), q) ::
      Requests(Trace(w, stack, req, c)[q..]) <= 1
  }

  lemma {:induction false} OnlyTheFirst(trace: seq<Event>)
    requires forall x :: 0 < x < |trace| ==> !trace[x].Sent?
    ensures Requests(trace) <= 1
  {
    if |trace| <= 1 {
      assert trace == [] || trace[..0] == [];
    } else {
      OnlyTheFirst(trace[..|trace| - 1]);
    }
  }

  lemma FirmSendsOnce(w: World, trace: seq<Event>, q: nat)
    requires Orderly(trace) && Firm(w, trace) && FiresBefore(w, trace, q)
    ensures Requests(trace[q..]) <= 1
  {
    var late := trace[q..];
    forall x | 0 < x < |late| ensures !late[x].Sent? {
      assert late[x] == trace[q + x] && late[x - 1] == trace[q + x - 1];
    }
    OnlyTheFirst(late);
  }

  /** A server that always gives an answer after which this layer goes on, a token that has fired from
      the start, and a jitter draw of zero. */
  function Tempting(l: Layer, zeroWaits: bool): World {
    var reply :=
      if l.policy.retryStatuses == [] then NetworkError
      else Response(l.policy.retryStatuses[0], if zeroWaits then Some(0) else None);
    World(_ => reply, _ => true, _ => 0)
  }

  lemma TemptedOn(l: Layer, w: World, req: Request, c: Cursor, zeroWaits: bool)
    requires Leaky(l, req, zeroWaits) && w == Tempting(l, zeroWaits)
    ensures TriesAgain(l, w, req, 1, w.answers(c.dispatched), c)
  {
    ZeroDelayIff(l.policy.baseBackoff, l.policy.maxBackoff, 1, 0);
    JitterOf(Capped(l.policy.baseBackoff, l.policy.maxBackoff, 1), 0);
  }

  /** A leaky layer on the outside sends its second request. */
  lemma TemptedTwice(w: World, stack: seq<Layer>, req: Request, c: Cursor, zeroWaits: bool)
    requires stack != [] && Leaky(stack[|stack| - 1], req, zeroWaits)
    requires w == Tempting(stack[|stack| - 1], zeroWaits)
    ensures Send(w, stack, req, c).1.dispatched >= c.dispatched + 2
  {
    var inner, l := stack[..|stack| - 1], stack[|stack| - 1];
    SendBounds(w, inner, req, c);
    var first := Send(w, inner, req, c);
    TemptedOn(l, w, req, first.1, zeroWaits);
    var after := Napped(l, w, 1, first.0, first.1);
    SendBounds(w, inner, req, after);
    var next := Send(w, inner, req, after);
    ContinueBounds(w, stack, req, 2, next.0, next.1);
  }

  /** Layers around it only add to that. */
  lemma {:induction false} TemptedInside(w: World, stack: seq<Layer>, req: Request, c: Cursor, i: nat, zeroWaits: bool)
    requires i < |stack| && Leaky(stack[i], req, zeroWaits) && w == Tempting(stack[i], zeroWaits)
    ensures Send(w, stack, req, c).1.dispatched >= c.dispatched + 2
    decreases |stack|
  {
    if i == |stack| - 1 {
      TemptedTwice(w, stack, req, c, zeroWaits);
    } else {
      var inner := stack[..|stack| - 1];
      TemptedInside(w, inner, req, c, i, zeroWaits);
      SendBounds(w, inner, req, c);
      var first := Send(w, inner, req, c);
      ContinueBounds(w, stack, req, 1, first.0, first.1);
    }
  }

  lemma LeakyOverruns(stack: seq<Layer>, req: Request, c: Cursor, i: nat, zeroWaits: bool)
    requires i < |stack| && Leaky(stack[i], req, zeroWaits)
    ensures !HonoursCancel(stack, req, c, zeroWaits)
  {
    var w := Tempting(stack[i], zeroWaits);
    var trace := Trace(w, stack, req, c);
    TemptedInside(w, stack, req, c, i, zeroWaits);
    TraceCounts(w, stack, req, c);
    assert trace[0..] == trace;
    assert FiresBefore(w, trace, 0);
  }

  /** A stack honours the cancellation of a request in every run exactly when no layer is leaky for it.
      When servers may answer `Retry-After: 0`, every layer that retries a status is; when they do not, a
      layer with a token, without jitter and with a base and a cap is tight, also on statuses. */
  lemma HonoursCancelIff(stack: seq<Layer>, req: Request, c: Cursor, zeroWaits: bool)
    ensures HonoursCancel(stack, req, c, zeroWaits) <==> NoneLeaky(stack, req, zeroWaits)
  {
    if NoneLeaky(stack, req, zeroWaits) {
      forall w: World, q: nat | Allowed(w, zeroWaits) && FiresBefore(w, Trace(w, stack, req, c), q)
        ensures Requests(Trace(w, stack, req, c)[q..]) <= 1
      {
        TraceOrderly(w, stack, req, c);
        TraceFirm(w, stack, req, c, zeroWaits);
        FirmSendsOnce(w, Trace(w, stack, req, c), q);
      }
    } else {
      var i: nat :| i < |stack| && Leaky(stack[i], req, zeroWaits);
      LeakyOverruns(stack, req, c, i, zeroWaits);
    }
  }

  /** The most that can come after the token has fired is everything: a server that goes on answering
      with a status to retry and `Retry-After: 0` gets the whole product of the budgets. */
  lemma FiredTokenWholeBudget(w: World, stack: seq<Layer>, req: Request, c: Cursor)
    requires forall k: nat :: w.fired(k) && AsksNoWait(w.answers(k))
    requires forall i, k: nat :: 0 <= i < |stack| ==> RetryableResult(stack[i].policy, w.answers(k))
    requires req.cloneable && IsIdempotent(req.verb)
    ensures FiresBefore(w, Trace(w, stack, req, c), 0)
    ensures Requests(Trace(w, stack, req, c)) == Budgets(stack)
  {
    StackWorstCase(w, stack, req, c);
    TraceCounts(w, stack, req, c);
  }
}
