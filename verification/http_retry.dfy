/** src/network/retry.rs: retrying clients, one around another, over a scripted executor. */
module HttpRetry {
  import opened Machine
  import opened Backoff

  datatype Method = GET | HEAD | PUT | DELETE | OPTIONS | TRACE | POST | PATCH | CONNECT | Extension(name: string)

  /** `cloneable` is whether `try_clone` succeeds; it depends on the body alone. */
  datatype Request = Request(verb: Method, cloneable: bool)

  /** `Ok(response)` with its status and `Retry-After` seconds, or `Err` by its current context. */
  datatype Reply = Response(status: nat, retryAfter: Option<u64>) | NetworkError | OtherError

  datatype Policy = Policy(
    maxAttempts: NonZeroU32, retryStatuses: seq<nat>, retryNetworkErrors: bool, retryNonIdempotent: bool,
    baseBackoff: Duration, maxBackoff: Duration, jitter: bool)

  /** A `RetryingClient`; `hasToken` is whether a cancellation token is attached. */
  datatype Layer = Layer(policy: Policy, hasToken: bool)

  /** The adversary: what the bottom executor answers to its i-th dispatch, whether the token has
      fired when the i-th backoff is polled last, and the entropy drawn for it. */
  datatype World = World(answers: nat -> Reply, fired: nat -> bool, entropy: nat -> u64)

  /** How much of the adversary's script has been used up: requests dispatched, and the backoffs requested
      so far, in order. */
  datatype Cursor = Cursor(dispatched: nat, naps: seq<Duration>)

  predicate IsIdempotent(verb: Method) {
    verb.GET? || verb.HEAD? || verb.PUT? || verb.DELETE? || verb.OPTIONS? || verb.TRACE?
  }

  /** The part of `should_retry` that looks at the result. */
  predicate RetryableResult(p: Policy, result: Reply) {
    match result
    case Response(status, _) => status in p.retryStatuses
    case NetworkError => p.retryNetworkErrors
    case OtherError => false
  }

  predicate ShouldRetry(p: Policy, result: Reply, verb: Method) {
    (p.retryNonIdempotent || IsIdempotent(verb)) && RetryableResult(p, result)
  }

  /** `Duration::from_secs` */
  function FromSeconds(secs: u64): Duration {
    secs * NANOS_PER_SECOND
  }

  function RetryDelay(p: Policy, attempt: u32, result: Reply, entropy: u64): Duration {
    if result.Response? && result.retryAfter.Some? then
      Min(FromSeconds(result.retryAfter.value), p.maxBackoff)
    else ComputeDelay(p.baseBackoff, p.maxBackoff, attempt, p.jitter, entropy)
  }

  /** `sleep_interruptible`: whether the i-th backoff runs to its end. */
  predicate SleepsThrough(l: Layer, w: World, i: nat, delay: Duration) {
    delay == 0 || !l.hasToken || !w.fired(i)
  }

  /** The backoff that the layer requests after this attempt, its number being the next one. */
  function DelayAfter(l: Layer, w: World, attempt: u32, last: Reply, c: Cursor): Duration {
    RetryDelay(l.policy, attempt, last, w.entropy(|c.naps|))
  }

  function Napped(l: Layer, w: World, attempt: u32, last: Reply, c: Cursor): Cursor {
    c.(naps := c.naps + [DelayAfter(l, w, attempt, last, c)])
  }

  // ----- the recursive specification ----------------------------------------------------------

  /** Send through the whole stack. The last layer is the outermost; no layer is the executor. */
  function Send(w: World, stack: seq<Layer>, req: Request, c: Cursor): (Reply, Cursor)
    decreases |stack|, 1, 0
  {
    if stack == [] then (w.answers(c.dispatched), c.(dispatched := c.dispatched + 1))
    else
      var first := Send(w, stack[..|stack| - 1], req, c);
      Continue(w, stack, req, 1, first.0, first.1)
  }

  /** The outermost layer has made `attempt` attempts and last saw `last`. */
  function Continue(w: World, stack: seq<Layer>, req: Request, attempt: nat, last: Reply, c: Cursor): (Reply, Cursor)
    requires stack != [] && 1 <= attempt <= stack[|stack| - 1].policy.maxAttempts
    decreases |stack|, 0, stack[|stack| - 1].policy.maxAttempts - attempt
  {
    var l := stack[|stack| - 1];
    if attempt == l.policy.maxAttempts || !ShouldRetry(l.policy, last, req.verb) || !req.cloneable then (last, c)
    else
      var delay := DelayAfter(l, w, attempt, last, c);
      var after := c.(naps := c.naps + [delay]);
      if !SleepsThrough(l, w, |c.naps|, delay) then (last, after)
      else
        var next := Send(w, stack[..|stack| - 1], req, after);
        Continue(w, stack, req, attempt + 1, next.0, next.1)
  }

  /** `RetryingClient::execute` for the outermost layer, calling the layer inside it. */
  method Execute(w: World, stack: seq<Layer>, req: Request, c: Cursor) returns (last: Reply, c': Cursor)
    ensures (last, c') == Send(w, stack, req, c)
    decreases |stack|
  {
    if stack == [] {
      return w.answers(c.dispatched), c.(dispatched := c.dispatched + 1);
    }
    var inner, l := stack[..|stack| - 1], stack[|stack| - 1];
    var template := if req.cloneable then Some(req) else None;
    last, c' := Execute(w, inner, req, c);
    var attempt := 1;
    while attempt < l.policy.maxAttempts
      invariant 1 <= attempt <= l.policy.maxAttempts
      invariant Send(w, stack, req, c) == Continue(w, stack, req, attempt, last, c')
    {
      if !ShouldRetry(l.policy, last, req.verb) {
        break;
      }
      if template.None? {
        break;
      }
      var delay := RetryDelay(l.policy, attempt, last, w.entropy(|c'.naps|));
      var napping := |c'.naps|;
      c' := c'.(naps := c'.naps + [delay]);
      if !SleepsThrough(l, w, napping, delay) {
        assert Send(w, stack, req, c) == (last, c');
        return;
      }
      last, c' := Execute(w, inner, template.value, c');
      attempt := attempt + 1;
    }
  }

  // ----- how many requests reach the server -------------------------------------------------------

  /** The most attempts a layer can make of this request. */
  function Effective(l: Layer, req: Request): (n: nat)
    ensures n >= 1
  {
    if req.cloneable && (l.policy.retryNonIdempotent || IsIdempotent(req.verb)) then l.policy.maxAttempts else 1
  }

  function Product(stack: seq<Layer>, req: Request): (n: nat)
    ensures n >= 1
  {
    if stack == [] then 1
    else
      var inner := Product(stack[..|stack| - 1], req);
      var n := Effective(stack[|stack| - 1], req);
      MulMonotone(inner, 1, n);
      inner * n
  }

  /** What a send leaves behind: requests sent, and the answer to the last of them. */
  predicate Sent(w: World, c: Cursor, result: (Reply, Cursor), least: nat, most: nat) {
    && least <= result.1.dispatched - c.dispatched <= most
    && result.1.dispatched > 0
    && result.0 == w.answers(result.1.dispatched - 1)
  }

  lemma OneFewer(f: nat, n: nat, attempt: nat)
    requires attempt < n
    ensures f * (n - attempt) == f * (n - (attempt + 1)) + f
    ensures f * (n - (attempt + 1)) >= 0
  {
    MulMonotone(f, 0, n - (attempt + 1));
    assert f * ((n - (attempt + 1)) + 1) == f * (n - (attempt + 1)) + f;
  }

  lemma {:induction false} SendBounds(w: World, stack: seq<Layer>, req: Request, c: Cursor)
    ensures Sent(w, c, Send(w, stack, req, c), 1, Product(stack, req))
    decreases |stack|, 1, 0
  {
    if stack == [] {
    } else {
      var inner := stack[..|stack| - 1];
      SendBounds(w, inner, req, c);
      var first := Send(w, inner, req, c);
      ContinueBounds(w, stack, req, 1, first.0, first.1);
      var n := Effective(stack[|stack| - 1], req);
      OneFewer(Product(inner, req), n, 0);
    }
  }

  lemma {:induction false} ContinueBounds(w: World, stack: seq<Layer>, req: Request,
                                          attempt: nat, last: Reply, c: Cursor)
    requires stack != [] && 1 <= attempt <= Effective(stack[|stack| - 1], req)
    requires c.dispatched > 0 && last == w.answers(c.dispatched - 1)
    ensures Sent(w, c, Continue(w, stack, req, attempt, last, c),
                 0, Product(stack[..|stack| - 1], req) * (Effective(stack[|stack| - 1], req) - attempt))
    decreases |stack|, 0, stack[|stack| - 1].policy.maxAttempts - attempt
  {
    var inner, l := stack[..|stack| - 1], stack[|stack| - 1];
    var f, n := Product(inner, req), Effective(l, req);
    MulMonotone(f, 0, n - attempt);
    if attempt == l.policy.maxAttempts || !ShouldRetry(l.policy, last, req.verb) || !req.cloneable {
    } else {
      var after := Napped(l, w, attempt, last, c);
      if SleepsThrough(l, w, |c.naps|, DelayAfter(l, w, attempt, last, c)) {
        SendBounds(w, inner, req, after);
        var next := Send(w, inner, req, after);
        ContinueBounds(w, stack, req, attempt + 1, next.0, next.1);
        OneFewer(f, n, attempt);
      }
    }
  }

  /** The product of the configured budgets, whatever the request. */
  function Budgets(stack: seq<Layer>): nat {
    if stack == [] then 1 else Budgets(stack[..|stack| - 1]) * stack[|stack| - 1].policy.maxAttempts
  }

  lemma {:induction false} ProductAtMostBudgets(stack: seq<Layer>, req: Request)
    ensures Product(stack, req) <= Budgets(stack)
    decreases |stack|
  {
    if stack == [] {
    } else {
      var inner, l := stack[..|stack| - 1], stack[|stack| - 1];
      ProductAtMostBudgets(inner, req);
      MulMonotone(Product(inner, req), Effective(l, req), l.policy.maxAttempts);
      MulMonotone(l.policy.maxAttempts, Product(inner, req), Budgets(inner));
    }
  }

  /** Stacked layers multiply: between one request and the product of the budgets reach the server,
      a layer that may not retry this request counting once; and the caller always gets the answer
      to the very last request sent, never an earlier one. */
  lemma StackBounds(w: World, stack: seq<Layer>, req: Request, c: Cursor)
    ensures var (reply, c') := Send(w, stack, req, c);
            && 1 <= c'.dispatched - c.dispatched <= Product(stack, req) <= Budgets(stack)
            && reply == w.answers(c'.dispatched - 1)
  {
    SendBounds(w, stack, req, c);
    ProductAtMostBudgets(stack, req);
  }

  /** Exactly one request when no layer has means and reason to replay it: the body does not clone,
      or the method is not idempotent and the layer has not opted in, or the answer suits it. */
  lemma {:induction false} OneRequestOnly(w: World, stack: seq<Layer>, req: Request, c: Cursor)
    requires !req.cloneable
             || forall i :: 0 <= i < |stack| ==> !ShouldRetry(stack[i].policy, w.answers(c.dispatched), req.verb)
    ensures Send(w, stack, req, c).0 == w.answers(c.dispatched)
    ensures Send(w, stack, req, c).1 == c.(dispatched := c.dispatched + 1)
    decreases |stack|
  {
    if stack == [] {
    } else {
      OneRequestOnly(w, stack[..|stack| - 1], req, c);
    }
  }

  /** The server asks for a retry at once: a zero delay, whatever the policy. */
  predicate AsksNoWait(r: Reply) {
    r.Response? && r.retryAfter == Some(0)
  }

  /** The server's answers are all retryable for every layer, and no backoff is cut short: no token has
      fired, or there is never anything to wait for. */
  ghost predicate Hopeless(w: World, stack: seq<Layer>) {
    && (forall i, k: nat :: 0 <= i < |stack| ==> RetryableResult(stack[i].policy, w.answers(k)))
    && ((forall i, k: nat :: 0 <= i < |stack| ==> !(stack[i].hasToken && w.fired(k)))
        || forall k: nat :: AsksNoWait(w.answers(k)))
  }

  lemma HopelessInner(w: World, stack: seq<Layer>)
    requires stack != [] && Hopeless(w, stack)
    ensures Hopeless(w, stack[..|stack| - 1])
  {
    var inner := stack[..|stack| - 1];
    forall i, k: nat | 0 <= i < |inner| ensures RetryableResult(inner[i].policy, w.answers(k)) {
      assert inner[i] == stack[i];
    }
    if !forall k: nat :: AsksNoWait(w.answers(k)) {
      forall i, k: nat | 0 <= i < |inner| ensures !(inner[i].hasToken && w.fired(k)) {
        assert inner[i] == stack[i];
      }
    }
  }

  lemma {:induction false} HopelessSend(w: World, stack: seq<Layer>, req: Request, c: Cursor)
    requires Hopeless(w, stack)
    ensures Send(w, stack, req, c).1.dispatched == c.dispatched + Product(stack, req)
    decreases |stack|, 1, 0
  {
    if stack == [] {
    } else {
      var inner := stack[..|stack| - 1];
      HopelessInner(w, stack);
      HopelessSend(w, inner, req, c);
      SendBounds(w, inner, req, c);
      var first := Send(w, inner, req, c);
      HopelessContinue(w, stack, req, 1, first.0, first.1);
      var n := Effective(stack[|stack| - 1], req);
      OneFewer(Product(inner, req), n, 0);
    }
  }

  lemma {:induction false} HopelessContinue(w: World, stack: seq<Layer>, req: Request,
                                            attempt: nat, last: Reply, c: Cursor)
    requires stack != [] && Hopeless(w, stack) && 1 <= attempt <= Effective(stack[|stack| - 1], req)
    requires c.dispatched > 0 && last == w.answers(c.dispatched - 1)
    ensures Continue(w, stack, req, attempt, last, c).1.dispatched
            == c.dispatched + Product(stack[..|stack| - 1], req) * (Effective(stack[|stack| - 1], req) - attempt)
    decreases |stack|, 0, stack[|stack| - 1].policy.maxAttempts - attempt
  {
    var inner, l := stack[..|stack| - 1], stack[|stack| - 1];
    var f, n := Product(inner, req), Effective(l, req);
    assert RetryableResult(l.policy, w.answers(c.dispatched - 1));
    assert AsksNoWait(w.answers(c.dispatched - 1)) || !(l.hasToken && w.fired(|c.naps|));
    if attempt == n {
      assert f * (n - attempt) == 0;
    } else {
      var after := Napped(stack[|stack| - 1], w, attempt, last, c);
      HopelessInner(w, stack);
      HopelessSend(w, inner, req, after);
      SendBounds(w, inner, req, after);
      var next := Send(w, inner, req, after);
      HopelessContinue(w, stack, req, attempt + 1, next.0, next.1);
      OneFewer(f, n, attempt);
    }
  }

  lemma {:induction false} ProductIsBudgets(stack: seq<Layer>, req: Request)
    requires req.cloneable
    requires IsIdempotent(req.verb) || forall i :: 0 <= i < |stack| ==> stack[i].policy.retryNonIdempotent
    ensures Product(stack, req) == Budgets(stack)
    decreases |stack|
  {
    if stack == [] {
    } else {
      ProductIsBudgets(stack[..|stack| - 1], req);
    }
  }

  /** The bound is reached: when everything is retryable for every layer, the body clones and no
      sleep is cut short, an idempotent request is sent exactly the product of the budgets. */
  lemma StackWorstCase(w: World, stack: seq<Layer>, req: Request, c: Cursor)
    requires Hopeless(w, stack) && req.cloneable
    requires IsIdempotent(req.verb) || forall i :: 0 <= i < |stack| ==> stack[i].policy.retryNonIdempotent
    ensures Send(w, stack, req, c).1.dispatched == c.dispatched + Budgets(stack)
  {
    HopelessSend(w, stack, req, c);
    ProductIsBudgets(stack, req);
  }

  // ----- the default policy ------------------------------------------------------------------------

  /** `RetryPolicy::default()` */
  const DEFAULT := Policy(3, [429, 503], true, false, 200_000_000, 30_000_000_000, true)

  function Defaults(n: nat): (s: seq<Layer>)
    ensures |s| == n && forall i :: 0 <= i < n ==> s[i] == Layer(DEFAULT, false)
  {
    seq(n, _ => Layer(DEFAULT, false))
  }

  function Power3(n: nat): nat {
    if n == 0 then 1 else 3 * Power3(n - 1)
  }

  lemma {:induction false} DefaultProduct(n: nat, req: Request)
    ensures Product(Defaults(n), req) == if req.cloneable && IsIdempotent(req.verb) then Power3(n) else 1
  {
    if n == 0 {
    } else {
      assert Defaults(n)[..n - 1] == Defaults(n - 1);
      DefaultProduct(n - 1, req);
    }
  }

  predicate Unavailable(r: Reply) {
    r.NetworkError? || (r.Response? && r.status in {429, 503})
  }

  /** `n` default layers before a server that is down or says 429 or 503 for ever: a request that may
      be replayed is sent 3^n times, a POST or PATCH once, and any other answer ends it at once. */
  lemma DefaultStack(w: World, n: nat, req: Request, c: Cursor)
    ensures req.cloneable && req.verb in {GET, HEAD, PUT, DELETE, OPTIONS, TRACE}
            && (forall k: nat :: Unavailable(w.answers(k))) ==>
              Send(w, Defaults(n), req, c).1.dispatched == c.dispatched + Power3(n)
    ensures req.verb in {POST, PATCH, CONNECT} || !Unavailable(w.answers(c.dispatched)) ==>
              Send(w, Defaults(n), req, c).1.dispatched == c.dispatched + 1
  {
    if forall k: nat :: Unavailable(w.answers(k)) {
      HopelessSend(w, Defaults(n), req, c);
      DefaultProduct(n, req);
    }
    if req.verb in {POST, PATCH, CONNECT} || !Unavailable(w.answers(c.dispatched)) {
      OneRequestOnly(w, Defaults(n), req, c);
    }
  }

  /** The default backoffs are drawn below 200ms and below 400ms; what the server asks for is waited out
      up to 30s. */
  lemma DefaultBackoff(attempt: u32, result: Reply, entropy: u64)
    requires 1 <= attempt <= 2
    ensures var d := RetryDelay(DEFAULT, attempt, result, entropy);
            if result.Response? && result.retryAfter.Some? then
              d == (if result.retryAfter.value <= 30 then result.retryAfter.value * 1_000_000_000 else 30_000_000_000)
            else IsRemainder(entropy, attempt * 200_000_000, d)
  {
    assert Pow2(0) == 1 && Pow2(1) == 2;
    DelayIff(DEFAULT.baseBackoff, DEFAULT.maxBackoff, attempt, true, entropy,
             ComputeDelay(DEFAULT.baseBackoff, DEFAULT.maxBackoff, attempt, true, entropy));
  }

  // ----- one layer -------------------------------------------------------------------------------

  /** A backoff never exceeds the cap; and what the server asks for is waited out to the nanosecond
      when it fits under the cap, and is the cap otherwise, without jitter and at any attempt. */
  lemma DelayUnderCap(p: Policy, attempt: u32, result: Reply, entropy: u64)
    requires attempt >= 1
    ensures RetryDelay(p, attempt, result, entropy) <= p.maxBackoff
    ensures result.Response? && result.retryAfter.Some? ==>
              var asked := result.retryAfter.value * 1_000_000_000;
              if asked <= p.maxBackoff then RetryDelay(p, attempt, result, entropy) == asked
              else RetryDelay(p, attempt, result, entropy) == p.maxBackoff
  {
    DelayBounds(p.baseBackoff, p.maxBackoff, attempt, p.jitter, entropy);
  }

  // ----- the attempts of the outermost layer -----------------------------------------------------

  /** Layer `l`, having got `last` from its attempt number `attempt`, makes another one. */
  predicate TriesAgain(l: Layer, w: World, req: Request, attempt: nat, last: Reply, c: Cursor)
    requires 1 <= attempt <= l.policy.maxAttempts
  {
    && attempt < l.policy.maxAttempts && ShouldRetry(l.policy, last, req.verb) && req.cloneable
    && SleepsThrough(l, w, |c.naps|, DelayAfter(l, w, attempt, last, c))
  }

  /** What the outermost layer is answered from its attempt number `attempt` on, which got `last`. */
  function RepliesFrom(w: World, stack: seq<Layer>, req: Request, attempt: nat, last: Reply, c: Cursor): seq<Reply>
    requires stack != [] && 1 <= attempt <= stack[|stack| - 1].policy.maxAttempts
    decreases stack[|stack| - 1].policy.maxAttempts - attempt
  {
    if !TriesAgain(stack[|stack| - 1], w, req, attempt, last, c) then [last]
    else
      var next := Send(w, stack[..|stack| - 1], req, Napped(stack[|stack| - 1], w, attempt, last, c));
      [last] + RepliesFrom(w, stack, req, attempt + 1, next.0, next.1)
  }

  /** The answers to all attempts of the outermost layer, in order. */
  function OuterReplies(w: World, stack: seq<Layer>, req: Request, c: Cursor): seq<Reply>
    requires stack != []
  {
    var first := Send(w, stack[..|stack| - 1], req, c);
    RepliesFrom(w, stack, req, 1, first.0, first.1)
  }

  /** Every reply but the last was one to retry, and the last is what the caller gets. */
  predicate RetriedUpTo(p: Policy, verb: Method, replies: seq<Reply>, answer: Reply) {
    && replies != [] && replies[|replies| - 1] == answer
    && forall i :: 0 <= i < |replies| - 1 ==> ShouldRetry(p, replies[i], verb)
  }

  lemma {:induction false} RepliesRetried(w: World, stack: seq<Layer>, req: Request,
                                          attempt: nat, last: Reply, c: Cursor)
    requires stack != [] && 1 <= attempt <= stack[|stack| - 1].policy.maxAttempts
    ensures var replies := RepliesFrom(w, stack, req, attempt, last, c);
            RetriedUpTo(stack[|stack| - 1].policy, req.verb, replies, Continue(w, stack, req, attempt, last, c).0)
    decreases stack[|stack| - 1].policy.maxAttempts - attempt
  {
    if !TriesAgain(stack[|stack| - 1], w, req, attempt, last, c) {
    } else {
      var next := Send(w, stack[..|stack| - 1], req, Napped(stack[|stack| - 1], w, attempt, last, c));
      RepliesRetried(w, stack, req, attempt + 1, next.0, next.1);
    }
  }

  lemma {:induction false} RepliesAtMost(w: World, stack: seq<Layer>, req: Request,
                                         attempt: nat, last: Reply, c: Cursor)
    requires stack != [] && 1 <= attempt <= Effective(stack[|stack| - 1], req)
    ensures attempt - 1 + |RepliesFrom(w, stack, req, attempt, last, c)| <= Effective(stack[|stack| - 1], req)
    decreases stack[|stack| - 1].policy.maxAttempts - attempt
  {
    if !TriesAgain(stack[|stack| - 1], w, req, attempt, last, c) {
    } else {
      var next := Send(w, stack[..|stack| - 1], req, Napped(stack[|stack| - 1], w, attempt, last, c));
      RepliesAtMost(w, stack, req, attempt + 1, next.0, next.1);
    }
  }

  lemma {:induction false} RepliesSend(w: World, stack: seq<Layer>, req: Request,
                                        attempt: nat, last: Reply, c: Cursor)
    requires stack != [] && 1 <= attempt <= Effective(stack[|stack| - 1], req)
    requires c.dispatched > 0 && last == w.answers(c.dispatched - 1)
    ensures var n := |RepliesFrom(w, stack, req, attempt, last, c)|;
            Sent(w, c, Continue(w, stack, req, attempt, last, c), n - 1, Product(stack[..|stack| - 1], req) * (n - 1))
    decreases stack[|stack| - 1].policy.maxAttempts - attempt
  {
    if !TriesAgain(stack[|stack| - 1], w, req, attempt, last, c) {
    } else {
      var n := |RepliesFrom(w, stack, req, attempt, last, c)|;
      var inner, after := stack[..|stack| - 1], Napped(stack[|stack| - 1], w, attempt, last, c);
      SendBounds(w, inner, req, after);
      var next := Send(w, inner, req, after);
      RepliesSend(w, stack, req, attempt + 1, next.0, next.1);
      OneFewer(Product(inner, req), n - 1, 0);
    }
  }

  lemma FirstThenRest(w: World, c: Cursor, first: (Reply, Cursor), result: (Reply, Cursor), f: nat, n: nat)
    requires n >= 1 && Sent(w, c, first, 1, f) && Sent(w, first.1, result, n - 1, f * (n - 1))
    ensures Sent(w, c, result, n, f * n)
  {
    OneFewer(f, n, 0);
  }

  /** The outermost layer makes at most as many attempts as it may, tries again only after replies
      that call for it, and hands out the last one. */
  lemma OuterLayer(w: World, stack: seq<Layer>, req: Request, c: Cursor)
    requires stack != []
    ensures var replies, l := OuterReplies(w, stack, req, c), stack[|stack| - 1];
            1 <= |replies| <= Effective(l, req) && RetriedUpTo(l.policy, req.verb, replies, Send(w, stack, req, c).0)
  {
    var first := Send(w, stack[..|stack| - 1], req, c);
    RepliesRetried(w, stack, req, 1, first.0, first.1);
    RepliesAtMost(w, stack, req, 1, first.0, first.1);
  }

  /** Each of its attempts sends between one request and as many as the layers inside can. */
  lemma OuterLayerSends(w: World, stack: seq<Layer>, req: Request, c: Cursor)
    requires stack != []
    ensures var n := |OuterReplies(w, stack, req, c)|;
            Sent(w, c, Send(w, stack, req, c), n, Product(stack[..|stack| - 1], req) * n)
  {
    var inner := stack[..|stack| - 1];
    SendBounds(w, inner, req, c);
    var first := Send(w, inner, req, c);
    RepliesSend(w, stack, req, 1, first.0, first.1);
    var n := |RepliesFrom(w, stack, req, 1, first.0, first.1)|;
    FirstThenRest(w, c, first, Continue(w, stack, req, 1, first.0, first.1), Product(inner, req), n);
  }

  lemma {:induction false} SleptGrows(w: World, stack: seq<Layer>, req: Request, c: Cursor)
    ensures c.naps <= Send(w, stack, req, c).1.naps
    decreases |stack|, 1, 0
  {
    if stack == [] {
    } else {
      SleptGrows(w, stack[..|stack| - 1], req, c);
      var first := Send(w, stack[..|stack| - 1], req, c);
      SleptGrowsOn(w, stack, req, 1, first.0, first.1);
    }
  }

  lemma {:induction false} SleptGrowsOn(w: World, stack: seq<Layer>, req: Request,
                                        attempt: nat, last: Reply, c: Cursor)
    requires stack != [] && 1 <= attempt <= stack[|stack| - 1].policy.maxAttempts
    ensures c.naps <= Continue(w, stack, req, attempt, last, c).1.naps
    decreases |stack|, 0, stack[|stack| - 1].policy.maxAttempts - attempt
  {
    if !TriesAgain(stack[|stack| - 1], w, req, attempt, last, c) {
    } else {
      var after := Napped(stack[|stack| - 1], w, attempt, last, c);
      SleptGrows(w, stack[..|stack| - 1], req, after);
      var next := Send(w, stack[..|stack| - 1], req, after);
      SleptGrowsOn(w, stack, req, attempt + 1, next.0, next.1);
    }
  }

  /** None of the backoffs from number `from` up to number `to` finds the layer's token fired. */
  predicate Undisturbed(l: Layer, w: World, from: nat, to: nat) {
    forall i :: from <= i < to ==> !(l.hasToken && w.fired(i))
  }

  lemma {:induction false} BudgetSpentFrom(w: World, stack: seq<Layer>, req: Request,
                                           attempt: nat, last: Reply, c: Cursor)
    requires stack != [] && 1 <= attempt <= stack[|stack| - 1].policy.maxAttempts && req.cloneable
    requires Undisturbed(stack[|stack| - 1], w, |c.naps|, |Continue(w, stack, req, attempt, last, c).1.naps|)
    requires ShouldRetry(stack[|stack| - 1].policy, Continue(w, stack, req, attempt, last, c).0, req.verb)
    ensures attempt - 1 + |RepliesFrom(w, stack, req, attempt, last, c)| == stack[|stack| - 1].policy.maxAttempts
    decreases stack[|stack| - 1].policy.maxAttempts - attempt
  {
    if attempt == stack[|stack| - 1].policy.maxAttempts {
    } else {
      var after := Napped(stack[|stack| - 1], w, attempt, last, c);
      SleptGrows(w, stack[..|stack| - 1], req, after);
      var next := Send(w, stack[..|stack| - 1], req, after);
      BudgetSpentFrom(w, stack, req, attempt + 1, next.0, next.1);
    }
  }

  /** When a send ends with an answer that the outermost layer would still retry, and no backoff found
      its token fired, that layer has made all the attempts it has. */
  lemma RetryableAnswerMeansBudgetSpent(w: World, stack: seq<Layer>, req: Request, c: Cursor)
    requires stack != [] && req.cloneable
    requires Undisturbed(stack[|stack| - 1], w, |c.naps|, |Send(w, stack, req, c).1.naps|)
    requires ShouldRetry(stack[|stack| - 1].policy, Send(w, stack, req, c).0, req.verb)
    ensures |OuterReplies(w, stack, req, c)| == stack[|stack| - 1].policy.maxAttempts
  {
    var first := Send(w, stack[..|stack| - 1], req, c);
    SleptGrows(w, stack[..|stack| - 1], req, c);
    BudgetSpentFrom(w, stack, req, 1, first.0, first.1);
  }
}
