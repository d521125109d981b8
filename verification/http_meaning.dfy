/** src/network/retry.rs: what one retrying client does around whatever it wraps, told attempt by attempt. */
module HttpMeaning {
  import opened Machine
  import opened Backoff
  import opened HttpRetry

  /** The method may be repeated and the answer is one to retry. */
  predicate CallsForRetry(p: Policy, verb: Method, reply: Reply) {
    && (p.retryNonIdempotent || verb in {GET, HEAD, PUT, DELETE, OPTIONS, TRACE})
    && ((reply.Response? && reply.status in p.retryStatuses) || (reply.NetworkError? && p.retryNetworkErrors))
  }

  /** `d` is the backoff after this attempt: what the server asks for under the cap, or the layer's own. */
  ghost predicate DelayIs(p: Policy, attempt: u32, reply: Reply, entropy: u64, d: nat)
    requires attempt >= 1
  {
    if reply.Response? && reply.retryAfter.Some? then d == Min(reply.retryAfter.value * 1_000_000_000, p.maxBackoff)
    else IsBackoff(p.baseBackoff, p.maxBackoff, attempt, p.jitter, entropy, d)
  }

  /** One attempt: where it starts, its answer, where it ends. */
  datatype Try = Try(before: Cursor, reply: Reply, after: Cursor)

  /** The attempt is one send through the layers inside. */
  predicate Sends(w: World, stack: seq<Layer>, req: Request, t: Try)
    requires stack != []
  {
    Send(w, stack[..|stack| - 1], req, t.before) == (t.reply, t.after)
  }

  /** There is another attempt after number `n`, if its backoff is not cut short. */
  predicate WantsMore(l: Layer, req: Request, n: nat, t: Try) {
    n < l.policy.maxAttempts && req.cloneable && CallsForRetry(l.policy, req.verb, t.reply)
  }

  /** The backoff `d` after attempt `n` leads to the cursor `next`. */
  ghost predicate Naps(l: Layer, w: World, n: u32, t: Try, d: Duration, next: Cursor)
    requires n >= 1
  {
    && DelayIs(l.policy, n, t.reply, w.entropy(|t.after.naps|), d)
    && next == Cursor(t.after.dispatched, t.after.naps + [d])
  }

  /** The backoff has a length, and an attached token is found fired. */
  predicate Cut(l: Layer, w: World, t: Try, d: Duration) {
    d != 0 && l.hasToken && w.fired(|t.after.naps|)
  }

  /** The layer goes on from attempt `n` to an attempt that starts at `next`. */
  ghost predicate GoesOn(l: Layer, w: World, req: Request, n: u32, t: Try, next: Cursor)
    requires n >= 1
  {
    WantsMore(l, req, n, t) && exists d: Duration :: Naps(l, w, n, t, d, next) && !Cut(l, w, t, d)
  }

  /** The layer stops after attempt `n`, at `end`: at once, or in the backoff. */
  ghost predicate Stops(l: Layer, w: World, req: Request, n: u32, t: Try, end: Cursor)
    requires n >= 1
  {
    if WantsMore(l, req, n, t) then exists d: Duration :: Naps(l, w, n, t, d, end) && Cut(l, w, t, d)
    else end == t.after
  }

  /** The attempts from number `n` on, which lead to the result. */
  ghost predicate TellsFrom(w: World, stack: seq<Layer>, req: Request, n: nat, tries: seq<Try>, result: (Reply, Cursor))
    requires stack != []
  {
    var l := stack[|stack| - 1];
    && n >= 1 && tries != [] && n - 1 + |tries| <= l.policy.maxAttempts
    && (forall i :: 0 <= i < |tries| ==> Sends(w, stack, req, tries[i]))
    && (forall i :: 0 <= i < |tries| - 1 ==> GoesOn(l, w, req, n + i, tries[i], tries[i + 1].before))
    && result.0 == tries[|tries| - 1].reply
    && Stops(l, w, req, n - 1 + |tries|, tries[|tries| - 1], result.1)
  }

  ghost predicate Tells(w: World, stack: seq<Layer>, req: Request, c: Cursor, tries: seq<Try>, result: (Reply, Cursor))
    requires stack != []
  {
    TellsFrom(w, stack, req, 1, tries, result) && tries[0].before == c
  }

  // ----- the description and the recursion --------------------------------------------------------

  lemma RetryDelayIff(p: Policy, attempt: u32, reply: Reply, entropy: u64, d: nat)
    requires attempt >= 1
    ensures DelayIs(p, attempt, reply, entropy, d) <==> d == RetryDelay(p, attempt, reply, entropy)
  {
    DelayIff(p.baseBackoff, p.maxBackoff, attempt, p.jitter, entropy, d);
  }

  lemma ShouldRetryIff(p: Policy, verb: Method, reply: Reply)
    ensures CallsForRetry(p, verb, reply) <==> ShouldRetry(p, reply, verb)
  {
  }

  lemma NapIff(l: Layer, w: World, n: u32, t: Try, d: Duration, next: Cursor)
    requires n >= 1
    ensures Naps(l, w, n, t, d, next)
            <==> d == DelayAfter(l, w, n, t.reply, t.after) && next == Napped(l, w, n, t.reply, t.after)
  {
    RetryDelayIff(l.policy, n, t.reply, w.entropy(|t.after.naps|), d);
  }

  lemma GoesOnIff(l: Layer, w: World, req: Request, n: u32, t: Try, next: Cursor)
    requires 1 <= n <= l.policy.maxAttempts
    ensures GoesOn(l, w, req, n, t, next)
            <==> TriesAgain(l, w, req, n, t.reply, t.after) && next == Napped(l, w, n, t.reply, t.after)
  {
    ShouldRetryIff(l.policy, req.verb, t.reply);
    var d := DelayAfter(l, w, n, t.reply, t.after);
    NapIff(l, w, n, t, d, next);
    if d: Duration :| Naps(l, w, n, t, d, next) && !Cut(l, w, t, d) {
      NapIff(l, w, n, t, d, next);
    }
  }

  lemma StopsIff(w: World, stack: seq<Layer>, req: Request, n: u32, t: Try, end: Cursor)
    requires stack != [] && 1 <= n <= stack[|stack| - 1].policy.maxAttempts
    ensures Stops(stack[|stack| - 1], w, req, n, t, end)
            <==> !TriesAgain(stack[|stack| - 1], w, req, n, t.reply, t.after)
                 && Continue(w, stack, req, n, t.reply, t.after) == (t.reply, end)
  {
    var l := stack[|stack| - 1];
    ShouldRetryIff(l.policy, req.verb, t.reply);
    var d := DelayAfter(l, w, n, t.reply, t.after);
    NapIff(l, w, n, t, d, end);
    if d: Duration :| Naps(l, w, n, t, d, end) && Cut(l, w, t, d) {
      NapIff(l, w, n, t, d, end);
    }
  }

  /** The attempts that `Continue` makes, told from number `n` on. */
  lemma {:induction false} ContinueTells(w: World, stack: seq<Layer>, req: Request, n: nat, t: Try)
    returns (tries: seq<Try>)
    requires stack != [] && 1 <= n <= stack[|stack| - 1].policy.maxAttempts && Sends(w, stack, req, t)
    ensures TellsFrom(w, stack, req, n, tries, Continue(w, stack, req, n, t.reply, t.after)) && tries[0] == t
    decreases stack[|stack| - 1].policy.maxAttempts - n
  {
    var l := stack[|stack| - 1];
    if !TriesAgain(l, w, req, n, t.reply, t.after) {
      tries := [t];
      StopsIff(w, stack, req, n, t, Continue(w, stack, req, n, t.reply, t.after).1);
    } else {
      var after := Napped(l, w, n, t.reply, t.after);
      var next := Send(w, stack[..|stack| - 1], req, after);
      var rest := ContinueTells(w, stack, req, n + 1, Try(after, next.0, next.1));
      GoesOnIff(l, w, req, n, t, after);
      tries := Prepended(w, stack, req, n, t, rest, Continue(w, stack, req, n + 1, next.0, next.1));
    }
  }

  lemma Prepended(w: World, stack: seq<Layer>, req: Request, n: nat, t: Try, rest: seq<Try>, result: (Reply, Cursor))
    returns (tries: seq<Try>)
    requires stack != [] && n >= 1 && TellsFrom(w, stack, req, n + 1, rest, result) && Sends(w, stack, req, t)
    requires GoesOn(stack[|stack| - 1], w, req, n, t, rest[0].before)
    ensures tries == [t] + rest && TellsFrom(w, stack, req, n, tries, result)
  {
    tries := [t] + rest;
    var l := stack[|stack| - 1];
    forall i | 0 <= i < |tries| - 1 ensures GoesOn(l, w, req, n + i, tries[i], tries[i + 1].before) {
      assert i > 0 ==> GoesOn(l, w, req, n + 1 + (i - 1), rest[i - 1], rest[i].before);
    }
  }

  /** Attempts that are told so are those of `Continue`. */
  lemma {:induction false} ToldContinues(w: World, stack: seq<Layer>, req: Request, n: nat,
                                         tries: seq<Try>, result: (Reply, Cursor))
    requires stack != [] && TellsFrom(w, stack, req, n, tries, result)
    ensures result == Continue(w, stack, req, n, tries[0].reply, tries[0].after)
    decreases |tries|
  {
    var l := stack[|stack| - 1];
    if |tries| == 1 {
      StopsIff(w, stack, req, n, tries[0], result.1);
    } else {
      assert GoesOn(l, w, req, n + 0, tries[0], tries[1].before);
      GoesOnIff(l, w, req, n, tries[0], tries[1].before);
      assert Sends(w, stack, req, tries[1]);
      ToldTail(w, stack, req, n, tries, result);
      ToldContinues(w, stack, req, n + 1, tries[1..], result);
    }
  }

  lemma ToldTail(w: World, stack: seq<Layer>, req: Request, n: nat, tries: seq<Try>, result: (Reply, Cursor))
    requires stack != [] && TellsFrom(w, stack, req, n, tries, result) && |tries| > 1
    ensures TellsFrom(w, stack, req, n + 1, tries[1..], result)
  {
    var l, rest := stack[|stack| - 1], tries[1..];
    forall i | 0 <= i < |rest| - 1 ensures GoesOn(l, w, req, n + 1 + i, rest[i], rest[i + 1].before) {
      assert GoesOn(l, w, req, n + (i + 1), tries[i + 1], tries[i + 2].before);
    }
  }

  /** Around any layers, the outermost one does exactly what is told attempt by attempt: which answers it
      retries, how long it waits each time, when the token ends it, and what it hands out. No other result
      fits. */
  lemma SendMeaning(w: World, stack: seq<Layer>, req: Request, c: Cursor, result: (Reply, Cursor))
    requires stack != []
    ensures (exists tries :: Tells(w, stack, req, c, tries, result)) <==> result == Send(w, stack, req, c)
  {
    var first := Send(w, stack[..|stack| - 1], req, c);
    var told := ContinueTells(w, stack, req, 1, Try(c, first.0, first.1));
    assert Tells(w, stack, req, c, told, Send(w, stack, req, c));
    if tries :| Tells(w, stack, req, c, tries, result) {
      assert Sends(w, stack, req, tries[0]);
      ToldContinues(w, stack, req, 1, tries, result);
    }
  }
}
