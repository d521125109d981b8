/** src/network/validation.rs: the one-pass structure scan and the size gate in front of it. */
module Validation {
  import opened Machine

  const QUOTE: byte := 34
  const BACKSLASH: byte := 92
  const OPEN_BRACKET: byte := 91
  const CLOSE_BRACKET: byte := 93
  const OPEN_BRACE: byte := 123
  const CLOSE_BRACE: byte := 125
  const SPACE: byte := 32

  predicate Opener(b: byte) { b == OPEN_BRACE || b == OPEN_BRACKET }
  predicate Closer(b: byte) { b == CLOSE_BRACE || b == CLOSE_BRACKET }

  /** Positions are 1-based. */
  datatype StructureError =
    | DepthExceeded(position: nat, depth: nat, max: nat)
    | UnmatchedClosing(position: nat)
    | UnterminatedString
    | UnmatchedOpening(count: nat)

  datatype Check = Ok | Err(error: StructureError)

  // ----- the automaton -----------------------------------------------------------------

  datatype Scan =
    | Running(depth: nat, inString: bool, escaped: bool, read: nat)
    | Rejected(error: StructureError)

  const START := Running(0, false, false, 0)

  function Step(s: Scan, b: byte, max: nat): Scan {
    match s
    case Rejected(_) => s
    case Running(depth, inString, escaped, read) =>
      if inString then
        if escaped then Running(depth, true, false, read + 1)
        else Running(depth, b != QUOTE, b == BACKSLASH, read + 1)
      else if b == QUOTE then Running(depth, true, escaped, read + 1)
      else if Opener(b) then
        if depth + 1 > max then Rejected(DepthExceeded(read + 1, depth + 1, max))
        else Running(depth + 1, false, escaped, read + 1)
      else if Closer(b) then
        if depth == 0 then Rejected(UnmatchedClosing(read + 1))
        else Running(depth - 1, false, escaped, read + 1)
      else Running(depth, false, escaped, read + 1)
  }

  function Feed(s: Scan, text: seq<byte>, max: nat): Scan
    decreases text
  {
    if text == [] then s else Feed(Step(s, text[0], max), text[1..], max)
  }

  function Conclude(s: Scan): Check {
    match s
    case Rejected(e) => Err(e)
    case Running(depth, inString, _, _) =>
      if inString then Err(UnterminatedString)
      else if depth != 0 then Err(UnmatchedOpening(depth))
      else Ok
  }

  function ScanAll(data: seq<byte>, max: nat): Check {
    Conclude(Feed(START, data, max))
  }

  /** Scanning is compositional: the state is all that a prefix leaves behind. */
  lemma {:induction false} FeedConcat(s: Scan, a: seq<byte>, b: seq<byte>, max: nat)
    ensures Feed(s, a + b, max) == Feed(Feed(s, a, max), b, max)
    decreases a
  {
    if a == [] {
      assert a + b == b;
    } else {
      assert (a + b)[1..] == a[1..] + b;
      FeedConcat(Step(s, a[0], max), a[1..], b, max);
    }
  }

  lemma {:induction false} RejectedStays(s: Scan, text: seq<byte>, max: nat)
    requires s.Rejected?
    ensures Feed(s, text, max) == s
    decreases text
  {
    if text == [] {
    } else {
      RejectedStays(s, text[1..], max);
    }
  }

  lemma FeedHead(s: Scan, data: seq<byte>, i: nat, max: nat)
    requires i < |data|
    ensures Feed(s, data[i..], max) == Feed(Step(s, data[i], max), data[i + 1..], max)
  {
    assert data[i..][1..] == data[i + 1..];
  }

  lemma FeedOne(s: Scan, b: byte, max: nat)
    ensures Feed(s, [b], max) == Step(s, b, max)
  {
    assert [b][1..] == [];
  }

  // ----- the two-stage reference ---------------------------------------------------------
  // First blank out the string literals, then look at the depths of the prefixes.

  /** Length of the run of backslashes that ends just before `j`, not looking below `lo`. */
  function BackslashRun(data: seq<byte>, lo: nat, j: nat): nat
    requires lo <= j <= |data|
  {
    if j > lo && data[j - 1] == BACKSLASH then 1 + BackslashRun(data, lo, j - 1) else 0
  }

  /** The quote at `j` ends the literal that the quote at `open` began. */
  predicate ClosesString(data: seq<byte>, open: nat, j: nat)
    requires open < j < |data|
  {
    data[j] == QUOTE && BackslashRun(data, open + 1, j) % 2 == 0
  }

  /** The first position from `j` on that closes the literal begun at `open`; |data| if none does. */
  function ClosingQuote(data: seq<byte>, open: nat, j: nat): (c: nat)
    requires open < j <= |data|
    ensures j <= c <= |data|
    decreases |data| - j
  {
    if j == |data| || ClosesString(data, open, j) then j else ClosingQuote(data, open, j + 1)
  }

  function Blanks(n: nat): (s: seq<byte>)
    ensures |s| == n && forall i :: 0 <= i < n ==> s[i] == SPACE
  {
    seq(n, _ => SPACE)
  }

  /** The text from `i` on with every string literal, quotes included, overwritten by blanks. */
  function Masked(data: seq<byte>, i: nat): (m: seq<byte>)
    requires i <= |data|
    ensures |m| == |data| - i
    decreases |data| - i
  {
    if i == |data| then []
    else if data[i] != QUOTE then [data[i]] + Masked(data, i + 1)
    else
      var c := ClosingQuote(data, i, i + 1);
      if c == |data| then Blanks(|data| - i) else Blanks(c + 1 - i) + Masked(data, c + 1)
  }

  /** A literal that begins at `i` or later is still open when the text ends. */
  predicate EndsInString(data: seq<byte>, i: nat)
    requires i <= |data|
    decreases |data| - i
  {
    if i == |data| then false
    else if data[i] != QUOTE then EndsInString(data, i + 1)
    else
      var c := ClosingQuote(data, i, i + 1);
      c == |data| || EndsInString(data, c + 1)
  }

  /** Openers minus closers among the first `k` bytes. */
  function DepthAt(m: seq<byte>, k: nat): int
    requires k <= |m|
  {
    if k == 0 then 0
    else DepthAt(m, k - 1) + if Opener(m[k - 1]) then 1 else if Closer(m[k - 1]) then -1 else 0
  }

  predicate Violates(m: seq<byte>, max: nat, k: nat)
    requires k <= |m|
  {
    !(0 <= DepthAt(m, k) <= max)
  }

  predicate NoViolation(m: seq<byte>, max: nat, upTo: nat)
    requires upTo <= |m|
  {
    forall k :: 0 <= k <= upTo ==> !Violates(m, max, k)
  }

  predicate FirstViolation(m: seq<byte>, max: nat, p: nat) {
    1 <= p <= |m| && Violates(m, max, p) && NoViolation(m, max, p - 1)
  }

  /** What each verdict means for the text. */
  predicate Describes(data: seq<byte>, max: nat, verdict: Check) {
    var m := Masked(data, 0);
    match verdict
    case Ok => NoViolation(m, max, |m|) && !EndsInString(data, 0) && DepthAt(m, |m|) == 0
    case Err(DepthExceeded(p, depth, limit)) =>
      FirstViolation(m, max, p) && DepthAt(m, p) == depth == max + 1 && limit == max
    case Err(UnmatchedClosing(p)) => FirstViolation(m, max, p) && DepthAt(m, p) == -1
    case Err(UnterminatedString) => NoViolation(m, max, |m|) && EndsInString(data, 0)
    case Err(UnmatchedOpening(count)) =>
      NoViolation(m, max, |m|) && !EndsInString(data, 0) && DepthAt(m, |m|) == count > 0
  }

  // ----- the reference in plain terms ----------------------------------------------------------

  /** How often `b` occurs. */
  function Occurs(m: seq<byte>, b: byte): nat {
    multiset(m)[b]
  }

  /** A depth is the number of `{` and `[` less the number of `}` and `]`; no other byte counts. */
  lemma {:induction false} DepthIsBalance(m: seq<byte>, k: nat)
    requires k <= |m|
    ensures DepthAt(m, k) == Occurs(m[..k], 0x7B) + Occurs(m[..k], 0x5B) - Occurs(m[..k], 0x7D) - Occurs(m[..k], 0x5D)
  {
    if k == 0 {
    } else {
      DepthIsBalance(m, k - 1);
      assert m[..k] == m[..k - 1] + [m[k - 1]];
    }
  }

  /** `n` backslashes, and no more, stand right before `j` behind `lo`. */
  predicate BackslashesBefore(data: seq<byte>, lo: nat, j: nat, n: nat)
    requires lo <= j <= |data|
  {
    && n <= j - lo && (forall i :: j - n <= i < j ==> data[i] == 0x5C)
    && (n < j - lo ==> data[j - n - 1] != 0x5C)
  }

  lemma {:induction false} RunIsMaximal(data: seq<byte>, lo: nat, j: nat)
    requires lo <= j <= |data|
    ensures BackslashesBefore(data, lo, j, BackslashRun(data, lo, j))
  {
    if j == lo || data[j - 1] != BACKSLASH {
    } else {
      RunIsMaximal(data, lo, j - 1);
    }
  }

  lemma RunUnique(data: seq<byte>, lo: nat, j: nat, n: nat)
    requires lo <= j <= |data| && BackslashesBefore(data, lo, j, n)
    ensures n == BackslashRun(data, lo, j)
  {
    RunIsMaximal(data, lo, j);
  }

  /** A quote behind an even number of backslashes. */
  ghost predicate BareQuote(data: seq<byte>, lo: nat, j: nat)
    requires lo <= j < |data|
  {
    data[j] == 0x22 && exists n :: BackslashesBefore(data, lo, j, n) && n % 2 == 0
  }

  lemma BareQuoteIff(data: seq<byte>, open: nat, j: nat)
    requires open < j < |data|
    ensures BareQuote(data, open + 1, j) <==> ClosesString(data, open, j)
  {
    RunIsMaximal(data, open + 1, j);
    if n :| BackslashesBefore(data, open + 1, j, n) && n % 2 == 0 {
      RunUnique(data, open + 1, j, n);
    }
  }

  /** The literal that the quote at `open` begins ends at the first bare quote, whatever other bytes,
      brackets and control characters included, come before. */
  lemma {:induction false} LiteralEndsIff(data: seq<byte>, open: nat, lo: nat, j: nat, c: nat)
    requires lo == open + 1 && lo <= j <= c <= |data|
    ensures ClosingQuote(data, open, j) == c
            <==> (forall i :: j <= i < c ==> !BareQuote(data, lo, i)) && (c < |data| ==> BareQuote(data, lo, c))
    decreases |data| - j
  {
    if j == |data| {
    } else {
      BareQuoteIff(data, open, j);
      if j < c && !ClosesString(data, open, j) {
        LiteralEndsIff(data, open, lo, j + 1, c);
      }
    }
  }

  lemma ConsConcat(b: byte, s: seq<byte>, t: seq<byte>)
    ensures [b] + (s + t) == ([b] + s) + t
  {
  }

  /** Up to the next quote nothing is masked. */
  lemma {:induction false} MaskedSkips(data: seq<byte>, i: nat, q: nat)
    requires i <= q <= |data| && forall j :: i <= j < q ==> data[j] != 0x22
    ensures Masked(data, i) == data[i..q] + Masked(data, q)
    decreases q - i
  {
    if i == q {
      assert data[i..q] == [];
    } else {
      MaskedSkips(data, i + 1, q);
      assert data[i..q] == [data[i]] + data[i + 1..q];
      ConsConcat(data[i], data[i + 1..q], Masked(data, q));
    }
  }

  lemma {:induction false} EndSkips(data: seq<byte>, i: nat, q: nat)
    requires i <= q <= |data| && forall j :: i <= j < q ==> data[j] != 0x22
    ensures EndsInString(data, i) == EndsInString(data, q)
    decreases q - i
  {
    if i == q {
    } else {
      EndSkips(data, i + 1, q);
    }
  }

  /** Masking begins at the first quote and ends with its literal, or with the text. */
  lemma MaskedFromQuote(data: seq<byte>, i: nat, q: nat)
    requires i <= q < |data| && data[q] == 0x22 && forall j :: i <= j < q ==> data[j] != 0x22
    ensures var c := ClosingQuote(data, q, q + 1);
            if c == |data| then Masked(data, i) == data[i..q] + Blanks(|data| - q) && EndsInString(data, i)
            else Masked(data, i) == data[i..q] + (Blanks(c + 1 - q) + Masked(data, c + 1))
                 && EndsInString(data, i) == EndsInString(data, c + 1)
  {
    MaskedSkips(data, i, q);
    EndSkips(data, i, q);
  }

  // ----- the scan refines the reference -----------------------------------------------------

  /** From inside a literal the automaton comes out just behind the closing quote, or ends the
      text still inside. Its flag is the parity of the backslash run. */
  lemma {:induction false} ScanLiteral(data: seq<byte>, open: nat, j: nat, depth: nat, escaped: bool, max: nat)
    requires open < j <= |data|
    requires escaped == (BackslashRun(data, open + 1, j) % 2 == 1)
    ensures var c := ClosingQuote(data, open, j);
            if c == |data| then
              exists e :: Feed(Running(depth, true, escaped, j), data[j..], max) == Running(depth, true, e, |data|)
            else
              Feed(Running(depth, true, escaped, j), data[j..], max)
              == Feed(Running(depth, false, false, c + 1), data[c + 1..], max)
    decreases |data| - j
  {
    if j == |data| {
    } else {
      FeedHead(Running(depth, true, escaped, j), data, j, max);
      if !ClosesString(data, open, j) {
        ScanLiteral(data, open, j + 1, depth, !escaped && data[j] == BACKSLASH, max);
      }
    }
  }

  lemma {:induction false} BlanksKeepDepth(m: seq<byte>, i: nat, k: nat)
    requires i <= k <= |m| && forall x :: i <= x < k ==> m[x] == SPACE
    ensures DepthAt(m, k) == DepthAt(m, i)
  {
    if i == k {
    } else {
      BlanksKeepDepth(m, i, k - 1);
    }
  }

  /** Masking and depth have been followed up to `i`, outside every literal and without violation. */
  predicate InStep(data: seq<byte>, max: nat, i: nat, depth: nat) {
    && i <= |data|
    && Masked(data, 0)[i..] == Masked(data, i)
    && EndsInString(data, 0) == EndsInString(data, i)
    && NoViolation(Masked(data, 0), max, i)
    && DepthAt(Masked(data, 0), i) == depth
  }

  lemma SkipLiteral(data: seq<byte>, max: nat, i: nat, depth: nat)
    requires InStep(data, max, i, depth) && i < |data| && data[i] == QUOTE
    ensures var c, m := ClosingQuote(data, i, i + 1), Masked(data, 0);
            if c < |data| then InStep(data, max, c + 1, depth)
            else EndsInString(data, 0) && NoViolation(m, max, |m|)
  {
    var m, c := Masked(data, 0), ClosingQuote(data, i, i + 1);
    var next := if c == |data| then c else c + 1;
    forall x | i <= x < next ensures m[x] == SPACE {
      assert m[x] == m[i..][x - i];
    }
    assert !Violates(m, max, i);
    forall k | 0 <= k <= next ensures !Violates(m, max, k) && (k == next ==> DepthAt(m, k) == depth) {
      if k >= i {
        BlanksKeepDepth(m, i, k);
      }
    }
    if c < |data| {
      assert m[c + 1..] == m[i..][c + 1 - i..];
    }
  }

  lemma SkipByte(data: seq<byte>, max: nat, i: nat, depth: nat)
    requires InStep(data, max, i, depth) && i < |data| && data[i] != QUOTE
    ensures var next := Step(Running(depth, false, false, i), data[i], max);
            if next.Running? then InStep(data, max, i + 1, next.depth)
            else Describes(data, max, Conclude(next))
  {
    var m := Masked(data, 0);
    assert m[i] == m[i..][0] == data[i];
    assert m[i + 1..] == m[i..][1..];
    assert !Violates(m, max, i);
    assert DepthAt(m, i + 1) == depth + if Opener(data[i]) then 1 else if Closer(data[i]) then -1 else 0;
  }

  lemma OpenEndDescribes(data: seq<byte>, max: nat, end: Scan)
    requires EndsInString(data, 0) && NoViolation(Masked(data, 0), max, |data|)
    requires end.Running? && end.inString
    ensures Describes(data, max, Conclude(end))
  {
  }

  lemma EndDescribes(data: seq<byte>, max: nat, depth: nat)
    requires InStep(data, max, |data|, depth)
    ensures Describes(data, max, Conclude(Running(depth, false, false, |data|)))
  {
  }

  /** The scan of the rest of the text, from `i` on, outside literals. */
  function ScanRest(data: seq<byte>, max: nat, i: nat, depth: nat): Scan
    requires i <= |data|
  {
    Feed(Running(depth, false, false, i), data[i..], max)
  }

  /** One literal on: at the text behind it, or at the end of the text inside it. */
  lemma RestAfterLiteral(data: seq<byte>, max: nat, i: nat, depth: nat)
    requires i < |data| && data[i] == QUOTE
    ensures var c, end := ClosingQuote(data, i, i + 1), ScanRest(data, max, i, depth);
            if c < |data| then end == ScanRest(data, max, c + 1, depth) else end.Running? && end.inString
  {
    FeedHead(Running(depth, false, false, i), data, i, max);
    ScanLiteral(data, i, i + 1, depth, false, max);
  }

  /** One byte on, or rejected by it. */
  lemma RestAfterByte(data: seq<byte>, max: nat, i: nat, depth: nat)
    requires i < |data| && data[i] != QUOTE
    ensures var next, end := Step(Running(depth, false, false, i), data[i], max), ScanRest(data, max, i, depth);
            if next.Running? then end == ScanRest(data, max, i + 1, next.depth) else end == next
  {
    var next := Step(Running(depth, false, false, i), data[i], max);
    FeedHead(Running(depth, false, false, i), data, i, max);
    if next.Rejected? {
      RejectedStays(next, data[i + 1..], max);
    }
  }

  /** The scan ends at `i`: the text does, or a literal that is never closed begins, or a byte is rejected. */
  predicate Halts(data: seq<byte>, max: nat, i: nat, depth: nat)
    requires i <= |data|
  {
    if i == |data| then true
    else if data[i] == QUOTE then ClosingQuote(data, i, i + 1) == |data|
    else Step(Running(depth, false, false, i), data[i], max).Rejected?
  }

  lemma HaltDescribes(data: seq<byte>, max: nat, i: nat, depth: nat)
    requires InStep(data, max, i, depth) && Halts(data, max, i, depth)
    ensures Describes(data, max, Conclude(ScanRest(data, max, i, depth)))
  {
    if i == |data| {
      EndDescribes(data, max, depth);
    } else if data[i] == QUOTE {
      SkipLiteral(data, max, i, depth);
      RestAfterLiteral(data, max, i, depth);
      OpenEndDescribes(data, max, ScanRest(data, max, i, depth));
    } else {
      SkipByte(data, max, i, depth);
      RestAfterByte(data, max, i, depth);
    }
  }

  lemma PastLiteral(data: seq<byte>, max: nat, i: nat, depth: nat) returns (next: nat)
    requires InStep(data, max, i, depth) && i < |data| && data[i] == QUOTE && !Halts(data, max, i, depth)
    ensures i < next && InStep(data, max, next, depth)
    ensures ScanRest(data, max, next, depth) == ScanRest(data, max, i, depth)
  {
    next := ClosingQuote(data, i, i + 1) + 1;
    SkipLiteral(data, max, i, depth);
    RestAfterLiteral(data, max, i, depth);
  }

  lemma PastByte(data: seq<byte>, max: nat, i: nat, depth: nat) returns (d: nat)
    requires InStep(data, max, i, depth) && i < |data| && data[i] != QUOTE && !Halts(data, max, i, depth)
    ensures InStep(data, max, i + 1, d) && ScanRest(data, max, i + 1, d) == ScanRest(data, max, i, depth)
  {
    d := Step(Running(depth, false, false, i), data[i], max).depth;
    SkipByte(data, max, i, depth);
    RestAfterByte(data, max, i, depth);
  }

  /** Outside literals the automaton's depth is the prefix depth of the masked text, up to the place
      where the scan ends. */
  lemma {:induction false} ScanFrom(data: seq<byte>, max: nat, i: nat, depth: nat) returns (end: nat, last: nat)
    requires InStep(data, max, i, depth)
    ensures InStep(data, max, end, last) && Halts(data, max, end, last)
    ensures ScanRest(data, max, end, last) == ScanRest(data, max, i, depth)
    decreases |data| - i
  {
    if Halts(data, max, i, depth) {
      end, last := i, depth;
    } else if data[i] == QUOTE {
      var next := PastLiteral(data, max, i, depth);
      end, last := ScanFrom(data, max, next, depth);
    } else {
      var d := PastByte(data, max, i, depth);
      end, last := ScanFrom(data, max, i + 1, d);
    }
  }

  /** On arbitrary bytes the scan returns a verdict that describes the text. */
  lemma ScanRefinesReference(data: seq<byte>, max: nat)
    ensures Describes(data, max, ScanAll(data, max))
  {
    assert Masked(data, 0)[0..] == Masked(data, 0);
    assert data[0..] == data;
    var end, last := ScanFrom(data, max, 0, 0);
    HaltDescribes(data, max, end, last);
  }

  /** At most one verdict describes a text, so the description pins the scan down completely. */
  lemma VerdictUnique(data: seq<byte>, max: nat, a: Check, b: Check)
    requires Describes(data, max, a) && Describes(data, max, b)
    ensures a == b
  {
  }

  /** The scan stops at the first violation: whatever follows a rejected prefix, the error stays. */
  lemma RejectionIsFinal(a: seq<byte>, b: seq<byte>, max: nat)
    requires Feed(START, a, max).Rejected?
    ensures ScanAll(a + b, max) == ScanAll(a, max)
  {
    FeedConcat(START, a, b, max);
    RejectedStays(Feed(START, a, max), b, max);
  }

  predicate NoDeeper(m: seq<byte>, limit: nat) {
    forall k :: 0 <= k <= |m| ==> DepthAt(m, k) <= limit
  }

  lemma OnlyDepthMatters(m: seq<byte>, some: nat, other: nat)
    requires NoViolation(m, some, |m|)
    ensures NoViolation(m, other, |m|) <==> NoDeeper(m, other)
  {
    forall k | 0 <= k <= |m| ensures Violates(m, other, k) <==> DepthAt(m, k) > other {
      assert !Violates(m, some, k);
    }
  }

  lemma AcceptedIffDescribed(data: seq<byte>, max: nat)
    ensures ScanAll(data, max) == Ok <==> Describes(data, max, Ok)
  {
    ScanRefinesReference(data, max);
    if Describes(data, max, Ok) {
      VerdictUnique(data, max, ScanAll(data, max), Ok);
    }
  }

  /** A text accepted under some limit is accepted under another exactly when that one is at least
      as deep as every prefix. */
  lemma AcceptedUnderIff(data: seq<byte>, some: nat, other: nat)
    requires ScanAll(data, some) == Ok
    ensures ScanAll(data, other) == Ok <==> NoDeeper(Masked(data, 0), other)
  {
    AcceptedIffDescribed(data, some);
    AcceptedIffDescribed(data, other);
    OnlyDepthMatters(Masked(data, 0), some, other);
  }

  /** The bracket at `j` closes the one at `i`: there the depth first comes back to where it was. */
  predicate ClosedBy(m: seq<byte>, i: nat, j: nat) {
    && i < j < |m| && Opener(m[i]) && Closer(m[j])
    && DepthAt(m, j + 1) == DepthAt(m, i)
    && forall k :: i < k <= j ==> DepthAt(m, k) > DepthAt(m, i)
  }

  lemma {:induction false} ReturnsTo(m: seq<byte>, i: nat, k: nat) returns (j: nat)
    requires i < k <= |m| && DepthAt(m, |m|) <= DepthAt(m, i)
    requires forall x :: i < x <= k ==> DepthAt(m, x) > DepthAt(m, i)
    ensures k <= j < |m| && DepthAt(m, j + 1) == DepthAt(m, i)
    ensures forall x :: i < x <= j ==> DepthAt(m, x) > DepthAt(m, i)
    decreases |m| - k
  {
    assert k < |m|;
    if DepthAt(m, k + 1) <= DepthAt(m, i) {
      j := k;
    } else {
      j := ReturnsTo(m, i, k + 1);
    }
  }

  lemma OpenerMatches(m: seq<byte>, i: nat)
    requires i < |m| && Opener(m[i]) && DepthAt(m, |m|) <= DepthAt(m, i)
    ensures exists j :: ClosedBy(m, i, j)
  {
    assert DepthAt(m, i + 1) == DepthAt(m, i) + 1;
    var j := ReturnsTo(m, i, i + 1);
    assert DepthAt(m, j) > DepthAt(m, i);
    assert ClosedBy(m, i, j);
  }

  /** In an accepted text every opening bracket has its match. */
  lemma AcceptedOpenersMatch(data: seq<byte>, max: nat, i: nat)
    requires Describes(data, max, Ok) && i < |data| && Opener(Masked(data, 0)[i])
    ensures exists j :: ClosedBy(Masked(data, 0), i, j)
  {
    var m := Masked(data, 0);
    assert !Violates(m, max, i);
    OpenerMatches(m, i);
  }

  // ----- kinds of brackets ------------------------------------------------------------------------

  predicate SameUpToKind(a: seq<byte>, b: seq<byte>) {
    |a| == |b| && forall i :: 0 <= i < |a| ==>
      a[i] == b[i] || (Opener(a[i]) && Opener(b[i])) || (Closer(a[i]) && Closer(b[i]))
  }

  /** The scan does not tell one opener from the other, nor one closer from the other: texts that differ
      in these only are scanned alike, from every state and under every limit. */
  lemma {:induction false} KindsAreNotCompared(s: Scan, a: seq<byte>, b: seq<byte>, max: nat)
    requires SameUpToKind(a, b)
    ensures Feed(s, a, max) == Feed(s, b, max)
    decreases a
  {
    if a == [] {
    } else {
      KindsAreNotCompared(Step(s, a[0], max), a[1..], b[1..], max);
    }
  }

  /** So `[}` is accepted like `[]`. */
  lemma MixedPairAccepted()
    ensures ScanAll([OPEN_BRACKET, CLOSE_BRACE], 1) == ScanAll([OPEN_BRACKET, CLOSE_BRACKET], 1) == Ok
  {
    KindsAreNotCompared(START, [OPEN_BRACKET, CLOSE_BRACE], [OPEN_BRACKET, CLOSE_BRACKET], 1);
    FeedConcat(START, [OPEN_BRACKET], [CLOSE_BRACE], 1);
    assert [OPEN_BRACKET, CLOSE_BRACE] == [OPEN_BRACKET] + [CLOSE_BRACE];
    FeedOne(START, OPEN_BRACKET, 1);
    FeedOne(Running(1, false, false, 1), CLOSE_BRACE, 1);
  }

  predicate SameKind(opener: byte, closer: byte) {
    (opener == OPEN_BRACE && closer == CLOSE_BRACE) || (opener == OPEN_BRACKET && closer == CLOSE_BRACKET)
  }

  /** A matcher that does compare kinds: the positions of the brackets open after the first `k` bytes,
      outermost first; None once a closer had no opener, or one of the other kind. */
  function OpenBrackets(m: seq<byte>, k: nat): (r: Option<seq<nat>>)
    requires k <= |m|
    ensures r.Some? ==> forall d :: 0 <= d < |r.value| ==> r.value[d] < k
  {
    if k == 0 then Some([])
    else
      match OpenBrackets(m, k - 1)
      case None => None
      case Some(open) =>
        if Opener(m[k - 1]) then Some(open + [k - 1])
        else if !Closer(m[k - 1]) then Some(open)
        else if open != [] && SameKind(m[open[|open| - 1]], m[k - 1])
        then Some(open[..|open| - 1])
        else None
  }

  /** Position `p` holds the bracket that is open at depth `d` after the first `k` bytes. */
  predicate OpenAtDepth(m: seq<byte>, k: nat, p: nat, d: nat)
    requires k <= |m|
  {
    p < k && Opener(m[p]) && DepthAt(m, p) == d && forall x :: p < x <= k ==> DepthAt(m, x) > d
  }

  predicate StackAt(m: seq<byte>, k: nat, open: seq<nat>)
    requires k <= |m|
  {
    |open| == DepthAt(m, k) && forall d :: 0 <= d < |open| ==> OpenAtDepth(m, k, open[d], d)
  }

  predicate NeverNegative(m: seq<byte>, upTo: nat)
    requires upTo <= |m|
  {
    forall k :: 0 <= k <= upTo ==> DepthAt(m, k) >= 0
  }

  /** Brackets that match, the closing one among the first `upTo` bytes, are of the same kind. */
  ghost predicate KindsAgree(m: seq<byte>, upTo: nat) {
    forall i: nat, j: nat :: j < upTo && ClosedBy(m, i, j) ==> SameKind(m[i], m[j])
  }

  lemma ClosedByOne(m: seq<byte>, i: nat, i': nat, j: nat)
    requires ClosedBy(m, i, j) && ClosedBy(m, i', j)
    ensures i == i'
  {
  }

  /** A closer closes the innermost open bracket. */
  lemma TopCloses(m: seq<byte>, k: nat, open: seq<nat>)
    requires k < |m| && StackAt(m, k, open) && open != [] && Closer(m[k])
    ensures ClosedBy(m, open[|open| - 1], k)
  {
    assert OpenAtDepth(m, k, open[|open| - 1], |open| - 1);
  }

  lemma StackPushed(m: seq<byte>, k: nat, open: seq<nat>)
    requires k < |m| && StackAt(m, k, open) && Opener(m[k])
    ensures StackAt(m, k + 1, open + [k])
  {
  }

  lemma StackKept(m: seq<byte>, k: nat, open: seq<nat>)
    requires k < |m| && StackAt(m, k, open) && !Opener(m[k]) && !Closer(m[k])
    ensures StackAt(m, k + 1, open)
  {
  }

  lemma StackPopped(m: seq<byte>, k: nat, open: seq<nat>)
    requires k < |m| && StackAt(m, k, open) && open != [] && Closer(m[k])
    ensures StackAt(m, k + 1, open[..|open| - 1])
  {
  }

  ghost predicate MatchedSoFar(m: seq<byte>, k: nat, open: seq<nat>)
    requires k <= |m|
  {
    StackAt(m, k, open) && NeverNegative(m, k) && KindsAgree(m, k)
  }

  lemma AgreeingPop(m: seq<byte>, k: nat, open: seq<nat>)
    requires k < |m| && MatchedSoFar(m, k, open) && open != []
    requires Closer(m[k]) && SameKind(m[open[|open| - 1]], m[k])
    ensures MatchedSoFar(m, k + 1, open[..|open| - 1])
  {
    StackPopped(m, k, open);
    TopCloses(m, k, open);
    forall i: nat, j: nat | j < k + 1 && ClosedBy(m, i, j) ensures SameKind(m[i], m[j]) {
      if j == k {
        ClosedByOne(m, i, open[|open| - 1], j);
      }
    }
  }

  lemma OtherByte(m: seq<byte>, k: nat, open: seq<nat>)
    requires k < |m| && MatchedSoFar(m, k, open) && !Closer(m[k])
    ensures MatchedSoFar(m, k + 1, if Opener(m[k]) then open + [k] else open)
  {
    if Opener(m[k]) {
      StackPushed(m, k, open);
    } else {
      StackKept(m, k, open);
    }
  }

  lemma MatchedStep(m: seq<byte>, k: nat, before: seq<nat>, open: seq<nat>)
    requires k < |m| && OpenBrackets(m, k) == Some(before) && OpenBrackets(m, k + 1) == Some(open)
    requires MatchedSoFar(m, k, before)
    ensures MatchedSoFar(m, k + 1, open)
  {
    if Closer(m[k]) {
      AgreeingPop(m, k, before);
    } else {
      OtherByte(m, k, before);
    }
  }

  /** While the matcher gets on its stack is right, and all is well so far. */
  lemma {:induction false} MatcherSound(m: seq<byte>, k: nat, open: seq<nat>)
    requires k <= |m| && OpenBrackets(m, k) == Some(open)
    ensures MatchedSoFar(m, k, open)
  {
    if k == 0 {
    } else {
      var before := OpenBrackets(m, k - 1).value;
      MatcherSound(m, k - 1, before);
      MatchedStep(m, k - 1, before, open);
    }
  }

  /** It gets on as long as all is well. */
  lemma {:induction false} MatcherGetsOn(m: seq<byte>, k: nat)
    requires k <= |m| && NeverNegative(m, k) && KindsAgree(m, k)
    ensures OpenBrackets(m, k).Some?
  {
    if k == 0 {
    } else {
      MatcherGetsOn(m, k - 1);
      var before := OpenBrackets(m, k - 1).value;
      MatcherSound(m, k - 1, before);
      if Closer(m[k - 1]) {
        assert DepthAt(m, k) == |before| - 1;
        TopCloses(m, k - 1, before);
      }
    }
  }

  lemma MatcherMeaning(m: seq<byte>, k: nat)
    requires k <= |m|
    ensures OpenBrackets(m, k).Some? <==> NeverNegative(m, k) && KindsAgree(m, k)
    ensures OpenBrackets(m, k).Some? ==> StackAt(m, k, OpenBrackets(m, k).value)
  {
    if OpenBrackets(m, k).Some? {
      MatcherSound(m, k, OpenBrackets(m, k).value);
    } else if NeverNegative(m, k) && KindsAgree(m, k) {
      MatcherGetsOn(m, k);
    }
  }

  /** Among the accepted texts, those whose matching brackets are of one kind are exactly those that a
      matcher comparing kinds accepts as well. */
  lemma KindsAgreeIff(data: seq<byte>, max: nat)
    requires ScanAll(data, max) == Ok
    ensures var m := Masked(data, 0);
            (forall i: nat, j: nat :: ClosedBy(m, i, j) ==> SameKind(m[i], m[j])) <==> OpenBrackets(m, |m|) == Some([])
  {
    var m := Masked(data, 0);
    AcceptedIffDescribed(data, max);
    forall k | 0 <= k <= |m| ensures DepthAt(m, k) >= 0 {
      assert !Violates(m, max, k);
    }
    MatcherMeaning(m, |m|);
  }

  // ----- the code ------------------------------------------------------------------------------

  /** `validate_json_structure` */
  method ValidateJsonStructure(data: seq<byte>, maxDepth: nat) returns (r: Check)
    ensures r == ScanAll(data, maxDepth)
    ensures Describes(data, maxDepth, r)
  {
    ScanRefinesReference(data, maxDepth);
    var currentDepth: nat, insideString, escaped := 0, false, false;
    assert data[0..] == data;
    var i := 0;
    while i < |data|
      invariant 0 <= i <= |data|
      invariant currentDepth <= maxDepth && currentDepth <= i
      invariant !insideString ==> !escaped
      invariant Feed(START, data, maxDepth)
             == Feed(Running(currentDepth, insideString, escaped, i), data[i..], maxDepth)
    {
      var position := i + 1;
      var b := data[i];
      assert data[i..][1..] == data[i + 1..];
      if insideString {
        if escaped {
          escaped := false;
        } else if b == BACKSLASH {
          escaped := true;
        } else if b == QUOTE {
          insideString := false;
        }
      } else if b == QUOTE {
        insideString := true;
      } else if Opener(b) {
        currentDepth := currentDepth + 1;
        if currentDepth > maxDepth {
          RejectedStays(Rejected(DepthExceeded(position, currentDepth, maxDepth)), data[i + 1..], maxDepth);
          return Err(DepthExceeded(position, currentDepth, maxDepth));
        }
      } else if Closer(b) {
        if currentDepth == 0 {
          RejectedStays(Rejected(UnmatchedClosing(position)), data[i + 1..], maxDepth);
          return Err(UnmatchedClosing(position));
        }
        currentDepth := currentDepth - 1;
      }
      i := i + 1;
    }
    if insideString {
      return Err(UnterminatedString);
    }
    if currentDepth != 0 {
      return Err(UnmatchedOpening(currentDepth));
    }
    return Ok;
  }
}
