/** JSON texts (sections 2 to 7 of RFC 8259) as concrete syntax trees, and what the structure scan
    of src/network/validation.rs does with every one of them. */
module Json {
  import opened Machine
  import opened Validation

  /** Whitespace before and after a structural character. */
  datatype Gap = Gap(before: seq<byte>, after: seq<byte>)

  datatype Char =
    | Raw(b: byte)                                    // any unescaped byte, also inside a UTF-8 sequence
    | Escape(b: byte)                                 // backslash and one of "\/bfnrt
    | Unicode(h: byte, i: byte, j: byte, k: byte)     // backslash, u, four hex digits

  datatype Exponent = Exponent(marker: byte, sign: seq<byte>, digits: seq<byte>)

  datatype Value =
    | Null | True | False
    | Number(negative: bool, whole: seq<byte>, fraction: Option<seq<byte>>, exponent: Option<Exponent>)
    | Str(chars: seq<Char>)
    | Array(open: Gap, elements: Elements, close: Gap)
    | Object(open: Gap, members: Members, close: Gap)

  /** `comma` is printed only when another element follows. */
  datatype Elements = NoElement | Element(value: Value, comma: Gap, rest: Elements)
  datatype Members = NoMember | Member(key: seq<Char>, colon: Gap, value: Value, comma: Gap, rest: Members)

  datatype Document = Document(before: seq<byte>, value: Value, after: seq<byte>)

  // ----- the grammar --------------------------------------------------------------------

  predicate Whitespace(s: seq<byte>) {
    forall b :: b in s ==> b == 0x20 || b == 0x09 || b == 0x0A || b == 0x0D
  }

  predicate LegalGap(g: Gap) {
    Whitespace(g.before) && Whitespace(g.after)
  }

  predicate HexDigit(b: byte) { Digit(b) || 0x41 <= b <= 0x46 || 0x61 <= b <= 0x66 }

  predicate Digits(s: seq<byte>) {
    s != [] && forall b :: b in s ==> Digit(b)
  }

  predicate LegalChar(c: Char) {
    match c
    case Raw(b) => b >= 0x20 && b != 0x22 && b != 0x5C
    case Escape(b) => b in {0x22, 0x5C, 0x2F, 0x62, 0x66, 0x6E, 0x72, 0x74}
    case Unicode(h, i, j, k) => HexDigit(h) && HexDigit(i) && HexDigit(j) && HexDigit(k)
  }

  predicate LegalString(s: seq<Char>) {
    forall c :: c in s ==> LegalChar(c)
  }

  predicate LegalExponent(e: Exponent) {
    (e.marker == 0x65 || e.marker == 0x45) && e.sign in [[], [0x2B], [0x2D]] && Digits(e.digits)
  }

  predicate LegalNumber(v: Value)
    requires v.Number?
  {
    && Digits(v.whole) && (|v.whole| > 1 ==> v.whole[0] != 0x30)
    && (v.fraction.Some? ==> Digits(v.fraction.value))
    && (v.exponent.Some? ==> LegalExponent(v.exponent.value))
  }

  predicate Legal(v: Value) {
    match v
    case Number(_, _, _, _) => LegalNumber(v)
    case Str(chars) => LegalString(chars)
    case Array(open, elements, close) => LegalGap(open) && LegalElements(elements) && LegalGap(close)
    case Object(open, members, close) => LegalGap(open) && LegalMembers(members) && LegalGap(close)
    case _ => true
  }

  predicate LegalElements(es: Elements) {
    es.Element? ==> Legal(es.value) && LegalGap(es.comma) && LegalElements(es.rest)
  }

  predicate LegalMembers(ms: Members) {
    ms.Member? ==> LegalString(ms.key) && LegalGap(ms.colon) && Legal(ms.value) && LegalGap(ms.comma)
                   && LegalMembers(ms.rest)
  }

  predicate LegalDocument(d: Document) {
    Whitespace(d.before) && Legal(d.value) && Whitespace(d.after)
  }

  // ----- printing ---------------------------------------------------------------------------

  function Structural(g: Gap, b: byte): seq<byte> {
    g.before + [b] + g.after
  }

  function PrintChar(c: Char): seq<byte> {
    match c
    case Raw(b) => [b]
    case Escape(b) => [0x5C, b]
    case Unicode(h, i, j, k) => [0x5C, 0x75, h, i, j, k]
  }

  function PrintChars(s: seq<Char>): seq<byte> {
    if s == [] then [] else PrintChar(s[0]) + PrintChars(s[1..])
  }

  function PrintString(s: seq<Char>): seq<byte> {
    [0x22] + PrintChars(s) + [0x22]
  }

  function PrintNumber(v: Value): seq<byte>
    requires v.Number?
  {
    (if v.negative then [0x2D] else [])
    + v.whole
    + (if v.fraction.Some? then [0x2E] + v.fraction.value else [])
    + (if v.exponent.Some? then
         [v.exponent.value.marker] + v.exponent.value.sign + v.exponent.value.digits
       else [])
  }

  function Print(v: Value): seq<byte> {
    match v
    case Null => [0x6E, 0x75, 0x6C, 0x6C]
    case True => [0x74, 0x72, 0x75, 0x65]
    case False => [0x66, 0x61, 0x6C, 0x73, 0x65]
    case Number(_, _, _, _) => PrintNumber(v)
    case Str(chars) => PrintString(chars)
    case Array(open, elements, close) =>
      Structural(open, 0x5B) + (PrintElements(elements) + Structural(close, 0x5D))
    case Object(open, members, close) =>
      Structural(open, 0x7B) + (PrintMembers(members) + Structural(close, 0x7D))
  }

  function PrintElements(es: Elements): seq<byte> {
    if es.NoElement? then []
    else Print(es.value)
         + if es.rest.NoElement? then [] else Structural(es.comma, 0x2C) + PrintElements(es.rest)
  }

  function PrintMembers(ms: Members): seq<byte> {
    if ms.NoMember? then []
    else PrintString(ms.key) + (Structural(ms.colon, 0x3A) + (Print(ms.value)
         + if ms.rest.NoMember? then [] else Structural(ms.comma, 0x2C) + PrintMembers(ms.rest)))
  }

  function PrintDocument(d: Document): seq<byte> {
    d.before + (Print(d.value) + d.after)
  }

  // ----- nesting ------------------------------------------------------------------------------

  function Larger(a: nat, b: nat): nat {
    if a >= b then a else b
  }

  /** Objects and arrays on the longest path, counted against the same budget. */
  function Nesting(v: Value): nat {
    match v
    case Array(_, elements, _) => 1 + NestingElements(elements)
    case Object(_, members, _) => 1 + NestingMembers(members)
    case _ => 0
  }

  function NestingElements(es: Elements): nat {
    if es.NoElement? then 0 else Larger(Nesting(es.value), NestingElements(es.rest))
  }

  function NestingMembers(ms: Members): nat {
    if ms.NoMember? then 0 else Larger(Nesting(ms.value), NestingMembers(ms.rest))
  }

  // ----- scanning printed text ------------------------------------------------------------------

  predicate TooDeep(s: Scan, max: nat) {
    s.Rejected? && s.error.DepthExceeded? && s.error.depth == max + 1 && s.error.max == max
  }

  predicate ScansAt(text: seq<byte>, depth: nat, need: nat, max: nat, read: nat) {
    var end := Feed(Running(depth, false, false, read), text, max);
    if depth + need <= max then end == Running(depth, false, false, read + |text|)
    else TooDeep(end, max)
  }

  /** Scanning `text` at `depth` works out: it comes back to the same depth, outside strings, when
      `need` more levels fit under the limit, and is rejected for depth when they do not. */
  ghost predicate Scans(text: seq<byte>, depth: nat, need: nat, max: nat) {
    forall read: nat :: ScansAt(text, depth, need, max, read)
  }

  lemma ScansConcat(a: seq<byte>, b: seq<byte>, depth: nat, needA: nat, needB: nat, max: nat)
    requires Scans(a, depth, needA, max) && Scans(b, depth, needB, max)
    ensures Scans(a + b, depth, Larger(needA, needB), max)
  {
    forall read: nat ensures ScansAt(a + b, depth, Larger(needA, needB), max, read) {
      var s := Running(depth, false, false, read);
      FeedConcat(s, a, b, max);
      var mid := Feed(s, a, max);
      assert ScansAt(a, depth, needA, max, read);
      if depth + needA <= max {
        assert ScansAt(b, depth, needB, max, read + |a|);
      } else {
        RejectedStays(mid, b, max);
      }
    }
  }

  /** Bytes that mean nothing to the scan outside a string. */
  predicate Plain(text: seq<byte>) {
    forall b :: b in text ==> b != 0x22 && !Opener(b) && !Closer(b)
  }

  lemma {:induction false} FeedPlain(text: seq<byte>, depth: nat, read: nat, max: nat)
    requires Plain(text)
    ensures Feed(Running(depth, false, false, read), text, max) == Running(depth, false, false, read + |text|)
    decreases text
  {
    if text == [] {
    } else {
      assert text[0] in text;
      FeedPlain(text[1..], depth, read + 1, max);
    }
  }

  lemma PlainScans(text: seq<byte>, depth: nat, max: nat)
    requires Plain(text) && depth <= max
    ensures Scans(text, depth, 0, max)
  {
    forall read: nat ensures ScansAt(text, depth, 0, max, read) {
      FeedPlain(text, depth, read, max);
    }
  }

  lemma FeedPair(s: Scan, a: byte, b: byte, max: nat)
    ensures Feed(s, [a, b], max) == Step(Step(s, a, max), b, max)
  {
    assert [a, b][1..] == [b];
    FeedOne(Step(s, a, max), b, max);
  }

  lemma CharStaysInside(c: Char, depth: nat, read: nat, max: nat)
    requires LegalChar(c)
    ensures Feed(Running(depth, true, false, read), PrintChar(c), max)
            == Running(depth, true, false, read + |PrintChar(c)|)
  {
    var s := Running(depth, true, false, read);
    match c {
      case Raw(b) =>
        FeedOne(s, b, max);
      case Escape(b) =>
        FeedPair(s, 0x5C, b, max);
      case Unicode(h, i, j, k) =>
        assert PrintChar(c) == [0x5C, 0x75] + ([h, i] + [j, k]);
        FeedConcat(s, [0x5C, 0x75], [h, i] + [j, k], max);
        FeedPair(s, 0x5C, 0x75, max);
        var t := Running(depth, true, false, read + 2);
        FeedConcat(t, [h, i], [j, k], max);
        FeedPair(t, h, i, max);
        FeedPair(Running(depth, true, false, read + 4), j, k, max);
    }
  }

  lemma {:induction false} CharsStayInside(s: seq<Char>, depth: nat, read: nat, max: nat)
    requires LegalString(s)
    ensures Feed(Running(depth, true, false, read), PrintChars(s), max)
            == Running(depth, true, false, read + |PrintChars(s)|)
    decreases s
  {
    if s == [] {
    } else {
      assert s[0] in s;
      CharStaysInside(s[0], depth, read, max);
      FeedConcat(Running(depth, true, false, read), PrintChar(s[0]), PrintChars(s[1..]), max);
      CharsStayInside(s[1..], depth, read + |PrintChar(s[0])|, max);
    }
  }

  /** A string is passed over whatever brackets, quotes and backslashes it contains or escapes. */
  lemma StringScans(s: seq<Char>, depth: nat, max: nat)
    requires LegalString(s) && depth <= max
    ensures Scans(PrintString(s), depth, 0, max)
  {
    forall read: nat ensures ScansAt(PrintString(s), depth, 0, max, read) {
      var start := Running(depth, false, false, read);
      assert PrintString(s) == [0x22] + (PrintChars(s) + [0x22]);
      FeedConcat(start, [0x22], PrintChars(s) + [0x22], max);
      FeedOne(start, 0x22, max);
      var inside := Running(depth, true, false, read + 1);
      FeedConcat(inside, PrintChars(s), [0x22], max);
      CharsStayInside(s, depth, read + 1, max);
      FeedOne(Running(depth, true, false, read + 1 + |PrintChars(s)|), 0x22, max);
    }
  }

  lemma FeedStructural(g: Gap, b: byte, depth: nat, read: nat, max: nat) returns (end: Scan)
    requires LegalGap(g) && b != 0x22 && depth <= max && (Closer(b) ==> depth > 0)
    ensures end == Feed(Running(depth, false, false, read), Structural(g, b), max)
    ensures if Opener(b) && depth == max then TooDeep(end, max)
            else end == Running(if Opener(b) then depth + 1 else if Closer(b) then depth - 1 else depth,
                                false, false, read + |Structural(g, b)|)
  {
    var s := Running(depth, false, false, read);
    assert Structural(g, b) == g.before + ([b] + g.after);
    FeedConcat(s, g.before, [b] + g.after, max);
    FeedPlain(g.before, depth, read, max);
    var at := Running(depth, false, false, read + |g.before|);
    FeedConcat(at, [b], g.after, max);
    FeedOne(at, b, max);
    var next := Step(at, b, max);
    if next.Running? {
      FeedPlain(g.after, next.depth, next.read, max);
    } else {
      RejectedStays(next, g.after, max);
    }
    end := Feed(s, Structural(g, b), max);
  }

  /** A bracketed body one level down. */
  lemma BracketsScan(open: Gap, body: seq<byte>, close: Gap, o: byte, c: byte, depth: nat, need: nat, max: nat)
    requires LegalGap(open) && LegalGap(close) && Opener(o) && Closer(c)
    requires depth <= max
    requires depth + 1 <= max ==> Scans(body, depth + 1, need, max)
    ensures Scans(Structural(open, o) + (body + Structural(close, c)), depth, need + 1, max)
  {
    var text := Structural(open, o) + (body + Structural(close, c));
    var levels := need + 1;
    forall read: nat ensures ScansAt(text, depth, levels, max, read) {
      var level := FeedStructural(open, o, depth, read, max);
      var rest := body + Structural(close, c);
      FeedConcat(Running(depth, false, false, read), Structural(open, o), rest, max);
      if depth + 1 > max {
        RejectedStays(level, rest, max);
      } else {
        FeedConcat(level, body, Structural(close, c), max);
        var inner := Feed(level, body, max);
        assert ScansAt(body, depth + 1, need, max, level.read);
        if depth + 1 + need <= max {
          var closed := FeedStructural(close, c, depth + 1, inner.read, max);
        } else {
          RejectedStays(inner, Structural(close, c), max);
        }
      }
    }
  }

  // ----- every tree -------------------------------------------------------------------------------

  lemma PlainConcat(a: seq<byte>, b: seq<byte>)
    requires Plain(a) && Plain(b)
    ensures Plain(a + b)
  {
  }

  lemma NumberIsPlain(v: Value)
    requires v.Number? && LegalNumber(v)
    ensures Plain(PrintNumber(v))
  {
    var sign: seq<byte> := if v.negative then [0x2D] else [];
    var fraction := if v.fraction.Some? then [0x2E] + v.fraction.value else [];
    var exponent := if v.exponent.Some? then
                      [v.exponent.value.marker] + v.exponent.value.sign + v.exponent.value.digits
                    else [];
    PlainConcat(sign, v.whole);
    PlainConcat(sign + v.whole, fraction);
    PlainConcat(sign + v.whole + fraction, exponent);
  }

  lemma SeparatorScans(g: Gap, b: byte, depth: nat, max: nat)
    requires LegalGap(g) && (b == 0x2C || b == 0x3A) && depth <= max
    ensures Scans(Structural(g, b), depth, 0, max)
  {
    PlainScans(Structural(g, b), depth, max);
  }

  /** Induction over the tree: at any depth the scan of a printed value needs exactly the levels
      that the value nests. */
  lemma {:induction false} ValueScans(v: Value, depth: nat, max: nat)
    requires Legal(v) && depth <= max
    ensures Scans(Print(v), depth, Nesting(v), max)
    decreases v
  {
    match v {
      case Null => PlainScans(Print(v), depth, max);
      case True => PlainScans(Print(v), depth, max);
      case False => PlainScans(Print(v), depth, max);
      case Number(_, _, _, _) =>
        NumberIsPlain(v);
        PlainScans(Print(v), depth, max);
      case Str(chars) =>
        StringScans(chars, depth, max);
      case Array(open, elements, close) =>
        if depth + 1 <= max {
          ElementsScan(elements, depth + 1, max);
        }
        BracketsScan(open, PrintElements(elements), close, 0x5B, 0x5D, depth,
                     NestingElements(elements), max);
      case Object(open, members, close) =>
        if depth + 1 <= max {
          MembersScan(members, depth + 1, max);
        }
        BracketsScan(open, PrintMembers(members), close, 0x7B, 0x7D, depth,
                     NestingMembers(members), max);
    }
  }

  lemma {:induction false} ElementsScan(es: Elements, depth: nat, max: nat)
    requires LegalElements(es) && depth <= max
    ensures Scans(PrintElements(es), depth, NestingElements(es), max)
    decreases es
  {
    if es.NoElement? {
      PlainScans([], depth, max);
    } else {
      ValueScans(es.value, depth, max);
      if es.rest.NoElement? {
        assert Print(es.value) + [] == Print(es.value);
      } else {
        ElementsScan(es.rest, depth, max);
        SeparatorScans(es.comma, 0x2C, depth, max);
        var tail := Structural(es.comma, 0x2C) + PrintElements(es.rest);
        ScansConcat(Structural(es.comma, 0x2C), PrintElements(es.rest), depth, 0, NestingElements(es.rest), max);
        ScansConcat(Print(es.value), tail, depth, Nesting(es.value), NestingElements(es.rest), max);
      }
    }
  }

  lemma {:induction false} MembersScan(ms: Members, depth: nat, max: nat)
    requires LegalMembers(ms) && depth <= max
    ensures Scans(PrintMembers(ms), depth, NestingMembers(ms), max)
    decreases ms
  {
    if ms.NoMember? {
      PlainScans([], depth, max);
    } else {
      var tail := if ms.rest.NoMember? then [] else Structural(ms.comma, 0x2C) + PrintMembers(ms.rest);
      var tailNesting := NestingMembers(ms.rest);
      if ms.rest.NoMember? {
        PlainScans([], depth, max);
      } else {
        MembersScan(ms.rest, depth, max);
        SeparatorScans(ms.comma, 0x2C, depth, max);
        ScansConcat(Structural(ms.comma, 0x2C), PrintMembers(ms.rest), depth, 0, tailNesting, max);
      }
      ValueScans(ms.value, depth, max);
      ScansConcat(Print(ms.value), tail, depth, Nesting(ms.value), tailNesting, max);
      SeparatorScans(ms.colon, 0x3A, depth, max);
      ScansConcat(Structural(ms.colon, 0x3A), Print(ms.value) + tail, depth, 0, NestingMembers(ms), max);
      StringScans(ms.key, depth, max);
      ScansConcat(PrintString(ms.key), Structural(ms.colon, 0x3A) + (Print(ms.value) + tail), depth,
                  0, NestingMembers(ms), max);
    }
  }

  /** Soundness and completeness on JSON texts: whatever whitespace, escapes and numbers it is
      printed with, a tree is accepted exactly when it nests at most `max` deep, and otherwise the
      error is the depth limit and nothing else. */
  lemma JsonAcceptedIff(d: Document, max: nat)
    requires LegalDocument(d)
    ensures ScanAll(PrintDocument(d), max) == Ok <==> Nesting(d.value) <= max
    ensures Nesting(d.value) > max ==> TooDeep(Feed(START, PrintDocument(d), max), max)
  {
    PlainScans(d.before, 0, max);
    PlainScans(d.after, 0, max);
    ValueScans(d.value, 0, max);
    ScansConcat(Print(d.value), d.after, 0, Nesting(d.value), 0, max);
    ScansConcat(d.before, Print(d.value) + d.after, 0, 0, Nesting(d.value), max);
    assert ScansAt(PrintDocument(d), 0, Nesting(d.value), max, 0);
  }

  // ----- the gate of validate_and_parse_json ------------------------------------------------------

  datatype Gate = TooLarge | Malformed(error: StructureError) | Admitted

  /** What `validate_and_parse_json` settles before it hands the bytes to the deserializer. */
  method ValidateBeforeParsing(data: seq<byte>, maxBody: nat, maxDepth: nat) returns (g: Gate)
    ensures g == Admitted <==> |data| <= maxBody && Describes(data, maxDepth, Ok)
    ensures g == TooLarge <==> |data| > maxBody
    ensures g.Malformed? ==> Describes(data, maxDepth, Err(g.error))
    ensures forall d :: LegalDocument(d) && data == PrintDocument(d) ==>
              (g == Admitted <==> |data| <= maxBody && Nesting(d.value) <= maxDepth)
  {
    if |data| > maxBody {
      return TooLarge;
    }
    var check := ValidateJsonStructure(data, maxDepth);
    if Describes(data, maxDepth, Ok) {
      VerdictUnique(data, maxDepth, check, Ok);
    }
    forall d | LegalDocument(d) && data == PrintDocument(d)
      ensures check == Ok <==> Nesting(d.value) <= maxDepth
    {
      JsonAcceptedIff(d, maxDepth);
    }
    match check {
      case Ok => return Admitted;
      case Err(e) => return Malformed(e);
    }
  }
}
