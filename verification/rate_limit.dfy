/** src/network/rate_limit.rs: the rate-limit shorthand and the quota built from it. */
module RateLimit {
  import opened Machine

  datatype Window = PerSecond(allowed: NonZeroU32) | PerMinute(allowed: NonZeroU32) | Custom(period: Duration)

  /** `Panicked` is the panic of `split_at` off a character boundary. */
  datatype Parsed = Parsed(window: Window) | NotAWindow | Panicked

  const PLUS: byte := '+' as int
  const LETTER_S: byte := 's' as int
  const LETTER_M: byte := 'm' as int
  const LETTER_H: byte := 'h' as int
  const LETTER_D: byte := 'd' as int

  predicate AllDigits(s: seq<byte>) {
    forall b :: b in s ==> Digit(b)
  }

  function DecimalValue(s: seq<byte>): nat
    requires AllDigits(s)
  {
    if s == [] then 0
    else
      assert s[|s| - 1] in s;
      10 * DecimalValue(s[..|s| - 1]) + (s[|s| - 1] - 0x30)
  }

  /** `str::parse::<u32>`: an optional plus sign, then at least one decimal digit, no overflow. */
  function ParseU32(s: seq<byte>): Option<u32> {
    var digits := if |s| > 1 && s[0] == PLUS then s[1..] else s;
    if digits == [] || !AllDigits(digits) || DecimalValue(digits) > U32_MAX then None
    else Some(DecimalValue(digits))
  }

  /** A byte that continues a UTF-8 sequence: no character begins there. */
  predicate Continuation(b: byte) { 0x80 <= b <= 0xBF }

  /** `RateLimitWindow::from_string` on the bytes of the string. */
  function FromString(s: seq<byte>): Parsed {
    if s == [] then NotAWindow
    else if Continuation(s[|s| - 1]) then Panicked
    else
      var unit := s[|s| - 1];
      match ParseU32(s[..|s| - 1])
      case None => NotAWindow
      case Some(number) =>
        if number == 0 then NotAWindow
        else if unit == LETTER_S then Parsed(PerSecond(number))
        else if unit == LETTER_M then Parsed(PerMinute(number))
        else if unit == LETTER_H then var secs: u64 := number * 3600; Parsed(Custom(secs * NANOS_PER_SECOND))
        else if unit == LETTER_D then var secs: u64 := number * 86400; Parsed(Custom(secs * NANOS_PER_SECOND))
        else NotAWindow
  }

  /** What the shorthand of `n` and `unit` stands for. */
  function Meaning(n: NonZeroU32, unit: byte): Option<Window> {
    if unit == LETTER_S then Some(PerSecond(n))
    else if unit == LETTER_M then Some(PerMinute(n))
    else if unit == LETTER_H then Some(Custom(n * 3_600_000_000_000))
    else if unit == LETTER_D then Some(Custom(n * 86_400_000_000_000))
    else None
  }

  /** Decimal notation without leading zeros. */
  function PrintDecimal(n: nat): (s: seq<byte>)
    ensures s != [] && AllDigits(s)
  {
    var last: byte := 0x30 + n % 10;
    if n < 10 then [last] else PrintDecimal(n / 10) + [last]
  }

  function PrintShorthand(n: NonZeroU32, unit: byte): seq<byte> {
    PrintDecimal(n) + [unit]
  }

  lemma {:induction false} ValueOfPrint(n: nat)
    ensures DecimalValue(PrintDecimal(n)) == n
  {
    var last: byte := 0x30 + n % 10;
    if n < 10 {
      assert [last][..0] == [];
    } else {
      ValueOfPrint(n / 10);
      assert (PrintDecimal(n / 10) + [last])[..|PrintDecimal(n / 10)|] == PrintDecimal(n / 10);
    }
  }

  /** Round trip: the printed form of every count and unit is read back as its window. */
  lemma RoundTrip(n: NonZeroU32, unit: byte)
    requires unit in {LETTER_S, LETTER_M, LETTER_H, LETTER_D}
    ensures FromString(PrintShorthand(n, unit)) == Parsed(Meaning(n, unit).value)
  {
    var s := PrintShorthand(n, unit);
    assert s[..|s| - 1] == PrintDecimal(n);
    assert s[0] in PrintDecimal(n);
    ValueOfPrint(n);
  }

  lemma NumberParses(n: NonZeroU32, number: seq<byte>)
    requires number == PrintDecimal(n) || number == [0x2B] + PrintDecimal(n)
    ensures number != [] && ParseU32(number) == Some(n)
  {
    ValueOfPrint(n);
    assert PrintDecimal(n)[0] in PrintDecimal(n);
    assert ([0x2B] + PrintDecimal(n))[1..] == PrintDecimal(n);
  }

  lemma NumberParsed(n: NonZeroU32, number: seq<byte>, unit: byte)
    requires number != [] && ParseU32(number) == Some(n) && Meaning(n, unit).Some?
    ensures FromString(number + [unit]) == Parsed(Meaning(n, unit).value)
  {
    assert (number + [unit])[..|number|] == number;
  }

  /** What a unit stands for, spelled out: calls per second, calls per minute, one call per n hours or
      per n days. */
  predicate StandsFor(unit: char, n: NonZeroU32, w: Window) {
    || (unit == 's' && w == PerSecond(n))
    || (unit == 'm' && w == PerMinute(n))
    || (unit == 'h' && w == Custom(n * (60 * 60 * 1_000_000_000)))
    || (unit == 'd' && w == Custom(n * (24 * 60 * 60 * 1_000_000_000)))
  }

  /** A plus sign in front makes no difference. */
  lemma UnitsMean(n: NonZeroU32, number: seq<byte>, unit: char, w: Window)
    requires number == PrintDecimal(n) || number == [0x2B] + PrintDecimal(n)
    requires StandsFor(unit, n, w)
    ensures FromString(number + [unit as int]) == Parsed(w)
  {
    NumberParses(n, number);
    NumberParsed(n, number, unit as int);
    assert Meaning(n, unit as int) == Some(w);
  }

  /** Prepending zeros, with or without a plus sign, is the only freedom the notation leaves. */
  predicate Spells(s: seq<byte>, n: NonZeroU32, unit: byte) {
    && |s| >= 2 && s[|s| - 1] == unit
    && var number := s[..|s| - 1];
       var digits := if |number| > 1 && number[0] == PLUS then number[1..] else number;
       AllDigits(digits) && DecimalValue(digits) == n
  }

  /** Exactly the spellings of a count in 1 .. 2^32 - 1 with one of the four units are accepted. */
  lemma AcceptedIff(s: seq<byte>, w: Window)
    ensures FromString(s) == Parsed(w)
            <==> exists n: NonZeroU32, unit: byte :: Spells(s, n, unit) && Meaning(n, unit) == Some(w)
  {
    if FromString(s) == Parsed(w) {
      var unit, number := s[|s| - 1], ParseU32(s[..|s| - 1]).value;
      assert Spells(s, number, unit) && Meaning(number, unit) == Some(w);
    }
    if n: NonZeroU32, unit: byte :| Spells(s, n, unit) && Meaning(n, unit) == Some(w) {
      assert ParseU32(s[..|s| - 1]) == Some(n);
    }
  }

  // ----- strings -----------------------------------------------------------------------------

  /** A Unicode scalar value, which is what a Rust `char` holds. */
  type scalar = c: nat | c <= 0x10_FFFF && !(0xD800 <= c <= 0xDFFF)

  /** UTF-8 (section 3 of RFC 3629) */
  function EncodeChar(c: scalar): seq<byte> {
    if c < 0x80 then [c]
    else if c < 0x800 then [0xC0 + c / 0x40, 0x80 + c % 0x40]
    else if c < 0x1_0000 then [0xE0 + c / 0x1000, 0x80 + c / 0x40 % 0x40, 0x80 + c % 0x40]
    else [0xF0 + c / 0x4_0000, 0x80 + c / 0x1000 % 0x40, 0x80 + c / 0x40 % 0x40, 0x80 + c % 0x40]
  }

  function Encode(chars: seq<scalar>): seq<byte> {
    if chars == [] then [] else Encode(chars[..|chars| - 1]) + EncodeChar(chars[|chars| - 1])
  }

  lemma LastByte(c: scalar)
    ensures var e := EncodeChar(c); e != [] && (Continuation(e[|e| - 1]) <==> c >= 0x80)
  {
  }

  lemma LastOfConcat(a: seq<byte>, e: seq<byte>)
    requires e != []
    ensures (a + e)[|a + e| - 1] == e[|e| - 1]
  {
  }

  /** A string ends inside a character, bytewise, when its last character takes more than one byte. */
  lemma LastOfEncode(chars: seq<scalar>)
    requires chars != []
    ensures var s := Encode(chars); s != [] && (Continuation(s[|s| - 1]) <==> chars[|chars| - 1] >= 0x80)
  {
    var last := chars[|chars| - 1];
    LastByte(last);
    LastOfConcat(Encode(chars[..|chars| - 1]), EncodeChar(last));
  }

  lemma OnlySplitPanics(s: seq<byte>)
    ensures FromString(s) == Panicked <==> s != [] && Continuation(s[|s| - 1])
  {
  }

  /** On every string the parser panics exactly when there is a last character and it is not ASCII. */
  lemma PanicsIff(chars: seq<scalar>)
    ensures FromString(Encode(chars)) == Panicked <==> chars != [] && chars[|chars| - 1] >= 0x80
  {
    if chars != [] {
      LastOfEncode(chars);
    }
    OnlySplitPanics(Encode(chars));
  }

  /** For example on `5` followed by the micro sign. */
  lemma FiveMicroPanics()
    ensures FromString(Encode([0x35, 0xB5])) == Panicked
  {
    PanicsIff([0x35, 0xB5]);
  }

  // ----- quotas --------------------------------------------------------------------------------

  /** A `governor::Quota`, abstractly: what it replenishes and how much it allows at once. */
  datatype Quota = Quota(window: Window, burst: nat)

  datatype QuotaResult = Built(quota: Quota) | ConfigError

  function QuotaFromWindow(window: Window, burst: Option<NonZeroU32>): QuotaResult {
    match window
    case Custom(period) =>
      if period == 0 then ConfigError else Built(Quota(window, if burst.Some? then burst.value else 1))
    case _ => Built(Quota(window, if burst.Some? then burst.value else window.allowed))
  }

  /** What a window allows at once by itself: its count, or one cell of a custom period. */
  function OwnBurst(window: Window): nat {
    match window
    case PerSecond(n) => n
    case PerMinute(n) => n
    case Custom(_) => 1
  }

  /** Every window the shorthand yields makes a quota that replenishes it and allows the burst asked
      for, or else the window's own; and the only window that makes none is the custom one of length zero. */
  lemma ShorthandMakesQuota(s: seq<byte>, burst: Option<NonZeroU32>)
    ensures FromString(s).Parsed? ==>
              var r := QuotaFromWindow(FromString(s).window, burst);
              r.Built? && r.quota.window == FromString(s).window
              && r.quota.burst == (if burst.Some? then burst.value else OwnBurst(FromString(s).window))
    ensures forall w: Window :: QuotaFromWindow(w, burst) == ConfigError <==> w == Custom(0)
  {
  }
}
