/**
 What the text forms of durations mean in pkg/durationutil/duration.go: the printed form, the
 parsed value, and the round trip. Durations are 64-bit nanoseconds.
 */
module DurationText {
  import opened Wrappers
  import opened Whitespace
  import opened Binary64
  import opened DurationUnits

  const MAX64: int := 0x7fff_ffff_ffff_ffff
  const MIN64: int := -0x8000_0000_0000_0000

  const RANGE64: int := 0x1_0000_0000_0000_0000

  // Wrap-around of 64-bit integers.
  function Wrap64(x: int): int
    decreases if x > MAX64 then x - MAX64 else if x < MIN64 then MIN64 - x else 0
  {
    if x > MAX64 then Wrap64(x - RANGE64) else if x < MIN64 then Wrap64(x + RANGE64) else x
  }

  lemma {:induction false} WrapsAround(x: int)
    ensures MIN64 <= Wrap64(x) <= MAX64 && exists k: int :: Wrap64(x) == x + RANGE64 * k
    decreases if x > MAX64 then x - MAX64 else if x < MIN64 then MIN64 - x else 0
  {
    if x > MAX64 {
      WrapsAround(x - RANGE64);
      var k :| Wrap64(x) == x - RANGE64 + RANGE64 * k;
      assert Wrap64(x) == x + RANGE64 * (k - 1);
    } else if x < MIN64 {
      WrapsAround(x + RANGE64);
      var k :| Wrap64(x) == x + RANGE64 + RANGE64 * k;
      assert Wrap64(x) == x + RANGE64 * (k + 1);
    } else {
      assert Wrap64(x) == x + RANGE64 * 0;
    }
  }

  // What the parser works with: the sorted suffixes, the values of the units, which byte sequences
  // are one white space character, the parsing of numbers and their multiplication with a unit in
  // floating point, and whether the planted slice access is in the code.
  datatype Setup = Setup(
    suffixes: seq<string>,
    values: map<string, int>,
    space: string -> bool,
    parseFloat: string -> Option<real>,
    amount: (real, int) -> int,
    planted: bool)

  // ----- Numbers -----

  predicate IsDigit(c: char) {
    '0' <= c <= '9'
  }

  predicate AllDigits(s: string) {
    forall i :: 0 <= i < |s| ==> IsDigit(s[i])
  }

  // The value of the digits of a text, dots ignored.
  function Digits(s: string): nat {
    if s == "" then 0
    else
      var front, c := Digits(s[..|s| - 1]), s[|s| - 1];
      if IsDigit(c) then 10 * front + (c as int - '0' as int) else front
  }

  // How many characters follow the first dot.
  function Decimals(s: string): nat {
    if s == "" then 0 else if s[0] == '.' then |s| - 1 else Decimals(s[1..])
  }

  function Power10(k: nat): (p: nat)
    ensures p > 0
  {
    if k == 0 then 1 else 10 * Power10(k - 1)
  }

  // How far the digits, with at most one dot among them, go on from i; None at a further dot.
  function NumberEnd(s: string, i: nat, dots: nat): (r: Option<nat>)
    requires i <= |s|
    ensures r.Some? ==> i <= r.value <= |s|
    decreases |s| - i
  {
    if i == |s| then Some(i)
    else if IsDigit(s[i]) then NumberEnd(s, i + 1, dots)
    else if s[i] == '.' then if dots == 1 then None else NumberEnd(s, i + 1, 1)
    else Some(i)
  }

  datatype Failure = SignOnly | BadPlainNumber | TooManyDots | NumberExpected | BadNumber | BadUnit

  datatype Number = Number(v: real, rest: string) | NoNumber(why: Failure)

  function ConsumeNumber(parseFloat: string -> Option<real>, s: string): (r: Number)
    ensures r.Number? ==> |r.rest| < |s|
  {
    match NumberEnd(s, 0, 0)
    case None => NoNumber(TooManyDots)
    case Some(i) =>
      if i == 0 then NoNumber(NumberExpected)
      else
        match parseFloat(s[..i])
        case None => NoNumber(BadNumber)
        case Some(v) => Number(v, s[i..])
  }

  // strconv.ParseFloat of digits with at most one dot: no digits at all or a number beyond the
  // format is an error.
  function ParseFloat64(digits: string): Option<real> {
    if digits == "." then None
    else
      var (fits, v) := Float64(Digits(digits) as real / Power10(Decimals(digits)) as real);
      if fits then Some(v) else None
  }

  // ----- Parsing -----

  datatype Outcome = Parsed(d: int) | Failed(why: Failure) | Panicked

  function ValueOf(values: map<string, int>, u: string): int {
    if u in values then values[u] else 0
  }

  // What one round of the parser finds at the start of the text.
  datatype Round =
    | End
    | Bad(why: Failure)
    | Bare(v: real)                                    // a number at the end of the text
    | Lone                                             // a number and one more byte
    | Segment(v: real, unit: string, rest: string)

  function NextRound(p: Setup, text: string): (r: Round)
    ensures r.Segment? ==> |r.rest| < |text|
  {
    var s := TrimLeft(p.space, text);
    if s == "" then End
    else
      match ConsumeNumber(p.parseFloat, s)
      case NoNumber(why) => Bad(why)
      case Number(v, rest) =>
        var s := TrimLeft(p.space, rest);
        if s == "" then Bare(v)
        else if p.planted && |s| == 1 then Lone
        else
          match ConsumeUnit(p.suffixes, s)
          case None => Bad(BadUnit)
          case Some(u) => Segment(v, u, s[|u|..])
  }

  type Rounds = string -> Round

  function RoundsOf(p: Setup): (next: Rounds)
    ensures Consumes(next)
  {
    (text: string) => NextRound(p, text)
  }

  ghost predicate Consumes(next: Rounds) {
    forall text :: next(text).Segment? ==> |next(text).rest| < |text|
  }

  // The last round of a text.
  function Closing(p: Setup, r: Round, total: int): Outcome
    requires !r.Segment?
  {
    match r
    case End => Parsed(total)
    case Bad(why) => Failed(why)
    case Bare(v) => Parsed(Wrap64(total + p.amount(v, SECOND)))
    case Lone => Panicked
  }

  function Added(p: Setup, r: Round, total: int): int
    requires r.Segment?
  {
    Wrap64(total + p.amount(r.v, ValueOf(p.values, r.unit)))
  }

  // The segments of a number and a unit each; a bare number at the end counts seconds.
  function Segments(p: Setup, next: Rounds, text: string, total: int): Outcome
    requires Consumes(next)
    decreases |text|
  {
    var r := next(text);
    if r.Segment? then Segments(p, next, r.rest, Added(p, r, total)) else Closing(p, r, total)
  }

  type Scanner = string -> Outcome

  function ScannerOf(p: Setup): Scanner {
    (text: string) => Segments(p, RoundsOf(p), text, 0)
  }

  function Signed(sign: int, r: Outcome): Outcome {
    if r.Parsed? then Parsed(Wrap64(sign * r.d)) else r
  }

  function Magnitude(scan: Scanner, s: string, sign: int): Outcome {
    if s != "" && AllDigits(s) then
      if Digits(s) > MAX64 then Failed(BadPlainNumber) else Parsed(Wrap64(sign * Digits(s) * SECOND))
    else Signed(sign, scan(s))
  }

  function ParseTrimmed(scan: Scanner, s: string): Outcome {
    if s == "" then Parsed(0)
    else if s[0] == '-' || s[0] == '+' then
      if s[1..] == "" then Failed(SignOnly)
      else Magnitude(scan, s[1..], if s[0] == '-' then -1 else 1)
    else Magnitude(scan, s, 1)
  }

  function Parse(p: Setup, text: string): Outcome {
    ParseTrimmed(ScannerOf(p), TrimRight(p.space, TrimLeft(p.space, text)))
  }

  // ----- What the planted access does -----

  // A number, white space aside, and then a single byte: the guard of the planted access.
  predicate OneByteLeft(p: Setup, text: string) {
    var s := TrimLeft(p.space, text);
    s != "" &&
    match ConsumeNumber(p.parseFloat, s)
    case NoNumber(_) => false
    case Number(_, rest) => |TrimLeft(p.space, rest)| == 1
  }

  // Some round of the scan comes upon that.
  predicate Meets(p: Setup, next: Rounds, text: string)
    requires Consumes(next)
    decreases |text|
  {
    OneByteLeft(p, text) || (next(text).Segment? && Meets(p, next, next(text).rest))
  }

  function Unsigned(s: string): string {
    if s != "" && (s[0] == '-' || s[0] == '+') then s[1..] else s
  }

  // What is scanned: the text without the white space around it and without a sign.
  function Body(p: Setup, text: string): string {
    Unsigned(TrimRight(p.space, TrimLeft(p.space, text)))
  }

  predicate PanicsOn(p: Setup, text: string) {
    !AllDigits(Body(p, text)) && Meets(p, RoundsOf(p), Body(p, text))
  }

  lemma PlantedRound(p: Setup, q: Setup, text: string)
    requires !p.planted && q == p.(planted := true)
    ensures !NextRound(p, text).Lone?
    ensures NextRound(q, text) == if OneByteLeft(p, text) then Lone else NextRound(p, text)
  {
  }

  lemma {:induction false} PlantedSegments(p: Setup, q: Setup, next: Rounds, next': Rounds, text: string, total: int)
    requires Consumes(next) && Consumes(next') && q == p.(planted := true)
    requires forall t :: !next(t).Lone? && next'(t) == if OneByteLeft(p, t) then Lone else next(t)
    ensures Segments(q, next', text, total) == if Meets(p, next, text) then Panicked else Segments(p, next, text, total)
    ensures !Segments(p, next, text, total).Panicked?
    decreases |text|
  {
    var r := next(text);
    if r.Segment? {
      PlantedSegments(p, q, next, next', r.rest, Added(p, r, total));
      assert Added(q, r, total) == Added(p, r, total);
    }
  }

  lemma PlantedScan(p: Setup, text: string)
    requires !p.planted
    ensures var q := p.(planted := true);
            ScannerOf(q)(text) == if Meets(p, RoundsOf(p), text) then Panicked else ScannerOf(p)(text)
    ensures !ScannerOf(p)(text).Panicked?
  {
    var q := p.(planted := true);
    forall t ensures !RoundsOf(p)(t).Lone?
      ensures RoundsOf(q)(t) == if OneByteLeft(p, t) then Lone else RoundsOf(p)(t)
    {
      PlantedRound(p, q, t);
    }
    PlantedSegments(p, q, RoundsOf(p), RoundsOf(q), text, 0);
  }

  lemma PlantedTrimmed(scan: Scanner, scan': Scanner, s: string, meets: bool)
    requires scan'(Unsigned(s)) == if meets then Panicked else scan(Unsigned(s))
    requires !scan(Unsigned(s)).Panicked?
    ensures ParseTrimmed(scan', s) == if !AllDigits(Unsigned(s)) && meets then Panicked else ParseTrimmed(scan, s)
    ensures !ParseTrimmed(scan, s).Panicked?
  {
  }

  // The marked slice access makes the parser panic exactly when some round leaves one byte behind
  // its number, and changes nothing else.
  lemma PlantedPanicsExactly(p: Setup, q: Setup, text: string)
    requires !p.planted && q == p.(planted := true)
    ensures Parse(q, text) == if PanicsOn(p, text) then Panicked else Parse(p, text)
  {
    var s := TrimRight(p.space, TrimLeft(p.space, text));
    PlantedScan(p, Unsigned(s));
    PlantedTrimmed(ScannerOf(p), ScannerOf(q), s, Meets(p, RoundsOf(p), Unsigned(s)));
  }

  // Without it nothing panics.
  lemma UnplantedNeverPanics(p: Setup, text: string)
    requires !p.planted
    ensures !Parse(p, text).Panicked?
  {
    PlantedScan(p, Body(p, text));
  }

  // Some round ends the text with a unit of one byte.
  predicate EndsShort(next: Rounds, text: string)
    requires Consumes(next)
    decreases |text|
  {
    next(text).Segment?
    && ((|next(text).unit| == 1 && next(text).rest == "") || EndsShort(next, next(text).rest))
  }

  // The last round finds one byte behind its number that is no unit.
  predicate StopsAtByte(p: Setup, next: Rounds, text: string)
    requires Consumes(next)
    decreases |text|
  {
    if next(text).Segment? then StopsAtByte(p, next, next(text).rest)
    else OneByteLeft(p, text) && next(text) == Bad(BadUnit)
  }

  lemma OneByteRound(p: Setup, text: string)
    requires !p.planted && "" !in p.suffixes
    ensures var r := NextRound(p, text);
            OneByteLeft(p, text) <==>
              (r.Segment? && |r.unit| == 1 && r.rest == "") || (r == Bad(BadUnit) && OneByteLeft(p, text))
    ensures NextRound(p, "") == End && !OneByteLeft(p, "")
  {
  }

  lemma {:induction false} MeetsExactly(p: Setup, next: Rounds, text: string, total: int)
    requires Consumes(next) && next("") == End && !OneByteLeft(p, "")
    requires forall t :: OneByteLeft(p, t) <==>
               || (next(t).Segment? && |next(t).unit| == 1 && next(t).rest == "")
               || (next(t) == Bad(BadUnit) && OneByteLeft(p, t))
    ensures Segments(p, next, text, total).Parsed? ==> (Meets(p, next, text) <==> EndsShort(next, text))
    ensures Segments(p, next, text, total).Failed? ==> (Meets(p, next, text) <==> StopsAtByte(p, next, text))
    decreases |text|
  {
    var r := next(text);
    if r.Segment? { MeetsExactly(p, next, r.rest, Added(p, r, total)); }
  }

  // So of the texts that are otherwise accepted the parser panics on those that end with a unit of
  // one byte, as all printed ones do; and of those that are otherwise rejected, on those with one
  // last byte behind a number that is no unit.
  lemma PanicsOnExactly(p: Setup, text: string)
    requires !p.planted && "" !in p.suffixes
    ensures var s, next := Body(p, text), RoundsOf(p);
            && (Parse(p, text).Parsed? ==> (PanicsOn(p, text) <==> !AllDigits(s) && EndsShort(next, s)))
            && (Parse(p, text).Failed? ==> (PanicsOn(p, text) <==> !AllDigits(s) && StopsAtByte(p, next, s)))
  {
    var s, next := Body(p, text), RoundsOf(p);
    forall t ensures OneByteLeft(p, t) <==>
        || (next(t).Segment? && |next(t).unit| == 1 && next(t).rest == "")
        || (next(t) == Bad(BadUnit) && OneByteLeft(p, t))
    {
      OneByteRound(p, t);
    }
    OneByteRound(p, "");
    MeetsExactly(p, next, s, 0);
  }

  // ----- Printing -----

  function Decimal(n: nat): string {
    if n < 10 then [n as char + '0'] else Decimal(n / 10) + [(n % 10) as char + '0']
  }

  // Truncating division.
  function Quotient(x: int, y: int): int
    requires 0 < y
  {
    if x >= 0 then x / y else -((-x) / y)
  }

  function Piece(rest: int, name: string, unit: int): string
    requires 0 < unit
  {
    if Quotient(rest, unit) > 0 then Decimal(Quotient(rest, unit)) + name else ""
  }

  function Less(rest: int, unit: int): int
    requires 0 < unit
  {
    if Quotient(rest, unit) > 0 then rest - Quotient(rest, unit) * unit else rest
  }

  // The units a duration is broken up into before its seconds.
  const PRINTED := [("w", WEEK), ("d", DAY), ("h", HOUR), ("m", MINUTE)]

  // The pieces of a duration from the largest unit to the smallest. `seconds` prints what is left,
  // in nanoseconds, as a number of seconds.
  function Pieces(units: seq<(string, int)>, d: int, seconds: int -> string): string
    requires forall i :: 0 <= i < |units| ==> 0 < units[i].1
  {
    if units == [] then if d > 0 then seconds(d) + "s" else ""
    else Piece(d, units[0].0, units[0].1) + Pieces(units[1..], Less(d, units[0].1), seconds)
  }

  lemma PiecesFrom(units: seq<(string, int)>, d: int, seconds: int -> string)
    requires units != [] && forall i :: 0 <= i < |units| ==> 0 < units[i].1
    ensures Pieces(units, d, seconds)
         == Piece(d, units[0].0, units[0].1) + Pieces(units[1..], Less(d, units[0].1), seconds)
  {
  }

  function Format(d: int, seconds: int -> string): string {
    if d == 0 then "0s"
    else if d < 0 then "-" + Pieces(PRINTED, Wrap64(-d), seconds)
    else Pieces(PRINTED, d, seconds)
  }

  // Whole seconds are printed as integers.
  ghost predicate PrintsWhole(seconds: int -> string) {
    forall k: nat :: 0 < k < 60 ==> seconds(k * SECOND) == Decimal(k)
  }
}
