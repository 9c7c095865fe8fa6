/**
 Reading back what FormatDuration printed, pkg/durationutil/duration.go.
 */
module DurationRoundTrip {
  import opened Wrappers
  import opened Quotients
  import opened Whitespace
  import opened Binary64
  import opened DurationUnits
  import opened DurationText

  // ----- Decimal numbers -----

  lemma {:induction false} DecimalFacts(n: nat)
    ensures Decimal(n) != "" && AllDigits(Decimal(n)) && Digits(Decimal(n)) == n
  {
    if n >= 10 {
      DecimalFacts(n / 10);
      assert Decimal(n)[..|Decimal(n)| - 1] == Decimal(n / 10);
    } else {
      assert Decimal(n)[..0] == "";
      assert Digits("") == 0;
    }
  }

  lemma {:induction false} NumberEndAt(s: string, i: nat, k: nat, dots: nat)
    requires i <= k <= |s| && (forall j :: i <= j < k ==> IsDigit(s[j]))
    requires k == |s| || (!IsDigit(s[k]) && s[k] != '.')
    ensures NumberEnd(s, i, dots) == Some(k)
    decreases k - i
  {
    if i < k { NumberEndAt(s, i + 1, k, dots); }
  }

  lemma {:induction false} NoDecimals(s: string)
    requires AllDigits(s)
    ensures Decimals(s) == 0
  {
    if s != "" { NoDecimals(s[1..]); }
  }

  // What may follow a printed number.
  predicate Stops(rest: string) {
    rest == "" || (!IsDigit(rest[0]) && rest[0] != '.')
  }

  // ----- What is asked of the floating point -----

  // Whole numbers below two to the 53rd are parsed exactly.
  ghost predicate ParsesWhole(parseFloat: string -> Option<real>) {
    forall n: nat :: n < MANTISSA ==> parseFloat(Decimal(n)) == Some(n as real)
  }

  // The numbers of a unit that a printed duration can hold.
  predicate Emits(n: int, unit: int) {
    || (unit == WEEK && 0 <= n <= 15_250)
    || (unit == DAY && 0 <= n <= 6)
    || (unit == HOUR && 0 <= n <= 23)
    || (unit == MINUTE && 0 <= n <= 59)
    || (unit == SECOND && 0 <= n <= 59)
  }

  // These come out exactly.
  ghost predicate ExactOnPieces(amount: (real, int) -> int) {
    forall n: nat, unit: int :: Emits(n, unit) ==> amount(n as real, unit) == n * unit
  }

  // Binary64 does both.
  lemma FloatsParseWhole()
    ensures ParsesWhole(ParseFloat64)
  {
    forall n: nat | n < MANTISSA ensures ParseFloat64(Decimal(n)) == Some(n as real) {
      FloatParses(n);
    }
  }

  lemma FloatParses(n: nat)
    requires n < MANTISSA
    ensures ParseFloat64(Decimal(n)) == Some(n as real)
  {
    DecimalFacts(n);
    NoDecimals(Decimal(n));
    assert Decimal(n) != "." by { assert IsDigit(Decimal(n)[0]); }
    assert Power10(0) == 1;
    WholeExact(n);
    Mantissa();
    PowersGrow(53, 1024);
  }

  lemma FloatsExactOnPieces()
    ensures ExactOnPieces(Product64)
  {
    forall n: nat, unit: int | Emits(n, unit) ensures Product64(n as real, unit) == n * unit {
      if unit == WEEK { WeeksExact(n); } else { SmallPieceExact(n, unit); }
    }
  }

  // A week is 9228515625 times two to the 16th.
  lemma WeeksExact(n: nat)
    requires n <= 15_250
    ensures Product64(n as real, WEEK) == n * WEEK
  {
    ShiftedBySixteen(n * 9_228_515_625, 0);
    ProductExact(n, WEEK, n * WEEK, n * 9_228_515_625, 16);
  }

  lemma SmallPieceExact(n: nat, unit: int)
    requires Emits(n, unit) && unit != WEEK
    ensures Product64(n as real, unit) == n * unit
  {
    var w := if unit == DAY then n * DAY else if unit == HOUR then n * HOUR
             else if unit == MINUTE then n * MINUTE else n * SECOND;
    ProductExact(n, unit, w, w, 0);
  }

  // ----- A number in front of a unit -----

  lemma ConsumeDecimal(parseFloat: string -> Option<real>, n: nat, rest: string)
    requires Stops(rest) && ParsesWhole(parseFloat) && n < MANTISSA
    ensures ConsumeNumber(parseFloat, Decimal(n) + rest) == Number(n as real, rest)
  {
    var t := Decimal(n);
    var s := t + rest;
    DecimalFacts(n);
    NumberEndAt(s, 0, |t|, 0);
    assert s[..|t|] == t && s[|t|..] == rest;
  }

  // ----- What the text may consist of -----

  predicate UnitLetter(c: char) {
    c == 'w' || c == 'd' || c == 'h' || c == 'm' || c == 's'
  }

  predicate StartsDigit(s: string) {
    s != "" && IsDigit(s[0])
  }

  // No white space character begins or ends with a byte of a number, a printed unit or a sign.
  ghost predicate SpaceIsSpace(space: string -> bool) {
    forall t :: space(t) ==> t != "" && !Printed(t[0]) && !Printed(t[|t| - 1])
  }

  predicate Printed(c: char) {
    IsDigit(c) || UnitLetter(c) || c == '-' || c == '+'
  }

  lemma UnicodeSpaceIsSpace()
    ensures SpaceIsSpace(UnicodeSpace)
  {
    forall t | UnicodeSpace(t) ensures t != "" && !Printed(t[0]) && !Printed(t[|t| - 1]) {}
  }

  // A printed unit is read as itself, whatever number follows.
  ghost predicate ReadsUnits(us: seq<string>) {
    forall name, rest {:trigger ConsumeUnit(us, name + rest)} |
      |name| == 1 && UnitLetter(name[0]) && (rest == "" || StartsDigit(rest)) ::
      ConsumeUnit(us, name + rest) == Some(name)
  }

  lemma Members(v: string)
    requires v in UNITS
    ensures (|v| == 1 && UnitLetter(v[0])) || (|v| >= 2 && !IsDigit(v[1]))
  {
  }

  lemma LettersAreUnits(name: string)
    requires |name| == 1 && UnitLetter(name[0])
    ensures name in UNITS
  {
    assert UNITS[5] == "s" && UNITS[6] == "m" && UNITS[7] == "h" && UNITS[8] == "d" && UNITS[9] == "w";
    assert name == [name[0]];
  }

  lemma NoOtherUnit(name: string, rest: string, v: string)
    requires |name| == 1 && UnitLetter(name[0]) && (rest == "" || StartsDigit(rest))
    requires v in UNITS && HasPrefix(name + rest, v)
    ensures v == name
  {
    Members(v);
    var s := name + rest;
    assert forall i :: 0 <= i < |v| ==> v[i] == s[i];
    assert |s| >= 2 ==> s[1] == rest[0];
    assert v == [v[0]] && name == [name[0]];
  }

  lemma UnitRead(us: seq<string>, name: string, rest: string)
    requires Table(us, UNITS) && |name| == 1 && UnitLetter(name[0]) && (rest == "" || StartsDigit(rest))
    ensures ConsumeUnit(us, name + rest) == Some(name)
  {
    LettersAreUnits(name);
    assert (name + rest)[..1] == name;
    forall v | v in UNITS && HasPrefix(name + rest, v) ensures v == name { NoOtherUnit(name, rest, v); }
    LongestMatch(us, UNITS, name + rest);
    assert Longest(UNITS, name + rest, name);
  }

  lemma TableReadsUnits(us: seq<string>)
    requires Table(us, UNITS)
    ensures ReadsUnits(us)
  {
    forall name, rest | |name| == 1 && UnitLetter(name[0]) && (rest == "" || StartsDigit(rest))
      ensures ConsumeUnit(us, name + rest) == Some(name)
    {
      UnitRead(us, name, rest);
    }
  }

  lemma NotSpace(space: string -> bool, s: string)
    requires SpaceIsSpace(space) && s != "" && Printed(s[0])
    ensures TrimLeft(space, s) == s
  {
    assert !space(s[..1]);
    if |s| >= 2 { assert !space(s[..2]); }
    if |s| >= 3 { assert !space(s[..3]); }
  }

  lemma NotSpaceAtEnd(space: string -> bool, s: string)
    requires SpaceIsSpace(space) && s != "" && Printed(s[|s| - 1])
    ensures TrailingSpace(space, s) == 0
  {
  }

  // ----- One piece -----

  // A unit name that is printed, and its worth in nanoseconds.
  ghost predicate Printable(p: Setup, name: string, unit: int) {
    |name| == 1 && UnitLetter(name[0]) && ValueOf(p.values, name) == unit
  }

  ghost predicate Usable(p: Setup) {
    SpaceIsSpace(p.space) && ReadsUnits(p.suffixes) && ParsesWhole(p.parseFloat)
  }

  lemma Associative(a: string, b: string, c: string)
    ensures (a + b) + c == a + (b + c)
  {
  }

  lemma Untrimmed(space: string -> bool, t: string, rest: string)
    requires SpaceIsSpace(space) && t != "" && Printed(t[0])
    ensures TrimLeft(space, t + rest) == t + rest && t + rest != ""
  {
    assert (t + rest)[0] == t[0];
    NotSpace(space, t + rest);
  }

  // What one segment is made up of.
  lemma SegmentParts(p: Setup, n: nat, name: string, rest: string)
    requires Usable(p) && n < MANTISSA && |name| == 1 && UnitLetter(name[0]) && (rest == "" || StartsDigit(rest))
    ensures var s, tail := Decimal(n) + (name + rest), name + rest;
            && TrimLeft(p.space, s) == s != ""
            && ConsumeNumber(p.parseFloat, s) == Number(n as real, tail)
            && TrimLeft(p.space, tail) == tail != ""
            && ConsumeUnit(p.suffixes, tail) == Some(name)
            && tail[1..] == rest
  {
    DecimalFacts(n);
    Untrimmed(p.space, Decimal(n), name + rest);
    Untrimmed(p.space, name, rest);
    ConsumeDecimal(p.parseFloat, n, name + rest);
  }

  // What a round makes of a number and its unit.
  function Found(planted: bool, n: nat, name: string, rest: string): Round {
    if planted && rest == "" then Lone else Segment(n as real, name, rest)
  }

  lemma SegmentFound(p: Setup, n: nat, name: string, rest: string)
    requires Usable(p) && n < MANTISSA && |name| == 1 && UnitLetter(name[0]) && (rest == "" || StartsDigit(rest))
    ensures NextRound(p, Decimal(n) + (name + rest)) == Found(p.planted, n, name, rest)
  {
    SegmentParts(p, n, name, rest);
  }

  // ----- Whole texts -----

  // Each round takes a printed number and unit, or panics at a lone unit.
  ghost predicate Steps(next: Rounds, planted: bool) {
    forall n: nat, name, rest {:trigger next(Decimal(n) + (name + rest))} |
      n < MANTISSA && |name| == 1 && UnitLetter(name[0]) && (rest == "" || StartsDigit(rest)) ::
      next(Decimal(n) + (name + rest)) == Found(planted, n, name, rest)
  }

  ghost predicate Scans(p: Setup, next: Rounds) {
    Consumes(next) && Steps(next, p.planted) && next("") == End
  }

  lemma RoundFound(p: Setup, next: Rounds, n: nat, name: string, rest: string)
    requires forall text :: next(text) == NextRound(p, text)
    requires Usable(p) && n < MANTISSA && |name| == 1 && UnitLetter(name[0]) && (rest == "" || StartsDigit(rest))
    ensures next(Decimal(n) + (name + rest)) == Found(p.planted, n, name, rest)
  {
    SegmentFound(p, n, name, rest);
  }

  lemma RoundsStep(p: Setup, next: Rounds)
    requires Usable(p) && forall text :: next(text) == NextRound(p, text)
    ensures Steps(next, p.planted)
  {
    forall n: nat, name, rest {:trigger next(Decimal(n) + (name + rest))} |
        n < MANTISSA && |name| == 1 && UnitLetter(name[0]) && (rest == "" || StartsDigit(rest))
      ensures next(Decimal(n) + (name + rest)) == Found(p.planted, n, name, rest)
    {
      RoundFound(p, next, n, name, rest);
    }
  }

  lemma EmptyEnds(p: Setup)
    ensures NextRound(p, "") == End
  {
  }

  lemma RoundsScan(p: Setup)
    requires Usable(p)
    ensures Scans(p, RoundsOf(p))
  {
    EmptyEnds(p);
    RoundsStep(p, RoundsOf(p));
  }

  // A printed text that stands for d nanoseconds when `total` of them were already read.
  ghost predicate Reads(p: Setup, next: Rounds, text: string, total: int, d: int)
    requires Consumes(next)
  {
    && (text == "" <==> d == 0)
    && (text != "" ==> StartsDigit(text) && UnitLetter(text[|text| - 1]))
    && Segments(p, next, text, total) == if p.planted && text != "" then Panicked else Parsed(total + d)
  }

  // A number n of a unit comes to w nanoseconds, and is small enough to be parsed exactly.
  ghost predicate Comes(p: Setup, n: nat, name: string, w: int) {
    && n < MANTISSA && |name| == 1 && UnitLetter(name[0])
    && p.amount(n as real, ValueOf(p.values, name)) == w
  }

  // A number and its unit before a text that reads as d.
  lemma SegmentReads(p: Setup, next: Rounds, n: nat, name: string, w: int, tail: string, total: int, d: int)
    requires var scans := Scans(p, next); scans
    requires Comes(p, n, name, w)
    requires 0 < w && 0 <= total && 0 <= d && total + w + d <= MAX64
    requires Reads(p, next, tail, total + w, d)
    ensures Reads(p, next, Decimal(n) + name + tail, total, w + d)
  {
    DecimalFacts(n);
    Associative(Decimal(n), name, tail);
    assert next(Decimal(n) + (name + tail)) == Found(p.planted, n, name, tail);
  }

  // The same for a piece that is left out when it comes to nothing.
  lemma PieceReads(p: Setup, next: Rounds, n: nat, name: string, w: int, tail: string, total: int, d: int)
    requires var scans := Scans(p, next); scans
    requires Comes(p, n, name, w)
    requires 0 <= w && 0 <= total && 0 <= d && total + w + d <= MAX64
    requires Reads(p, next, tail, total + w, d)
    ensures Reads(p, next, (if w > 0 then Decimal(n) + name else "") + tail, total, w + d)
  {
    if w > 0 {
      SegmentReads(p, next, n, name, w, tail, total, d);
    } else {
      NoPrefix(tail);
    }
  }

  lemma NoPrefix(t: string)
    ensures "" + t == t
  {
  }

  // How a number of nanoseconds is broken up.
  lemma PieceIs(rest: int, name: string, unit: int) returns (q: nat, w: int, less: int)
    requires 0 <= rest && 0 < unit && unit % SECOND == 0 && rest % SECOND == 0
    ensures Piece(rest, name, unit) == if w > 0 then Decimal(q) + name else ""
    ensures less == Less(rest, unit) == rest - w && w == q * unit && q == Quotient(rest, unit)
    ensures 0 <= w && 0 <= less && less % SECOND == 0
  {
    var k := DivBounds(rest, unit);
    DivAtLeast(rest, unit, 0);
    q, w, less := k, k * unit, rest - k * unit;
    var u := unit / SECOND;
    var m := rest / SECOND;
    assert k * unit == (k * u) * SECOND;
    Distribute(m, -(k * u), SECOND);
    MultipleOf(m - k * u, SECOND);
    if k > 0 { assert k * unit > 0; }
  }

  lemma MultipleOf(m: int, y: int)
    requires 0 < y
    ensures (m * y) % y == 0
  {
    DivIs(m * y, y, m);
  }

  // What reading the pieces asks of the rounds and the numbers.
  ghost predicate ReadsSeconds(p: Setup, next: Rounds, seconds: int -> string) {
    Scans(p, next) && Printable(p, "s", SECOND) && ExactOnPieces(p.amount) && PrintsWhole(seconds)
  }

  lemma SecondsRead(p: Setup, next: Rounds, rest: int, seconds: int -> string, total: int)
    requires var ready := ReadsSeconds(p, next, seconds); ready
    requires 0 <= rest < MINUTE && rest % SECOND == 0 && 0 <= total && total + rest <= MAX64
    ensures Reads(p, next, if rest > 0 then seconds(rest) + "s" else "", total, rest)
  {
    if rest > 0 {
      var k := rest / SECOND;
      assert k * SECOND == rest && k < 60;
      assert seconds(k * SECOND) == Decimal(k);
      assert Emits(k, SECOND);
      SegmentReads(p, next, k, "s", rest, "", total, 0);
      assert Decimal(k) + "s" + "" == Decimal(k) + "s";
    }
  }

  ghost predicate AllPrintable(p: Setup, units: seq<(string, int)>) {
    forall i :: 0 <= i < |units| ==> 0 < units[i].1 && units[i].1 % SECOND == 0 && Printable(p, units[i].0, units[i].1)
  }

  // Every piece of d is one that a printed duration can hold.
  predicate EmitsAll(units: seq<(string, int)>, d: int)
    requires forall i :: 0 <= i < |units| ==> 0 < units[i].1
  {
    if units == [] then d < MINUTE
    else Emits(Quotient(d, units[0].1), units[0].1) && EmitsAll(units[1..], Less(d, units[0].1))
  }

  lemma PrintedEmits(d: int)
    requires 0 <= d <= MAX64
    ensures EmitsAll(PRINTED, d)
  {
    var m := [("m", MINUTE)];
    var h := [("h", HOUR)] + m;
    var d1 := d % WEEK;
    var d2 := d1 % DAY;
    var d3 := d2 % HOUR;
    EmitsMore([], "m", MINUTE, d3);
    assert [("m", MINUTE)] + [] == m;
    EmitsMore(m, "h", HOUR, d2);
    EmitsMore(h, "d", DAY, d1);
    WeeksEmit(d);
    EmitsMore([("d", DAY)] + h, "w", WEEK, d);
    assert [("w", WEEK)] + ([("d", DAY)] + h) == PRINTED;
  }

  lemma WeeksEmit(d: int)
    requires 0 <= d <= MAX64
    ensures Emits(d / WEEK, WEEK)
  {
  }

  lemma EmitsMore(units: seq<(string, int)>, name: string, unit: int, d: int)
    requires 0 <= d && 0 < unit && Emits(d / unit, unit)
    requires (forall i :: 0 <= i < |units| ==> 0 < units[i].1) && EmitsAll(units, d % unit)
    ensures var more := [(name, unit)] + units;
            (forall i :: 0 <= i < |more| ==> 0 < more[i].1) && EmitsAll(more, d)
  {
    LessIs(d, unit);
    assert ([(name, unit)] + units)[1..] == units;
  }

  lemma LessIs(d: int, unit: int)
    requires 0 <= d && 0 < unit
    ensures Less(d, unit) == d % unit
  {
    RemainderIs(d, unit);
    DivAtLeast(d, unit, 0);
  }

  lemma PieceComes(p: Setup, q: nat, name: string, unit: int, w: int)
    requires ExactOnPieces(p.amount) && Printable(p, name, unit) && Emits(q, unit) && w == q * unit
    ensures Comes(p, q, name, w)
  {
  }

  lemma {:induction false} PiecesRead(p: Setup, next: Rounds, units: seq<(string, int)>, d: int,
                                      seconds: int -> string, total: int)
    requires var ready := ReadsSeconds(p, next, seconds); ready
    requires AllPrintable(p, units) && EmitsAll(units, d)
    requires 0 <= d && d % SECOND == 0 && 0 <= total && total + d <= MAX64
    ensures Reads(p, next, Pieces(units, d, seconds), total, d)
    decreases |units|
  {
    if units == [] {
      SecondsRead(p, next, d, seconds, total);
    } else {
      var name, unit := units[0].0, units[0].1;
      var q, w, less := PieceIs(d, name, unit);
      PiecesRead(p, next, units[1..], less, seconds, total + w);
      PieceComes(p, q, name, unit, w);
      PieceReads(p, next, q, name, w, Pieces(units[1..], less, seconds), total, less);
    }
  }

  // ----- Whole durations -----

  lemma TrimmedAlready(space: string -> bool, s: string)
    requires SpaceIsSpace(space) && s != "" && Printed(s[0]) && Printed(s[|s| - 1])
    ensures TrimRight(space, TrimLeft(space, s)) == s
  {
    NotSpace(space, s);
    NotSpaceAtEnd(space, s);
  }

  // A text that reads as d, with or without a sign before it.
  lemma SignedRead(scan: Scanner, text: string, d: int, negative: bool, planted: bool)
    requires StartsDigit(text) && UnitLetter(text[|text| - 1]) && 0 <= d <= MAX64
    requires scan(text) == if planted then Panicked else Parsed(d)
    ensures ParseTrimmed(scan, if negative then "-" + text else text)
         == if planted then Panicked else Parsed(if negative then -d else d)
  {
    assert !AllDigits(text) by { assert !IsDigit(text[|text| - 1]); }
    if negative { assert ("-" + text)[1..] == text; }
  }

  lemma TextRead(p: Setup, text: string, d: int, negative: bool)
    requires SpaceIsSpace(p.space) && StartsDigit(text) && UnitLetter(text[|text| - 1]) && 0 <= d <= MAX64
    requires ScannerOf(p)(text) == if p.planted then Panicked else Parsed(d)
    ensures Parse(p, if negative then "-" + text else text)
         == if p.planted then Panicked else Parsed(if negative then -d else d)
  {
    var s := if negative then "-" + text else text;
    assert s[|s| - 1] == text[|text| - 1];
    TrimmedAlready(p.space, s);
    SignedRead(ScannerOf(p), text, d, negative, p.planted);
  }

  lemma UnitsPrintable(p: Setup)
    requires p.values == VALUES
    ensures Printable(p, "s", SECOND) && AllPrintable(p, PRINTED)
  {
    UnitValues();
    var w, d, h, m := "w", "d", "h", "m";
    assert Printable(p, w, WEEK) && Printable(p, d, DAY) && Printable(p, h, HOUR) && Printable(p, m, MINUTE);
    assert PRINTED[0] == (w, WEEK) && PRINTED[1] == (d, DAY) && PRINTED[2] == (h, HOUR) && PRINTED[3] == (m, MINUTE);
  }

  lemma UnitValues()
    ensures ValueOf(VALUES, "w") == WEEK && ValueOf(VALUES, "d") == DAY && ValueOf(VALUES, "h") == HOUR
    ensures ValueOf(VALUES, "m") == MINUTE && ValueOf(VALUES, "s") == SECOND
  {
  }

  lemma ZeroScanned(p: Setup, next: Rounds)
    requires Scans(p, next) && Printable(p, "s", SECOND) && ExactOnPieces(p.amount)
    ensures Segments(p, next, "0s", 0) == if p.planted then Panicked else Parsed(0)
  {
    assert Decimal(0) + ("s" + "") == "0s";
    assert next(Decimal(0) + ("s" + "")) == Found(p.planted, 0, "s", "");
    assert Emits(0, SECOND);
    assert p.amount(0 as real, SECOND) == 0 * SECOND;
  }

  // All that the round trip asks of the tables and the libraries.
  ghost predicate Ready(p: Setup) {
    Usable(p) && Printable(p, "s", SECOND) && AllPrintable(p, PRINTED) && ExactOnPieces(p.amount)
  }

  // The printed form of d, apart from its sign.
  function Body(d: int, seconds: int -> string): string {
    if d == 0 then "0s" else Pieces(PRINTED, d, seconds)
  }

  lemma BodyScanned(p: Setup, next: Rounds, d: int, seconds: int -> string)
    requires Scans(p, next) && Printable(p, "s", SECOND) && AllPrintable(p, PRINTED) && ExactOnPieces(p.amount)
    requires PrintsWhole(seconds) && 0 <= d <= MAX64 && d % SECOND == 0
    ensures var text := Body(d, seconds);
            && StartsDigit(text) && UnitLetter(text[|text| - 1])
            && Segments(p, next, text, 0) == if p.planted then Panicked else Parsed(d)
  {
    if d == 0 {
      ZeroScanned(p, next);
    } else {
      PrintedEmits(d);
      PiecesRead(p, next, PRINTED, d, seconds, 0);
    }
  }

  lemma BodyRead(p: Setup, d: int, seconds: int -> string)
    requires Ready(p) && PrintsWhole(seconds) && 0 <= d <= MAX64 && d % SECOND == 0
    ensures var text := Body(d, seconds);
            && StartsDigit(text) && UnitLetter(text[|text| - 1])
            && ScannerOf(p)(text) == if p.planted then Panicked else Parsed(d)
  {
    RoundsScan(p);
    BodyScanned(p, RoundsOf(p), d, seconds);
  }

  lemma FormatIs(d: int, seconds: int -> string)
    requires MIN64 < d <= MAX64
    ensures Format(d, seconds) == if d < 0 then "-" + Body(-d, seconds) else Body(d, seconds)
  {
  }

  // Reading back a printed duration of whole seconds yields that duration; as written, with the
  // planted slice access, it panics every time.
  lemma RoundTrip(p: Setup, d: int, seconds: int -> string)
    requires Ready(p) && PrintsWhole(seconds) && MIN64 <= d <= MAX64 && d % SECOND == 0
    ensures Parse(p, Format(d, seconds)) == if p.planted then Panicked else Parsed(d)
  {
    var m := if d < 0 then -d else d;
    FormatIs(d, seconds);
    BodyRead(p, m, seconds);
    TextRead(p, Body(m, seconds), m, d < 0);
  }

  // The parser of the program: the suffix table as Init leaves it, the values of the units, the
  // white space of Unicode, and binary64.
  function Program(suffixes: seq<string>, planted: bool): Setup {
    Setup(suffixes, VALUES, UnicodeSpace, ParseFloat64, Product64, planted)
  }

  lemma ProgramIsReady(p: Setup, planted: bool)
    requires Table(p.suffixes, UNITS) && p == Program(p.suffixes, planted)
    ensures Ready(p)
  {
    UnitsPrintable(p);
    TableReadsUnits(p.suffixes);
    UnicodeSpaceIsSpace();
    FloatsParseWhole();
    FloatsExactOnPieces();
  }

  // So what the program prints for a duration of whole seconds, the program reads back.
  lemma ProgramRoundTrip(suffixes: seq<string>, d: int, seconds: int -> string, planted: bool)
    requires Table(suffixes, UNITS) && PrintsWhole(seconds) && MIN64 <= d <= MAX64 && d % SECOND == 0
    ensures Parse(Program(suffixes, planted), Format(d, seconds)) == if planted then Panicked else Parsed(d)
  {
    var p := Program(suffixes, planted);
    ProgramIsReady(p, planted);
    RoundTrip(p, d, seconds);
  }

  lemma {:induction false} NothingPrinted(units: seq<(string, int)>, d: int, seconds: int -> string)
    requires d <= 0 && forall i :: 0 <= i < |units| ==> 0 < units[i].1
    ensures Pieces(units, d, seconds) == ""
  {
    if units != [] {
      NoPiece(d, units[0].0, units[0].1);
      NothingPrinted(units[1..], d, seconds);
    }
  }

  lemma NoPiece(d: int, name: string, unit: int)
    requires d <= 0 < unit
    ensures Piece(d, name, unit) == "" && Less(d, unit) == d
  {
    DivAtLeast(-d, unit, 0);
  }

  // A positive duration prints as something that ends in a unit.
  lemma {:induction false} SomethingPrinted(units: seq<(string, int)>, d: int, seconds: int -> string)
    requires 0 < d
    requires forall i :: 0 <= i < |units| ==> 0 < units[i].1 && |units[i].0| == 1 && UnitLetter(units[i].0[0])
    ensures var text := Pieces(units, d, seconds); text != "" && UnitLetter(text[|text| - 1])
  {
    if units != [] {
      var unit := units[0].1;
      var piece, rest := Piece(d, units[0].0, unit), Less(d, unit);
      LessIs(d, unit);
      if rest > 0 {
        SomethingPrinted(units[1..], rest, seconds);
      } else {
        NothingPrinted(units[1..], rest, seconds);
      }
    }
  }

  lemma LeastPrinted(seconds: int -> string)
    ensures Format(MIN64, seconds) == "-"
  {
    assert Wrap64(-MIN64) == MIN64;
    NothingPrinted(PRINTED, MIN64, seconds);
  }

  // Of all 64-bit durations exactly the least, which has no positive counterpart, is printed as a
  // lone sign, ...
  lemma LoneSignExactly(d: int, seconds: int -> string)
    requires MIN64 <= d <= MAX64
    ensures Format(d, seconds) == "-" <==> d == MIN64
  {
    if d == MIN64 {
      LeastPrinted(seconds);
    } else if d != 0 {
      var m := if d < 0 then -d else d;
      SomethingPrinted(PRINTED, m, seconds);
      var text := Pieces(PRINTED, m, seconds);
      assert text != "-" by { assert text[|text| - 1] != '-'; }
      assert d < 0 ==> |"-" + text| > 1;
    }
  }

  // ... which does not parse.
  lemma LeastDurationIsLost(p: Setup, seconds: int -> string)
    requires SpaceIsSpace(p.space)
    ensures Parse(p, Format(MIN64, seconds)) == Failed(SignOnly)
  {
    LeastPrinted(seconds);
    NotSpace(p.space, "-");
    NotSpaceAtEnd(p.space, "-");
  }
}
