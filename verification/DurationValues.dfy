/**
 What the parser of pkg/durationutil/duration.go, without the marked slice access, makes of a text
 of numbers and units: the sum of their worths.
 */
module DurationValues {
  import opened Wrappers
  import opened Quotients
  import opened Whitespace
  import opened Binary64
  import opened DurationUnits
  import opened DurationText
  import opened DurationRoundTrip

  // ----- Units -----

  lemma UnitNames(v: string)
    requires v in UNITS
    ensures v != "" && v in VALUES && 0 < VALUES[v] <= WEEK
    ensures forall i :: 0 <= i < |v| ==> !IsDigit(v[i])
    ensures !IsDigit(v[|v| - 1]) && (v[|v| - 1] == 's' || UnitLetter(v[|v| - 1]))
  {
  }

  lemma ShorterPrefix(v: string, name: string, rest: string)
    requires HasPrefix(name + rest, v) && v != name && (forall i :: 0 <= i < |v| ==> !IsDigit(v[i]))
    requires rest == "" || StartsDigit(rest)
    ensures |v| < |name|
  {
    var s := name + rest;
    assert s[..|name|] == name;
  }

  // A unit is read as itself if a number or nothing follows.
  lemma AnyUnitRead(us: seq<string>, name: string, rest: string)
    requires Table(us, UNITS) && name in UNITS && (rest == "" || StartsDigit(rest))
    ensures ConsumeUnit(us, name + rest) == Some(name)
  {
    var s := name + rest;
    assert s[..|name|] == name;
    forall v | v in UNITS && HasPrefix(s, v) && v != name ensures |v| < |name| {
      UnitNames(v);
      ShorterPrefix(v, name, rest);
    }
    LongestMatch(us, UNITS, s);
    assert Longest(UNITS, s, name);
  }

  // No unit begins like white space.
  lemma UnitKept(name: string, rest: string)
    requires name in UNITS
    ensures TrimLeft(UnicodeSpace, name + rest) == name + rest != ""
  {
    var s := name + rest;
    UnitNames(name);
    assert s[0] == name[0] && (|name| >= 2 ==> s[1] == name[1]);
    assert !UnicodeSpace(s[..1]) && (|s| >= 2 ==> !UnicodeSpace(s[..2])) && (|s| >= 3 ==> !UnicodeSpace(s[..3]));
  }

  // ----- Rounds -----

  // What the rounds need of the white space, the numbers and the units.
  ghost predicate Able(p: Setup) {
    && !p.planted && SpaceIsSpace(p.space) && ParsesWhole(p.parseFloat)
    && (forall name, rest {:trigger ConsumeUnit(p.suffixes, name + rest)} |
          name in UNITS && (rest == "" || StartsDigit(rest)) ::
          ConsumeUnit(p.suffixes, name + rest) == Some(name) && TrimLeft(p.space, name + rest) == name + rest)
  }

  lemma ProgramIsAble(suffixes: seq<string>)
    requires Table(suffixes, UNITS)
    ensures Able(Program(suffixes, false))
  {
    UnicodeSpaceIsSpace();
    FloatsParseWhole();
    forall name, rest {:trigger ConsumeUnit(suffixes, name + rest)} |
        name in UNITS && (rest == "" || StartsDigit(rest))
      ensures ConsumeUnit(suffixes, name + rest) == Some(name)
      ensures TrimLeft(UnicodeSpace, name + rest) == name + rest
    {
      AnyUnitRead(suffixes, name, rest);
      UnitKept(name, rest);
    }
  }

  lemma RoundParts(p: Setup, n: nat, name: string, rest: string)
    requires !p.planted && SpaceIsSpace(p.space) && ParsesWhole(p.parseFloat) && n < MANTISSA
    requires name != "" && !IsDigit(name[0]) && name[0] != '.'
    requires ConsumeUnit(p.suffixes, name + rest) == Some(name) && TrimLeft(p.space, name + rest) == name + rest
    ensures NextRound(p, Decimal(n) + (name + rest)) == Segment(n as real, name, rest)
  {
    var tail := name + rest;
    DecimalFacts(n);
    Untrimmed(p.space, Decimal(n), tail);
    assert tail[0] == name[0] && tail[|name|..] == rest;
    ConsumeDecimal(p.parseFloat, n, tail);
  }

  lemma NameStarts(name: string)
    requires name in UNITS
    ensures name != "" && !IsDigit(name[0]) && name[0] != '.'
  {
  }

  lemma RoundIs(p: Setup, n: nat, name: string, rest: string)
    requires Able(p) && n < MANTISSA && name in UNITS && (rest == "" || StartsDigit(rest))
    ensures NextRound(p, Decimal(n) + (name + rest)) == Segment(n as real, name, rest)
  {
    NameStarts(name);
    assert ConsumeUnit(p.suffixes, name + rest) == Some(name);
    RoundParts(p, n, name, rest);
  }

  lemma BareIs(p: Setup, n: nat)
    requires Able(p) && n < MANTISSA
    ensures NextRound(p, Decimal(n)) == Bare(n as real)
  {
    DecimalFacts(n);
    NotSpace(p.space, Decimal(n));
    ConsumeDecimal(p.parseFloat, n, "");
    assert Decimal(n) + "" == Decimal(n);
    assert TrimLeft(p.space, "") == "";
  }

  // ----- Texts -----

  // Numbers with their units.
  function Text(ps: seq<(nat, string)>): string {
    if ps == [] then "" else Decimal(ps[0].0) + (ps[0].1 + Text(ps[1..]))
  }

  // And a number without one at the end.
  function Tail(bare: Option<nat>): string {
    match bare
    case None => ""
    case Some(n) => Decimal(n)
  }

  // What each unit is worth, in nanoseconds.
  function Nanoseconds(name: string): int {
    if name == "ns" then 1
    else if name == "us" || name == MICRO_SIGN || name == GREEK_MU then 1_000
    else if name == "ms" then 1_000_000
    else if name == "s" then 1_000_000_000
    else if name == "m" then 60_000_000_000
    else if name == "h" then 3_600_000_000_000
    else if name == "d" then 86_400_000_000_000
    else 604_800_000_000_000
  }

  function Worth(ps: seq<(nat, string)>, bare: Option<nat>): int {
    if ps != [] then ps[0].0 * Nanoseconds(ps[0].1) + Worth(ps[1..], bare)
    else match bare
      case None => 0
      case Some(n) => n * 1_000_000_000
  }

  lemma ValuesAre(name: string)
    requires name in UNITS
    ensures ValueOf(VALUES, name) == Nanoseconds(name) && 0 < Nanoseconds(name) < MANTISSA
  {
  }

  // ----- The value of a text -----

  // Every product is below two to the 53rd, where binary64 is exact.
  ghost predicate Fits(ps: seq<(nat, string)>, bare: Option<nat>) {
    if ps == [] then bare.Some? ==> bare.value * 1_000_000_000 < MANTISSA
    else ps[0].1 in UNITS && ps[0].0 * Nanoseconds(ps[0].1) < MANTISSA && Fits(ps[1..], bare)
  }

  lemma ProductGrows(n: nat, unit: nat)
    requires 0 < unit
    ensures n <= n * unit
  {
  }

  lemma PieceWorth(n: nat, unit: int, w: int)
    requires 0 < unit < MANTISSA && w == n * unit && w < MANTISSA
    ensures n <= w && Product64(n as real, unit) == w
  {
    ProductGrows(n, unit);
    ProductExact(n, unit, w, w, 0);
  }

  lemma {:induction false} TextStarts(ps: seq<(nat, string)>, bare: Option<nat>)
    ensures var t := Text(ps) + Tail(bare); t == "" || StartsDigit(t)
  {
    if ps != [] {
      DecimalFacts(ps[0].0);
    } else if bare.Some? {
      DecimalFacts(bare.value);
    }
  }

  // The rounds of the scan take the text apart.
  ghost predicate TakesApart(next: Rounds) {
    && Consumes(next) && next("") == End
    && (forall n: nat :: n < MANTISSA ==> next(Decimal(n)) == Bare(n as real))
    && (forall n: nat, name, rest {:trigger next(Decimal(n) + (name + rest))} |
          n < MANTISSA && name in UNITS && (rest == "" || StartsDigit(rest)) ::
          next(Decimal(n) + (name + rest)) == Segment(n as real, name, rest))
  }

  lemma RoundsTakeApart(p: Setup)
    requires Able(p)
    ensures TakesApart(RoundsOf(p))
  {
    EmptyEnds(p);
    forall n: nat | n < MANTISSA ensures RoundsOf(p)(Decimal(n)) == Bare(n as real) { BareIs(p, n); }
    forall n: nat, name, rest {:trigger RoundsOf(p)(Decimal(n) + (name + rest))} |
        n < MANTISSA && name in UNITS && (rest == "" || StartsDigit(rest))
      ensures RoundsOf(p)(Decimal(n) + (name + rest)) == Segment(n as real, name, rest)
    {
      RoundIs(p, n, name, rest);
    }
  }

  // A text that stands for d nanoseconds when `total` of them were already read.
  ghost predicate Sums(p: Setup, next: Rounds, text: string, total: int, d: int) {
    && Consumes(next) && 0 <= d
    && (0 <= total && total + d <= MAX64 ==> Segments(p, next, text, total) == Parsed(total + d))
  }

  // A number and its unit are read as w nanoseconds, whatever number follows.
  ghost predicate ReadsAs(p: Setup, next: Rounds, n: nat, name: string, w: int) {
    && 0 <= w && p.amount(n as real, ValueOf(p.values, name)) == w
    && forall rest :: rest == "" || StartsDigit(rest) ==>
         next(Decimal(n) + (name + rest)) == Segment(n as real, name, rest)
  }

  lemma PieceReadsAs(p: Setup, next: Rounds, n: nat, name: string)
    requires TakesApart(next) && p.values == VALUES && p.amount == Product64
    requires name in UNITS && n * Nanoseconds(name) < MANTISSA
    ensures ReadsAs(p, next, n, name, n * Nanoseconds(name))
  {
    ValuesAre(name);
    PieceWorth(n, Nanoseconds(name), n * Nanoseconds(name));
  }

  // The last number counts seconds.
  lemma LastNumber(p: Setup, next: Rounds, bare: Option<nat>, total: int)
    requires TakesApart(next) && p.amount == Product64 && Fits([], bare)
    ensures Sums(p, next, Tail(bare), total, Worth([], bare))
  {
    if bare.Some? { PieceWorth(bare.value, SECOND, bare.value * SECOND); }
  }

  // All pieces are read as what they are worth, and so is the last number.
  ghost predicate Readable(p: Setup, next: Rounds, ps: seq<(nat, string)>, bare: Option<nat>) {
    if ps == [] then forall total :: Sums(p, next, Tail(bare), total, Worth([], bare))
    else ReadsAs(p, next, ps[0].0, ps[0].1, ps[0].0 * Nanoseconds(ps[0].1)) && Readable(p, next, ps[1..], bare)
  }

  lemma {:induction false} AllReadable(p: Setup, next: Rounds, ps: seq<(nat, string)>, bare: Option<nat>)
    requires TakesApart(next) && p.values == VALUES && p.amount == Product64 && Fits(ps, bare)
    ensures Readable(p, next, ps, bare)
  {
    if ps == [] {
      forall total ensures Sums(p, next, Tail(bare), total, Worth([], bare)) { LastNumber(p, next, bare, total); }
    } else {
      PieceReadsAs(p, next, ps[0].0, ps[0].1);
      AllReadable(p, next, ps[1..], bare);
    }
  }

  lemma FirstSegment(p: Setup, next: Rounds, n: nat, name: string, w: int, rest: string, total: int, d: int)
    requires ReadsAs(p, next, n, name, w) && (rest == "" || StartsDigit(rest))
    requires Sums(p, next, rest, total + w, d)
    ensures Sums(p, next, Decimal(n) + (name + rest), total, w + d)
  {
    assert next(Decimal(n) + (name + rest)) == Segment(n as real, name, rest);
  }

  lemma {:induction false} SegmentsWorth(p: Setup, next: Rounds, ps: seq<(nat, string)>, bare: Option<nat>, total: int)
    requires Readable(p, next, ps, bare)
    ensures Sums(p, next, Text(ps) + Tail(bare), total, Worth(ps, bare))
    decreases |ps|
  {
    if ps == [] {
      assert Text(ps) + Tail(bare) == Tail(bare);
    } else {
      var w, rest := ps[0].0 * Nanoseconds(ps[0].1), Text(ps[1..]) + Tail(bare);
      SegmentsWorth(p, next, ps[1..], bare, total + w);
      TextStarts(ps[1..], bare);
      FirstSegment(p, next, ps[0].0, ps[0].1, w, rest, total, Worth(ps[1..], bare));
      Regroup(Decimal(ps[0].0), ps[0].1, Text(ps[1..]), Tail(bare));
    }
  }

  lemma Regroup(a: string, b: string, c: string, d: string)
    ensures (a + (b + c)) + d == a + (b + (c + d))
  {
  }

  // ----- Whole texts -----

  lemma {:induction false} TextEnds(ps: seq<(nat, string)>, bare: Option<nat>)
    requires Fits(ps, bare) && (ps != [] || bare.Some?)
    ensures var t := Text(ps) + Tail(bare); t != "" && Printed(t[|t| - 1])
    ensures ps != [] ==> !AllDigits(Text(ps) + Tail(bare))
  {
    var t := Text(ps) + Tail(bare);
    if ps != [] {
      var n, name, rest := ps[0].0, ps[0].1, Text(ps[1..]) + Tail(bare);
      UnitNames(name);
      Regroup(Decimal(n), name, Text(ps[1..]), Tail(bare));
      assert t[|Decimal(n)|] == name[0];
      if ps[1..] != [] || bare.Some? {
        TextEnds(ps[1..], bare);
        assert t[|t| - 1] == rest[|rest| - 1];
      } else {
        assert t[|t| - 1] == name[|name| - 1];
      }
    } else {
      DecimalFacts(bare.value);
    }
  }

  lemma TextShape(ps: seq<(nat, string)>, bare: Option<nat>)
    requires ps != [] && Fits(ps, bare)
    ensures var t := Text(ps) + Tail(bare); StartsDigit(t) && Printed(t[|t| - 1]) && !AllDigits(t)
  {
    TextStarts(ps, bare);
    TextEnds(ps, bare);
  }

  predicate Sign(sign: string) {
    sign == "" || sign == "+" || sign == "-"
  }

  lemma SignTrimmed(space: string -> bool, sign: string, t: string)
    requires SpaceIsSpace(space) && Sign(sign) && StartsDigit(t) && Printed(t[|t| - 1])
    ensures TrimRight(space, TrimLeft(space, sign + t)) == sign + t
    ensures Unsigned(sign + t) == t
  {
    var s := sign + t;
    assert s[|s| - 1] == t[|t| - 1];
    TrimmedAlready(space, s);
  }

  lemma SignedValue(scan: Scanner, sign: string, t: string, d: int)
    requires Sign(sign) && StartsDigit(t) && !AllDigits(t) && 0 <= d <= MAX64 && scan(t) == Parsed(d)
    ensures ParseTrimmed(scan, sign + t) == Parsed(if sign == "-" then -d else d)
  {
    var s := sign + t;
    assert s[0] == if sign == "" then t[0] else sign[0];
    assert sign != "" ==> s[1..] == t;
    assert sign == "" ==> s == t;
  }

  // A text of numbers and units that the scan reads as d.
  ghost predicate ScansAs(p: Setup, t: string, d: int) {
    && SpaceIsSpace(p.space) && StartsDigit(t) && Printed(t[|t| - 1]) && !AllDigits(t)
    && 0 <= d <= MAX64 && ScannerOf(p)(t) == Parsed(d)
  }

  lemma SignedText(p: Setup, sign: string, t: string, d: int)
    requires Sign(sign)
    requires var scans := ScansAs(p, t, d); scans
    ensures Parse(p, sign + t) == Parsed(if sign == "-" then -d else d)
  {
    SignTrimmed(p.space, sign, t);
    SignedValue(ScannerOf(p), sign, t, d);
  }

  lemma TextScanned(p: Setup, ps: seq<(nat, string)>, bare: Option<nat>)
    requires var able := Able(p); able
    requires p.values == VALUES && p.amount == Product64 && Fits(ps, bare) && Worth(ps, bare) <= MAX64
    ensures ScannerOf(p)(Text(ps) + Tail(bare)) == Parsed(Worth(ps, bare)) && 0 <= Worth(ps, bare)
  {
    RoundsTakeApart(p);
    AllReadable(p, RoundsOf(p), ps, bare);
    SegmentsWorth(p, RoundsOf(p), ps, bare, 0);
  }

  lemma TextScansAs(p: Setup, ps: seq<(nat, string)>, bare: Option<nat>)
    requires var able := Able(p); able
    requires p.values == VALUES && p.amount == Product64
    requires ps != [] && Fits(ps, bare) && Worth(ps, bare) <= MAX64
    ensures var scans := ScansAs(p, Text(ps) + Tail(bare), Worth(ps, bare)); scans
  {
    TextScanned(p, ps, bare);
    TextShape(ps, bare);
  }

  lemma ProgramScans(suffixes: seq<string>, ps: seq<(nat, string)>, bare: Option<nat>)
    requires Table(suffixes, UNITS) && ps != [] && Fits(ps, bare) && Worth(ps, bare) <= MAX64
    ensures var scans := ScansAs(Program(suffixes, false), Text(ps) + Tail(bare), Worth(ps, bare)); scans
  {
    ProgramIsAble(suffixes);
    TextScansAs(Program(suffixes, false), ps, bare);
  }

  // Main theorem: a text t of numbers with any of the units, in any order and with a number without
  // one at the end if there is one, and with or without a sign, is read as the sum d of its parts.
  lemma TextValue(suffixes: seq<string>, sign: string, ps: seq<(nat, string)>, bare: Option<nat>, t: string, d: int)
    requires Table(suffixes, UNITS) && Sign(sign) && ps != [] && Fits(ps, bare)
    requires t == Text(ps) + Tail(bare) && d == Worth(ps, bare) <= MAX64
    ensures Parse(Program(suffixes, false), sign + t) == Parsed(if sign == "-" then -d else d)
  {
    ProgramScans(suffixes, ps, bare);
    SignedText(Program(suffixes, false), sign, t, d);
  }

  // A number alone counts seconds, and is refused beyond 64 bits; the count wraps around in 64 bits.
  lemma PlainDigits(p: Setup, sign: string, n: nat)
    requires SpaceIsSpace(p.space) && Sign(sign)
    ensures Parse(p, sign + Decimal(n))
         == if n > MAX64 then Failed(BadPlainNumber)
            else Parsed(Wrap64((if sign == "-" then -1 else 1) * n * 1_000_000_000))
  {
    DecimalFacts(n);
    SignTrimmed(p.space, sign, Decimal(n));
    SignedDigits(ScannerOf(p), sign, Decimal(n));
  }

  lemma SignedDigits(scan: Scanner, sign: string, t: string)
    requires Sign(sign) && t != "" && AllDigits(t)
    ensures ParseTrimmed(scan, sign + t)
         == if Digits(t) > MAX64 then Failed(BadPlainNumber)
            else Parsed(Wrap64((if sign == "-" then -1 else 1) * Digits(t) * 1_000_000_000))
  {
    var s := sign + t;
    assert IsDigit(t[0]);
    assert s[0] == if sign == "" then t[0] else sign[0];
    assert sign != "" ==> s[1..] == t;
    assert sign == "" ==> s == t;
  }

  // Digits behind the dot count tenths, hundredths and so on: the number read is Digits divided by the
  // power of ten of Decimals.
  lemma FractionDigits(a: string, f: string)
    requires AllDigits(a) && AllDigits(f)
    ensures Digits(a + "." + f) == Digits(a) * Power10(|f|) + Digits(f) && Decimals(a + "." + f) == |f|
  {
    DotDigits(a, f);
    DotDecimals(a, f);
  }

  lemma {:induction false} DotDigits(a: string, f: string)
    requires AllDigits(f)
    ensures Digits(a + "." + f) == Digits(a) * Power10(|f|) + Digits(f)
  {
    var s := a + "." + f;
    if f == "" {
      assert s[..|s| - 1] == a && Power10(0) == 1;
    } else {
      var front := f[..|f| - 1];
      assert s[..|s| - 1] == a + "." + front && s[|s| - 1] == f[|f| - 1];
      DotDigits(a, front);
      TenTimes(Digits(a), Power10(|front|), Power10(|f|));
    }
  }

  lemma TenTimes(x: int, p: int, q: int)
    requires q == 10 * p
    ensures 10 * (x * p) == x * q
  {
  }

  lemma {:induction false} DotDecimals(a: string, f: string)
    requires AllDigits(a)
    ensures Decimals(a + "." + f) == |f|
  {
    var s := a + "." + f;
    if a == "" {
      assert s[0] == '.' && |s| == 1 + |f|;
    } else {
      assert s[1..] == a[1..] + "." + f && s[0] == a[0];
      DotDecimals(a[1..], f);
    }
  }

  // Numbers in decimal: one digit each, the last one counting ones.
  lemma DecimalIs(n: nat)
    ensures |Decimal(n)| > 0 && Decimal(n)[|Decimal(n)| - 1] as int - '0' as int == n % 10
    ensures n >= 10 ==> Decimal(n)[..|Decimal(n)| - 1] == Decimal(n / 10)
    ensures n < 10 ==> |Decimal(n)| == 1
  {
  }

  // ----- The printed form -----

  // n of a unit, if there are any.
  function Count(n: int, name: string): string {
    if n > 0 then Decimal(n) + name else ""
  }

  lemma PieceOf(d: int, name: string, unit: int)
    requires 0 <= d && 0 < unit
    ensures Piece(d, name, unit) == Count(d / unit, name) && Less(d, unit) == d % unit
  {
    LessIs(d, unit);
    DivAtLeast(d, unit, 0);
  }

  // A positive duration is printed as its weeks, the days beyond them, the hours beyond those, and the
  // minutes, each left out if there are none, and then the seconds, if any are left.
  lemma PrintedAs(d: int, seconds: int -> string)
    requires 0 < d
    ensures var rest := d % 60_000_000_000;
            Pieces(PRINTED, d, seconds) ==
              Count(d / 604_800_000_000_000, "w")
              + (Count(d % 604_800_000_000_000 / 86_400_000_000_000, "d")
                 + (Count(d % 86_400_000_000_000 / 3_600_000_000_000, "h")
                    + (Count(d % 3_600_000_000_000 / 60_000_000_000, "m")
                       + if rest > 0 then seconds(rest) + "s" else "")))
  {
    var d1 := d % WEEK;
    var d2 := d1 % DAY;
    var d3 := d2 % HOUR;
    Remainders(d);
    var m := [("m", MINUTE)];
    var h := [("h", HOUR)] + m;
    var w := [("d", DAY)] + h;
    assert PRINTED[1..] == w && w[1..] == h && h[1..] == m && m[1..] == [];
    OnePiece(PRINTED, d, "w", WEEK, seconds);
    OnePiece(w, d1, "d", DAY, seconds);
    OnePiece(h, d2, "h", HOUR, seconds);
    OnePiece(m, d3, "m", MINUTE, seconds);
  }

  lemma OnePiece(units: seq<(string, int)>, d: int, name: string, unit: int, seconds: int -> string)
    requires units != [] && (forall i :: 0 <= i < |units| ==> 0 < units[i].1)
    requires 0 <= d && units[0] == (name, unit)
    ensures Pieces(units, d, seconds) == Count(d / unit, name) + Pieces(units[1..], d % unit, seconds)
  {
    PieceOf(d, name, unit);
  }

  lemma Remainders(d: int)
    requires 0 <= d
    ensures d % WEEK % DAY == d % DAY && d % DAY % HOUR == d % HOUR && d % HOUR % MINUTE == d % MINUTE
  {
    RemainderOf(d, WEEK, 7, DAY);
    RemainderOf(d, DAY, 24, HOUR);
    RemainderOf(d, HOUR, 60, MINUTE);
  }

  lemma RemainderOf(d: int, large: int, k: int, unit: int)
    requires 0 <= d && 0 < unit && 0 < large && large == k * unit
    ensures d % large % unit == d % unit
  {
    var q, r := d / large, d % large;
    InUnits(d, q, r, large, k, unit);
    ModShift(r, unit, q * k);
  }

  lemma InUnits(d: int, q: int, r: int, large: int, k: int, unit: int)
    requires d == q * large + r && large == k * unit
    ensures d == r + (q * k) * unit
  {
    Product3(q, k, unit);
  }

  lemma ModShift(x: int, y: int, k: int)
    requires 0 < y
    ensures (x + k * y) % y == x % y
  {
    DivShift(x, y, k);
    Distribute(x / y, k, y);
  }

  lemma Product3(q: int, k: int, unit: int)
    ensures q * (k * unit) == (q * k) * unit
  {
  }
}
