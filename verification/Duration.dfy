/**
 ParseDuration and FormatDuration of pkg/durationutil/duration.go as the loops they are, proved to
 compute the functions of DurationText.
 */
module Duration {
  import opened Wrappers
  import opened Whitespace
  import opened DurationUnits
  import Text = DurationText
  import opened DurationText

  method IsOnlyDigits(s: string) returns (b: bool)
    ensures b <==> s != "" && AllDigits(s)
  {
    if s == "" { return false; }
    for i := 0 to |s|
      invariant forall j :: 0 <= j < i ==> IsDigit(s[j])
    {
      if !IsDigit(s[i]) { return false; }
    }
    return true;
  }

  method ConsumeNumber(parseFloat: string -> Option<real>, s: string) returns (r: Number)
    ensures r == Text.ConsumeNumber(parseFloat, s)
  {
    var i := 0;
    var dot := 0;
    while i < |s|
      invariant 0 <= i <= |s| && 0 <= dot <= 1
      invariant NumberEnd(s, 0, 0) == NumberEnd(s, i, dot)
    {
      if IsDigit(s[i]) {
        i := i + 1;
      } else if s[i] == '.' {
        if dot == 1 { return NoNumber(TooManyDots); }
        dot := 1;
        i := i + 1;
      } else {
        break;
      }
    }
    if i == 0 { return NoNumber(NumberExpected); }
    var v := parseFloat(s[..i]);
    if v.None? { return NoNumber(BadNumber); }
    return Number(v.value, s[i..]);
  }

  method FindRound(p: Setup, text: string) returns (r: Round)
    ensures r == NextRound(p, text)
  {
    var s := TrimLeft(p.space, text);
    if s == "" { return End; }
    var n := ConsumeNumber(p.parseFloat, s);
    if n.NoNumber? { return Bad(n.why); }
    s := TrimLeft(p.space, n.rest);
    if s == "" { return Bare(n.v); }
    if p.planted && |s| == 1 { return Lone; }
    var u := ConsumeUnit(p.suffixes, s);
    if u.None? { return Bad(BadUnit); }
    return Segment(n.v, u.value, s[|u.value|..]);
  }

  // The loop over the segments.
  method ScanSegments(p: Setup, text: string) returns (r: Outcome)
    ensures r == ScannerOf(p)(text)
  {
    ghost var next := RoundsOf(p);
    var s, total := text, 0;
    var round := FindRound(p, s);
    while round.Segment?
      invariant round == next(s)
      invariant Segments(p, next, text, 0) == Segments(p, next, s, total)
      decreases |s|
    {
      s, total := round.rest, Added(p, round, total);
      round := FindRound(p, s);
    }
    return Closing(p, round, total);
  }

  method ParseDuration(p: Setup, text: string) returns (r: Outcome)
    ensures r == Parse(p, text)
  {
    var s := TrimRight(p.space, TrimLeft(p.space, text));
    if s == "" { return Parsed(0); }
    var sign := 1;
    if s[0] == '-' || s[0] == '+' {
      if s[0] == '-' { sign := -1; }
      s := s[1..];
      if s == "" { return Failed(SignOnly); }
    }
    var plain := IsOnlyDigits(s);
    if plain {
      if Digits(s) > MAX64 { return Failed(BadPlainNumber); }
      return Parsed(Wrap64(sign * Digits(s) * SECOND));
    }
    r := ScanSegments(p, s);
    if r.Parsed? { r := Parsed(Wrap64(sign * r.d)); }
  }

  // Append the whole units to the text, and take them off what remains.
  method WriteUnit(text: string, remaining: int, name: string, unit: int) returns (text': string, remaining': int)
    requires 0 < unit
    ensures text' == text + Piece(remaining, name, unit) && remaining' == Less(remaining, unit)
  {
    text', remaining' := text, remaining;
    var q := Quotient(remaining, unit);
    if q > 0 {
      text' := text + Decimal(q) + name;
      remaining' := remaining - q * unit;
    }
  }

  method FormatDuration(d: int, seconds: int -> string) returns (text: string)
    ensures text == Format(d, seconds)
  {
    if d == 0 { return "0s"; }
    text := "";
    var total := d;
    if d < 0 {
      text := "-";
      total := Wrap64(-d);
    }
    ghost var sign, d0 := text, total;
    text, total := WriteUnit(text, total, "w", WEEK);
    ghost var d1 := total;
    text, total := WriteUnit(text, total, "d", DAY);
    ghost var d2 := total;
    text, total := WriteUnit(text, total, "h", HOUR);
    ghost var d3 := total;
    text, total := WriteUnit(text, total, "m", MINUTE);
    if total > 0 { text := text + seconds(total) + "s"; }
    FourPieces(d0, seconds);
    assert text == sign + Pieces(PRINTED, d0, seconds) by {
      Regroup(sign, Piece(d0, "w", WEEK), Piece(d1, "d", DAY), Piece(d2, "h", HOUR), Piece(d3, "m", MINUTE),
              if total > 0 then seconds(total) + "s" else "");
    }
  }

  lemma Regroup(s: string, w: string, d: string, h: string, m: string, rest: string)
    ensures s + (w + (d + (h + (m + rest)))) == s + w + d + h + m + rest
  {
  }

  lemma FourPieces(d: int, seconds: int -> string)
    ensures var d1 := Less(d, WEEK);
            var d2 := Less(d1, DAY);
            var d3 := Less(d2, HOUR);
            var d4 := Less(d3, MINUTE);
            Pieces(PRINTED, d, seconds)
            == Piece(d, "w", WEEK) + (Piece(d1, "d", DAY) + (Piece(d2, "h", HOUR) + (Piece(d3, "m", MINUTE)
               + if d4 > 0 then seconds(d4) + "s" else "")))
  {
    var d1 := Less(d, WEEK);
    var d2 := Less(d1, DAY);
    var d3 := Less(d2, HOUR);
    PiecesFrom(PRINTED, d, seconds);
    PiecesFrom(PRINTED[1..], d1, seconds);
    PiecesFrom(PRINTED[2..], d2, seconds);
    PiecesFrom(PRINTED[3..], d3, seconds);
    assert PRINTED[1..][1..] == PRINTED[2..] && PRINTED[2..][1..] == PRINTED[3..] && PRINTED[3..][1..] == [];
  }
}
