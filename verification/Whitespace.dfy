/**
 Trimming as package strings does it, on text in UTF-8: a sequence of bytes, a char each.
 */
module Whitespace {

  // The UTF-8 forms of the white space characters of Unicode.
  predicate UnicodeSpace(t: string) {
    || (|t| == 1 && ('\t' <= t[0] <= '\r' || t[0] == ' '))
    || (|t| == 2 && t[0] == '\U{00C2}' && (t[1] == '\U{0085}' || t[1] == '\U{00A0}'))
    || (|t| == 3 && t[0] == '\U{00E1}' && t[1] == '\U{009A}' && t[2] == '\U{0080}')
    || (|t| == 3 && t[0] == '\U{00E2}' && t[1] == '\U{0080}'
        && ('\U{0080}' <= t[2] <= '\U{008A}' || t[2] == '\U{00A8}' || t[2] == '\U{00A9}' || t[2] == '\U{00AF}'))
    || (|t| == 3 && t[0] == '\U{00E2}' && t[1] == '\U{0081}' && t[2] == '\U{009F}')
    || (|t| == 3 && t[0] == '\U{00E3}' && t[1] == '\U{0080}' && t[2] == '\U{0080}')
  }

  // The length of the white space character a text starts with, or ends with; 0 if there is none.
  function LeadingSpace(space: string -> bool, s: string): (k: nat)
    ensures k <= |s|
  {
    if |s| >= 1 && space(s[..1]) then 1
    else if |s| >= 2 && space(s[..2]) then 2
    else if |s| >= 3 && space(s[..3]) then 3
    else 0
  }

  function TrailingSpace(space: string -> bool, s: string): (k: nat)
    ensures k <= |s|
  {
    if |s| >= 1 && space(s[|s| - 1..]) then 1
    else if |s| >= 2 && space(s[|s| - 2..]) then 2
    else if |s| >= 3 && space(s[|s| - 3..]) then 3
    else 0
  }

  function TrimLeft(space: string -> bool, s: string): (r: string)
    ensures |r| <= |s|
  {
    var k := LeadingSpace(space, s);
    if k == 0 then s else TrimLeft(space, s[k..])
  }

  function TrimRight(space: string -> bool, s: string): (r: string)
    ensures |r| <= |s|
  {
    var k := TrailingSpace(space, s);
    if k == 0 then s else TrimRight(space, s[..|s| - k])
  }

  // What is trimmed is white space, and all of it: the result neither starts nor ends with any.
  lemma {:induction false} TrimmedLeft(space: string -> bool, s: string)
    ensures LeadingSpace(space, TrimLeft(space, s)) == 0
    ensures forall c :: space([c]) ==> TrimLeft(space, [c] + s) == TrimLeft(space, s)
    decreases |s|
  {
    if LeadingSpace(space, s) != 0 { TrimmedLeft(space, s[LeadingSpace(space, s)..]); }
    forall c | space([c]) ensures TrimLeft(space, [c] + s) == TrimLeft(space, s) {
      assert ([c] + s)[..1] == [c] && ([c] + s)[1..] == s;
    }
  }

  lemma {:induction false} TrimmedRight(space: string -> bool, s: string)
    ensures TrailingSpace(space, TrimRight(space, s)) == 0
    ensures forall c :: space([c]) ==> TrimRight(space, s + [c]) == TrimRight(space, s)
    decreases |s|
  {
    var k := TrailingSpace(space, s);
    if k != 0 { TrimmedRight(space, s[..|s| - k]); }
    forall c | space([c]) ensures TrimRight(space, s + [c]) == TrimRight(space, s) {
      assert (s + [c])[|s|..] == [c] && (s + [c])[..|s|] == s;
    }
  }

  // strings.TrimSpace.
  function TrimSpace(s: string): string {
    TrimRight(UnicodeSpace, TrimLeft(UnicodeSpace, s))
  }
}
