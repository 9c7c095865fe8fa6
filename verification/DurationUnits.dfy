/**
 The units of pkg/durationutil/duration.go: sorting their suffixes and finding the longest one that
 a text starts with. Text is a sequence of bytes, a char each.
 */
module DurationUnits {
  import opened Wrappers

  const SECOND := 1_000_000_000
  const MINUTE := 60 * SECOND
  const HOUR := 60 * MINUTE
  const DAY := 24 * HOUR
  const WEEK := 7 * DAY

  // ----- Units -----

  // The two spellings of the micro sign, in UTF-8.
  const MICRO_SIGN := "\U{00C2}\U{00B5}s"
  const GREEK_MU := "\U{00CE}\U{00BC}s"

  const UNITS := ["ns", "us", MICRO_SIGN, GREEK_MU, "ms", "s", "m", "h", "d", "w"]

  const VALUES: map<string, int> := map[
    "ns" := 1, "us" := 1_000, MICRO_SIGN := 1_000, GREEK_MU := 1_000, "ms" := 1_000_000,
    "s" := SECOND, "m" := MINUTE, "h" := HOUR, "d" := DAY, "w" := WEEK]

  predicate HasPrefix(s: string, u: string) {
    |u| <= |s| && s[..|u|] == u
  }

  predicate Descending(us: seq<string>) {
    forall i, j :: 0 <= i < j < |us| ==> |us[i]| >= |us[j]|
  }

  // The first i entries are no shorter than any entry behind them.
  ghost predicate Sorted(us: seq<string>, i: nat) {
    forall p, q :: 0 <= p < i && p < q < |us| ==> |us[p]| >= |us[q]|
  }

  method Swap(a: array<string>, i: nat, j: nat)
    requires i < j < a.Length && Sorted(a[..], i)
    modifies a
    ensures a[i] == old(a[j]) && a[j] == old(a[i])
    ensures forall k :: 0 <= k < a.Length && k != i && k != j ==> a[k] == old(a[k])
    ensures multiset(a[..]) == multiset(old(a[..])) && Sorted(a[..], i)
  {
    ghost var us := a[..];
    a[i], a[j] := a[j], a[i];
    assert a[..] == us[i := us[j]][j := us[i]];
    forall p, q | 0 <= p < i && p < q < a.Length ensures |a[..][p]| >= |a[..][q]| {
      assert |us[p]| >= |us[i]| && |us[p]| >= |us[j]| && |us[p]| >= |us[q]|;
    }
  }

  // Bring the longest of the entries from i on to place i.
  method Select(a: array<string>, i: nat)
    requires i < a.Length && Sorted(a[..], i)
    modifies a
    ensures multiset(a[..]) == multiset(old(a[..])) && Sorted(a[..], i + 1)
  {
    for j := i + 1 to a.Length
      invariant multiset(a[..]) == multiset(old(a[..]))
      invariant Sorted(a[..], i)
      invariant forall q :: i < q < j ==> |a[i]| >= |a[q]|
    {
      if |a[j]| > |a[i]| { Swap(a, i, j); }
    }
  }

  // Longer suffixes first.
  method SortSuffixes(a: array<string>)
    modifies a
    ensures Descending(a[..]) && multiset(a[..]) == multiset(old(a[..]))
  {
    for i := 0 to a.Length
      invariant multiset(a[..]) == multiset(old(a[..]))
      invariant Sorted(a[..], i)
    {
      Select(a, i);
    }
  }

  // The suffix table, from whatever order the map of units yields its keys in.
  method Init(order: seq<string>) returns (suffixes: array<string>)
    requires multiset(order) == multiset(UNITS)
    ensures fresh(suffixes) && Table(suffixes[..], UNITS)
  {
    suffixes := new string[|order|](i requires 0 <= i < |order| => order[i]);
    assert suffixes[..] == order;
    SortSuffixes(suffixes);
  }

  ghost predicate Table(us: seq<string>, units: seq<string>) {
    Descending(us) && multiset(us) == multiset(units)
  }

  function ConsumeUnit(us: seq<string>, s: string): (r: Option<string>)
    ensures r.Some? ==> r.value in us && HasPrefix(s, r.value)
  {
    if us == [] then None
    else if HasPrefix(s, us[0]) then Some(us[0])
    else ConsumeUnit(us[1..], s)
  }

  // The longest unit that the text starts with.
  ghost predicate Longest(units: seq<string>, s: string, u: string) {
    && u in units && HasPrefix(s, u)
    && forall v :: v in units && HasPrefix(s, v) && v != u ==> |v| < |u|
  }

  lemma {:induction false} FirstIsLongest(us: seq<string>, s: string)
    requires Descending(us)
    ensures var r := ConsumeUnit(us, s);
            && (r.None? ==> forall v :: v in us ==> !HasPrefix(s, v))
            && (r.Some? ==> r.value in us && HasPrefix(s, r.value)
                            && forall v :: v in us && HasPrefix(s, v) ==> |v| <= |r.value|)
  {
    if us != [] && !HasPrefix(s, us[0]) { FirstIsLongest(us[1..], s); }
  }

  lemma SameMembers(us: seq<string>, units: seq<string>, u: string)
    requires multiset(us) == multiset(units)
    ensures u in us <==> u in units
  {
    assert u in us <==> u in multiset(us);
    assert u in units <==> u in multiset(units);
  }

  // Whatever order the map yields its keys in, the scan finds the one longest unit, if any.
  lemma LongestMatch(us: seq<string>, units: seq<string>, s: string)
    requires Table(us, units)
    ensures forall u :: Longest(units, s, u) <==> ConsumeUnit(us, s) == Some(u)
    ensures (forall v :: v in units ==> !HasPrefix(s, v)) <==> ConsumeUnit(us, s) == None
  {
    FirstIsLongest(us, s);
    var r := ConsumeUnit(us, s);
    forall v ensures v in us <==> v in units { SameMembers(us, units, v); }
    if r.Some? {
      assert r.value in units && HasPrefix(s, r.value);
      forall v | v in units && HasPrefix(s, v) && |v| == |r.value| ensures v == r.value {
        assert s[..|v|] == s[..|r.value|];
      }
    }
  }

  lemma OrderIrrelevant(us: seq<string>, vs: seq<string>, units: seq<string>, s: string)
    requires Table(us, units) && Table(vs, units)
    ensures ConsumeUnit(us, s) == ConsumeUnit(vs, s)
  {
    LongestMatch(us, units, s);
    LongestMatch(vs, units, s);
  }
}
