/**
 The histogram of internal/metrics/registry.go and its export in internal/metrics/metrics_service.go.
 Samples are milliseconds, as unbounded integers; average and deviation are left out.
 */
module Histogram {
  import opened Wrappers
  import opened Quotients

  const RECENT := 1024
  const MAX64: int := 0x7fff_ffff_ffff_ffff
  const MIN64: int := -0x8000_0000_0000_0000
  const DEFAULT_BOUNDS := [1, 5, 10, 25, 50, 100, 250, 500, 1000, 2500, 5000, 10000]

  // ----- Sorting -----

  ghost predicate Ascending(s: seq<int>) {
    forall i, j :: 0 <= i < j < |s| ==> s[i] <= s[j]
  }

  ghost predicate Increasing(s: seq<int>) {
    forall i, j :: 0 <= i < j < |s| ==> s[i] < s[j]
  }

  function Insert(s: seq<int>, x: int): seq<int> {
    if s == [] || x <= s[0] then [x] + s else [s[0]] + Insert(s[1..], x)
  }

  // What sorting yields, however it is done.
  function Sorted(s: seq<int>): seq<int> {
    if s == [] then [] else Insert(Sorted(s[1..]), s[0])
  }

  lemma {:induction false} InsertMembers(s: seq<int>, x: int)
    ensures multiset(Insert(s, x)) == multiset(s) + multiset{x}
    ensures forall y :: y in Insert(s, x) ==> y in s || y == x
  {
    if s != [] && s[0] < x {
      InsertMembers(s[1..], x);
      assert s == [s[0]] + s[1..];
    }
  }

  lemma {:induction false} InsertAscends(s: seq<int>, x: int)
    requires Ascending(s)
    ensures Ascending(Insert(s, x))
  {
    if s != [] && s[0] < x {
      var r := Insert(s[1..], x);
      InsertAscends(s[1..], x);
      InsertMembers(s[1..], x);
      forall i | 0 <= i < |r| ensures s[0] <= r[i] { assert r[i] in r; }
    }
  }

  lemma {:induction false} SortedFacts(s: seq<int>)
    ensures Ascending(Sorted(s)) && multiset(Sorted(s)) == multiset(s) && |Sorted(s)| == |s|
  {
    if s != [] {
      SortedFacts(s[1..]);
      InsertMembers(Sorted(s[1..]), s[0]);
      InsertAscends(Sorted(s[1..]), s[0]);
      assert s == [s[0]] + s[1..];
    }
    assert |multiset(Sorted(s))| == |multiset(s)|;
  }

  // ----- Counting samples -----

  // How many samples are at most b.
  function AtMost(samples: seq<int>, b: int): (n: nat)
    ensures n <= |samples|
  {
    if samples == [] then 0
    else AtMost(samples[..|samples| - 1], b) + if samples[|samples| - 1] <= b then 1 else 0
  }

  lemma AtMostAppend(samples: seq<int>, x: int, b: int)
    ensures AtMost(samples + [x], b) == AtMost(samples, b) + if x <= b then 1 else 0
  {
    assert (samples + [x])[..|samples|] == samples;
  }

  lemma {:induction false} AtMostConcat(s: seq<int>, t: seq<int>, b: int)
    ensures AtMost(s + t, b) == AtMost(s, b) + AtMost(t, b)
  {
    if t == [] {
      assert s + t == s;
    } else {
      assert (s + t)[..|s + t| - 1] == s + t[..|t| - 1];
      AtMostConcat(s, t[..|t| - 1], b);
    }
  }

  lemma AtMostCons(x: int, s: seq<int>, b: int)
    ensures AtMost([x] + s, b) == AtMost(s, b) + if x <= b then 1 else 0
  {
    AtMostConcat([x], s, b);
    AtMostAppend([], x, b);
    assert [] + [x] == [x];
  }

  lemma {:induction false} AtMostInsert(s: seq<int>, x: int, b: int)
    ensures AtMost(Insert(s, x), b) == AtMost(s, b) + if x <= b then 1 else 0
  {
    if s == [] || x <= s[0] {
      AtMostCons(x, s, b);
    } else {
      AtMostInsert(s[1..], x, b);
      AtMostCons(s[0], Insert(s[1..], x), b);
      AtMostCons(s[0], s[1..], b);
      assert s == [s[0]] + s[1..];
    }
  }

  lemma {:induction false} AtMostSorted(s: seq<int>, b: int)
    ensures AtMost(Sorted(s), b) == AtMost(s, b)
  {
    if s != [] {
      AtMostSorted(s[1..], b);
      AtMostInsert(Sorted(s[1..]), s[0], b);
      AtMostCons(s[0], s[1..], b);
      assert s == [s[0]] + s[1..];
    }
  }

  lemma {:induction false} AllOrNone(s: seq<int>, b: int)
    ensures (forall i :: 0 <= i < |s| ==> s[i] <= b) ==> AtMost(s, b) == |s|
    ensures (forall i :: 0 <= i < |s| ==> s[i] > b) ==> AtMost(s, b) == 0
  {
    if s != [] { AllOrNone(s[..|s| - 1], b); }
  }

  lemma RankAbove(r: seq<int>, k: nat)
    requires Ascending(r) && k < |r|
    ensures k < AtMost(r, r[k])
  {
    assert r == r[..k + 1] + r[k + 1..];
    AtMostConcat(r[..k + 1], r[k + 1..], r[k]);
    AllOrNone(r[..k + 1], r[k]);
  }

  lemma RankBelow(r: seq<int>, k: nat)
    requires Ascending(r) && k < |r|
    ensures AtMost(r, r[k] - 1) <= k
  {
    assert r == r[..k] + r[k..];
    AtMostConcat(r[..k], r[k..], r[k] - 1);
    AllOrNone(r[k..], r[k] - 1);
  }

  // The k-th entry of the sorted samples has rank k: at least k + 1 samples are at most it, and
  // at most k are less.
  lemma RankOf(s: seq<int>, k: nat)
    requires k < |s|
    ensures |Sorted(s)| == |s|
    ensures AtMost(s, Sorted(s)[k] - 1) <= k < AtMost(s, Sorted(s)[k])
  {
    SortedFacts(s);
    var r := Sorted(s);
    AtMostSorted(s, r[k]);
    AtMostSorted(s, r[k] - 1);
    RankAbove(r, k);
    RankBelow(r, k);
  }

  // What bucket i must hold: the samples above the bound before it, up to its own.
  function BucketCount(samples: seq<int>, bounds: seq<int>, i: nat): int
    requires i < |bounds|
  {
    AtMost(samples, bounds[i]) - if i == 0 then 0 else AtMost(samples, bounds[i - 1])
  }

  function Beyond(samples: seq<int>, bounds: seq<int>): int {
    |samples| - if bounds == [] then 0 else AtMost(samples, bounds[|bounds| - 1])
  }

  // A further sample is counted where it belongs.
  lemma OneMore(samples: seq<int>, ms: int, bounds: seq<int>, idx: nat)
    requires Increasing(bounds) && idx <= |bounds|
    requires forall j :: 0 <= j < idx ==> bounds[j] < ms
    requires forall j :: idx <= j < |bounds| ==> ms <= bounds[j]
    ensures forall i :: 0 <= i < |bounds| ==>
              BucketCount(samples + [ms], bounds, i) == BucketCount(samples, bounds, i) + if i == idx then 1 else 0
    ensures Beyond(samples + [ms], bounds) == Beyond(samples, bounds) + if idx == |bounds| then 1 else 0
  {
    forall i | 0 <= i < |bounds|
      ensures BucketCount(samples + [ms], bounds, i)
           == BucketCount(samples, bounds, i) + if i == idx then 1 else 0
    {
      AtMostAppend(samples, ms, bounds[i]);
      if i > 0 { AtMostAppend(samples, ms, bounds[i - 1]); }
    }
    if bounds != [] { AtMostAppend(samples, ms, bounds[|bounds| - 1]); }
  }

  function Sum(s: seq<int>): int {
    if s == [] then 0 else Sum(s[..|s| - 1]) + s[|s| - 1]
  }

  // The least sample, if it is below the starting value.
  function Least(s: seq<int>): int {
    if s == [] then MAX64
    else
      var front := Least(s[..|s| - 1]);
      if s[|s| - 1] < front then s[|s| - 1] else front
  }

  function Greatest(s: seq<int>): int {
    if s == [] then MIN64
    else
      var front := Greatest(s[..|s| - 1]);
      if s[|s| - 1] > front then s[|s| - 1] else front
  }

  // They are the extremes of the samples: a sample each, once there are some.
  lemma {:induction false} Extremes(s: seq<int>)
    requires forall i :: 0 <= i < |s| ==> MIN64 <= s[i] <= MAX64
    ensures forall i :: 0 <= i < |s| ==> Least(s) <= s[i] <= Greatest(s)
    ensures s != [] ==> Least(s) in s && Greatest(s) in s
  {
    if |s| == 1 {
      assert s[..0] == [];
      assert s[0] in s;
    } else if s != [] {
      var front, x := s[..|s| - 1], s[|s| - 1];
      Extremes(front);
      assert s == front + [x];
      assert x in s && (forall y :: y in front ==> y in s);
    }
  }

  function LastOf(s: seq<int>, n: nat): seq<int> {
    if |s| <= n then s else s[|s| - n..]
  }

  // ----- The object -----

  // One line of the export; None is the bound +Inf.
  datatype Line = Line(le: Option<int>, count: int)

  class Histogram {
    const bounds: seq<int>
    var counts: seq<int>
    var infCount: int
    var sumMs: int
    var minMs: int
    var maxMs: int
    var total: int
    var recentBuf: seq<int>
    ghost var samples: seq<int>    // everything observed since the last reset

    ghost predicate Buckets()
      reads this
    {
      && Increasing(bounds) && (forall i :: 0 <= i < |bounds| ==> 0 < bounds[i])
      && |counts| == |bounds|
      && (forall i :: 0 <= i < |bounds| ==> counts[i] == BucketCount(samples, bounds, i))
      && infCount == Beyond(samples, bounds)
    }

    ghost predicate Valid()
      reads this
    {
      && Buckets()
      && total == |samples| && sumMs == Sum(samples)
      && minMs == Least(samples) && maxMs == Greatest(samples)
      && recentBuf == LastOf(samples, RECENT)
    }

    constructor (bounds: seq<int>)
      requires Increasing(bounds) && forall i :: 0 <= i < |bounds| ==> 0 < bounds[i]
      ensures Valid() && samples == [] && this.bounds == bounds
    {
      this.bounds := bounds;
      counts := seq(|bounds|, _ => 0);
      infCount, sumMs, minMs, maxMs, total := 0, 0, MAX64, MIN64, 0;
      recentBuf, samples := [], [];
    }

    // The first bound that is at least ms, by binary search.
    method Search(ms: int) returns (idx: nat)
      requires Increasing(bounds)
      ensures idx <= |bounds|
      ensures forall j :: 0 <= j < idx ==> bounds[j] < ms
      ensures forall j :: idx <= j < |bounds| ==> ms <= bounds[j]
    {
      var i, j := 0, |bounds|;
      while i < j
        invariant 0 <= i <= j <= |bounds|
        invariant forall k :: 0 <= k < i ==> bounds[k] < ms
        invariant forall k :: j <= k < |bounds| ==> ms <= bounds[k]
      {
        var h := (i + j) / 2;
        if bounds[h] < ms { i := h + 1; } else { j := h; }
      }
      idx := i;
    }

    method Count(ms: int)
      requires Buckets()
      modifies this`counts, this`infCount, this`samples
      ensures Buckets() && samples == old(samples) + [ms]
    {
      var idx := Search(ms);
      OneMore(samples, ms, bounds, idx);
      if idx < |bounds| {
        counts := counts[idx := counts[idx] + 1];
      } else {
        infCount := infCount + 1;
      }
      samples := samples + [ms];
    }

    method Remember(ms: int, ghost before: seq<int>)
      requires recentBuf == LastOf(before, RECENT)
      modifies this`recentBuf
      ensures recentBuf == LastOf(before + [ms], RECENT)
    {
      if |recentBuf| < RECENT {
        recentBuf := recentBuf + [ms];
      } else {
        recentBuf := recentBuf[1..RECENT] + [ms];
      }
    }

    method ObserveMs(ms: int)
      requires Valid()
      modifies this
      ensures Valid() && samples == old(samples) + [ms]
      ensures total == old(total) + 1 && sumMs == old(sumMs) + ms
      ensures minMs == if ms < old(minMs) then ms else old(minMs)
      ensures maxMs == if ms > old(maxMs) then ms else old(maxMs)
    {
      ghost var before := samples;
      assert (before + [ms])[..|before|] == before;
      total := total + 1;
      sumMs := sumMs + ms;
      if ms < minMs { minMs := ms; }
      if ms > maxMs { maxMs := ms; }
      Count(ms);
      Remember(ms, before);
    }

    // One histogram's share of ResetAll.
    method Reset()
      requires Valid()
      modifies this
      ensures Valid() && samples == []
    {
      counts := seq(|bounds|, _ => 0);
      infCount, sumMs, minMs, maxMs, total := 0, 0, MAX64, MIN64, 0;
      recentBuf, samples := [], [];
    }

    // The cumulative buckets of the export: the number of samples up to each bound, and all of them.
    method WriteBuckets() returns (lines: seq<Line>)
      requires Valid()
      ensures |lines| == |bounds| + 1
      ensures forall i :: 0 <= i < |bounds| ==> lines[i] == Line(Some(bounds[i]), AtMost(samples, bounds[i]))
      ensures lines[|bounds|] == Line(None, total) && total == |samples|
    {
      lines := [];
      var cumulative := 0;
      for i := 0 to |bounds|
        invariant |lines| == i && cumulative == if i == 0 then 0 else AtMost(samples, bounds[i - 1])
        invariant forall j :: 0 <= j < i ==> lines[j] == Line(Some(bounds[j]), AtMost(samples, bounds[j]))
      {
        cumulative := cumulative + counts[i];
        lines := lines + [Line(Some(bounds[i]), cumulative)];
      }
      cumulative := cumulative + infCount;
      lines := lines + [Line(None, cumulative)];
    }

    // The entry of the sorted recent samples that is nearest to the given percentage.
    method Quantiles() returns (p50: int, p90: int, p99: int)
      requires Valid()
      ensures var recent := LastOf(samples, RECENT);
              if recent == [] then p50 == p90 == p99 == 0
              else IsQuantile(recent, 50, p50) && IsQuantile(recent, 90, p90) && IsQuantile(recent, 99, p99)
      ensures p50 <= p90 <= p99
    {
      var buf := recentBuf;
      if |buf| == 0 { return 0, 0, 0; }
      SortedFacts(buf);
      var sorted := Sorted(buf);
      p50 := Pick(sorted, buf, 50);
      p90 := Pick(sorted, buf, 90);
      p99 := Pick(sorted, buf, 99);
      QuantilesAscend(buf, 50, 90, p50, p90);
      QuantilesAscend(buf, 90, 99, p90, p99);
    }
  }

  // p / 100 of the way through n samples, rounded half up.
  function Nearest(p: nat, n: nat): nat
    requires 0 < n
  {
    (2 * (p * (n - 1)) + 100) / 200
  }

  // k is the whole number nearest to p hundredths of n - 1, the upper one if two are.
  predicate NearestTo(k: int, p: nat, n: nat) {
    100 * k - 50 <= p * (n - 1) < 100 * k + 50
  }

  // The sample with that rank: at most k are less, and more than k are at most it.
  ghost predicate IsQuantile(samples: seq<int>, p: nat, v: int) {
    && |Sorted(samples)| == |samples| > 0
    && exists k :: 0 <= k < |samples| && Sorted(samples)[k] == v && NearestTo(k, p, |samples|)
                   && AtMost(samples, v - 1) <= k < AtMost(samples, v)
  }

  lemma QuantilesAscend(samples: seq<int>, p: nat, q: nat, v: int, w: int)
    requires p <= q && IsQuantile(samples, p, v) && IsQuantile(samples, q, w)
    ensures v <= w
  {
    SortedFacts(samples);
    var s, n := Sorted(samples), |samples|;
    var k :| 0 <= k < n && s[k] == v && NearestTo(k, p, n);
    var l :| 0 <= l < n && s[l] == w && NearestTo(l, q, n);
    MoreIsMore(p, q, n - 1);
  }

  lemma MoreIsMore(p: nat, q: nat, m: nat)
    requires p <= q
    ensures p * m <= q * m
  {
  }

  lemma NearestIs(p: nat, n: nat)
    requires 0 < n
    ensures NearestTo(Nearest(p, n), p, n)
  {
    var x := p * (n - 1);
    assert (2 * x + 100) / 200 * 200 <= 2 * x + 100 < (2 * x + 100) / 200 * 200 + 200;
  }

  lemma NearestInRange(p: nat, n: nat)
    requires 0 < n && p <= 100
    ensures Nearest(p, n) < n
  {
    var m := n - 1;
    assert p * m <= 100 * m;
  }

  method Pick(sorted: seq<int>, ghost samples: seq<int>, p: nat) returns (v: int)
    requires sorted == Sorted(samples) && |sorted| == |samples| > 0 && p <= 100
    ensures IsQuantile(samples, p, v)
  {
    var k := Nearest(p, |sorted|);
    NearestInRange(p, |sorted|);
    NearestIs(p, |sorted|);
    RankOf(samples, k);
    v := sorted[k];
  }

  lemma {:induction false} SortedSet(s: seq<int>)
    requires forall i, j :: 0 <= i < j < |s| ==> s[i] != s[j]
    ensures Increasing(Sorted(s)) && forall x :: x in Sorted(s) <==> x in s
  {
    SortedFacts(s);
    var r := Sorted(s);
    forall x ensures x in r <==> x in s { assert x in multiset(r) <==> x in multiset(s); }
    forall i, j | 0 <= i < j < |r| ensures r[i] < r[j] {
      if r[i] == r[j] { TwiceThere(r, i, j); OnceThere(s, r[i]); }
    }
  }

  lemma TwiceThere(r: seq<int>, i: nat, j: nat)
    requires i < j < |r| && r[i] == r[j]
    ensures multiset(r)[r[i]] >= 2
  {
    assert r == r[..j] + r[j..];
    assert r[i] == r[..j][i] && r[j] == r[j..][0];
  }

  lemma {:induction false} OnceThere(s: seq<int>, x: int)
    requires forall i, j :: 0 <= i < j < |s| ==> s[i] != s[j]
    ensures multiset(s)[x] <= 1
  {
    if s != [] {
      OnceThere(s[1..], x);
      assert s == [s[0]] + s[1..];
      if x == s[0] { assert s[0] !in s[1..]; }
    }
  }

  method PickOne(s: set<int>) returns (x: int)
    requires s != {}
    ensures x in s
  {
    assert (forall y: int :: y !in s) ==> s == {};
    x :| x in s;
  }

  // The positive ones of the given bounds, each once and in order; the default ones if none are given.
  method NewHistogram(given: seq<int>) returns (h: Histogram)
    ensures fresh(h) && h.Valid() && h.samples == []
    ensures forall b :: b in h.bounds <==> 0 < b && b in (if given == [] then DEFAULT_BOUNDS else given)
  {
    var bounds := if |given| == 0 then DEFAULT_BOUNDS else given;
    var uniq: set<int> := {};
    for i := 0 to |bounds|
      invariant forall b :: b in uniq <==> 0 < b && b in bounds[..i]
    {
      assert bounds[..i + 1] == bounds[..i] + [bounds[i]];
      if bounds[i] > 0 { uniq := uniq + {bounds[i]}; }
    }
    assert bounds[..|bounds|] == bounds;
    var out: seq<int> := [];
    var rest := uniq;
    while rest != {}
      invariant forall b :: b in uniq <==> b in rest || b in out
      invariant forall b :: b in out ==> b !in rest
      invariant forall i, j :: 0 <= i < j < |out| ==> out[i] != out[j]
      decreases rest
    {
      var b := PickOne(rest);
      out := out + [b];
      rest := rest - {b};
    }
    SortedSet(out);
    var sorted := Sorted(out);
    assert forall i :: 0 <= i < |sorted| ==> sorted[i] in sorted;
    h := new Histogram(sorted);
  }
}
