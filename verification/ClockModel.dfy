/**
 The fake clock of pkg/clock/clock.go: what its operations do to the time, the timers and the
 tickers. Timers are numbered in the order of their creation, tickers by their place in the list.
 */
module ClockModel {
  import opened Wrappers
  import opened Quotients

  // A one-place channel: a value is dropped if the place is taken.
  function Send(ch: Option<int>, v: int): Option<int> {
    if ch == None then Some(v) else ch
  }

  // `once` is whether the sync.Once behind Stop is used up.
  datatype Timer = Timer(dead: int, fired: bool, stopped: bool, once: bool, ch: Option<int>)

  // `base` is when the ticker was started or last reset.
  datatype Ticker = Ticker(next: int, d: int, stopped: bool, ch: Option<int>, base: int)

  // `pending` is the clock's list of timers.
  datatype Clock = Clock(now: int, timers: seq<Timer>, pending: seq<nat>, tickers: seq<Ticker>)

  // ----- Advance -----

  // Whether a pending timer is kept when the clock reaches target.
  predicate Stays(t: Timer, target: int) {
    !t.stopped && target < t.dead
  }

  function Fire(t: Timer, target: int): Timer {
    if !t.stopped && t.dead <= target then t.(ch := Send(t.ch, target), fired := true) else t
  }

  // The loop over the pending timers: the timers after it, and those kept.
  function FireAll(ts: seq<Timer>, pending: seq<nat>, target: int): (seq<Timer>, seq<nat>)
    decreases |pending|
  {
    if pending == [] then (ts, [])
    else
      var i := pending[0];
      if i >= |ts| then FireAll(ts, pending[1..], target)
      else
        var (ts', kept) := FireAll(ts[i := Fire(ts[i], target)], pending[1..], target);
        (ts', if Stays(ts[i], target) then [i] + kept else kept)
  }

  // The ticks of a ticker up to target.
  function CatchUp(t: Ticker, target: int): Ticker
    requires 0 < t.d
    decreases target - t.next
  {
    if t.next > target then t
    else CatchUp(t.(ch := Send(t.ch, t.next), next := t.next + t.d), target)
  }

  // The loop over the ticks of this ticker would not end.
  predicate Endless(t: Ticker, target: int) {
    !t.stopped && t.d <= 0 && t.next <= target
  }

  function Tick(t: Ticker, target: int): Ticker {
    if t.stopped || t.d <= 0 then t else CatchUp(t, target)
  }

  function TickAll(tks: seq<Ticker>, target: int): (r: seq<Ticker>)
    ensures |r| == |tks|
    ensures forall i :: 0 <= i < |tks| ==> r[i] == Tick(tks[i], target)
  {
    if tks == [] then [] else TickAll(tks[..|tks| - 1], target) + [Tick(tks[|tks| - 1], target)]
  }

  ghost predicate Hangs(c: Clock, d: int) {
    d >= 0 && exists i :: 0 <= i < |c.tickers| && Endless(c.tickers[i], c.now + d)
  }

  function Advance(c: Clock, d: int): Clock {
    if d < 0 then c
    else
      var (ts, kept) := FireAll(c.timers, c.pending, c.now + d);
      Clock(c.now + d, ts, kept, TickAll(c.tickers, c.now + d))
  }

  // The list of pending timers names each timer at most once.
  ghost predicate Valid(c: Clock) {
    Distinct(c.pending) && forall k :: 0 <= k < |c.pending| ==> c.pending[k] < |c.timers|
  }

  // ----- The other operations -----

  function NewTimer(c: Clock, d: int): Clock {
    c.(timers := c.timers + [Timer(c.now + d, false, false, false, None)], pending := c.pending + [|c.timers|])
  }

  // Stop marks the timer only the first time it is called.
  function StopTimer(c: Clock, i: nat): (Clock, bool)
    requires i < |c.timers|
  {
    var t := c.timers[i];
    (c.(timers := c.timers[i := if t.once then t else t.(once := true, stopped := true)]), !t.fired)
  }

  function ResetTimer(c: Clock, i: nat, d: int): (Clock, bool)
    requires i < |c.timers|
  {
    var t := c.timers[i];
    (c.(timers := c.timers[i := t.(dead := c.now + d, fired := false, stopped := false)],
        pending := if Member(c.pending, i) then c.pending else c.pending + [i]),
     !t.stopped && !t.fired)
  }

  // A non-positive period panics.
  function NewTicker(c: Clock, d: int): Clock {
    if d <= 0 then c else c.(tickers := c.tickers + [Ticker(c.now + d, d, false, None, c.now)])
  }

  function StopTicker(c: Clock, i: nat): Clock
    requires i < |c.tickers|
  {
    c.(tickers := c.tickers[i := c.tickers[i].(stopped := true)])
  }

  function ResetTicker(c: Clock, i: nat, d: int): Clock
    requires i < |c.tickers|
  {
    c.(tickers := c.tickers[i := c.tickers[i].(d := d, next := c.now + d, stopped := false, base := c.now)])
  }

  // ----- Advancing the timers -----

  function Keep(pending: seq<nat>, ts: seq<Timer>, target: int): seq<nat> {
    if pending == [] then []
    else
      var rest := Keep(pending[1..], ts, target);
      if pending[0] < |ts| && Stays(ts[pending[0]], target) then [pending[0]] + rest else rest
  }

  predicate Member(pending: seq<nat>, i: nat) {
    pending != [] && (pending[0] == i || Member(pending[1..], i))
  }

  predicate Distinct(pending: seq<nat>) {
    pending != [] ==> !Member(pending[1..], pending[0]) && Distinct(pending[1..])
  }

  lemma {:induction false} KeepUpdate(pending: seq<nat>, ts: seq<Timer>, target: int, i: nat, t: Timer)
    requires i < |ts| && !Member(pending, i)
    ensures Keep(pending, ts[i := t], target) == Keep(pending, ts, target)
  {
    if pending != [] { KeepUpdate(pending[1..], ts, target, i, t); }
  }

  // Every pending timer is fired or kept by its own deadline, whatever the others do.
  lemma {:induction false} FireAllIs(ts: seq<Timer>, pending: seq<nat>, target: int)
    requires Distinct(pending)
    ensures var (ts', kept) := FireAll(ts, pending, target);
            && kept == Keep(pending, ts, target) && |ts'| == |ts|
            && forall i :: 0 <= i < |ts| ==> ts'[i] == if Member(pending, i) then Fire(ts[i], target) else ts[i]
    decreases |pending|
  {
    if pending != [] {
      var i := pending[0];
      if i < |ts| {
        FireAllIs(ts[i := Fire(ts[i], target)], pending[1..], target);
        KeepUpdate(pending[1..], ts, target, i, Fire(ts[i], target));
      } else {
        FireAllIs(ts, pending[1..], target);
      }
    }
  }

  lemma {:induction false} KeepMembers(pending: seq<nat>, ts: seq<Timer>, target: int, i: nat)
    ensures Member(Keep(pending, ts, target), i) <==> Member(pending, i) && i < |ts| && Stays(ts[i], target)
  {
    if pending != [] {
      KeepMembers(pending[1..], ts, target, i);
      var rest := Keep(pending[1..], ts, target);
      assert ([pending[0]] + rest)[1..] == rest;
    }
  }

  lemma {:induction false} KeepDistinct(pending: seq<nat>, ts: seq<Timer>, target: int)
    requires Distinct(pending)
    ensures Distinct(Keep(pending, ts, target))
  {
    if pending != [] {
      KeepDistinct(pending[1..], ts, target);
      KeepMembers(pending[1..], ts, target, pending[0]);
      var rest := Keep(pending[1..], ts, target);
      assert ([pending[0]] + rest)[1..] == rest;
    }
  }

  // What stays until the later target stayed until the earlier one.
  lemma {:induction false} KeepTwice(pending: seq<nat>, ts: seq<Timer>, us: seq<Timer>, a: int, b: int)
    requires a <= b && |us| == |ts|
    requires forall i :: 0 <= i < |ts| && Stays(ts[i], a) ==> us[i] == ts[i]
    ensures Keep(Keep(pending, ts, a), us, b) == Keep(pending, ts, b)
  {
    if pending != [] {
      KeepTwice(pending[1..], ts, us, a, b);
      var rest := Keep(pending[1..], ts, a);
      assert ([pending[0]] + rest)[1..] == rest;
    }
  }

  // ----- Advancing the tickers -----

  lemma {:induction false} CatchUpTwice(t: Ticker, a: int, b: int)
    requires 0 < t.d && a <= b
    ensures CatchUp(t, a).d == t.d && CatchUp(t, a).stopped == t.stopped
    ensures CatchUp(CatchUp(t, a), b) == CatchUp(t, b)
    decreases a - t.next
  {
    if t.next <= a { CatchUpTwice(t.(ch := Send(t.ch, t.next), next := t.next + t.d), a, b); }
  }

  // The first deadline of a ticker started at base that lies after now.
  function FirstAfter(base: int, d: int, now: int): int
    requires 0 < d
  {
    base + ((now - base) / d + 1) * d
  }

  lemma FirstAfterIs(base: int, d: int, now: int, k: int)
    requires 0 < d && base + (k - 1) * d <= now < base + k * d
    ensures FirstAfter(base, d, now) == base + k * d
  {
    Distribute(k - 1, 1, d);
    DivIs(now - base, d, k - 1);
  }

  lemma {:induction false} CatchUpTo(t: Ticker, target: int, k: int)
    requires 0 < t.d && t.next == t.base + k * t.d && t.base + (k - 1) * t.d <= target
    ensures var r := CatchUp(t, target);
            r == t.(next := FirstAfter(t.base, t.d, target),
                    ch := if t.next <= target then Send(t.ch, t.next) else t.ch)
    decreases target - t.next
  {
    if t.next > target {
      FirstAfterIs(t.base, t.d, target, k);
    } else {
      Distribute(k, 1, t.d);
      CatchUpTo(t.(ch := Send(t.ch, t.next), next := t.next + t.d), target, k + 1);
    }
  }

  // The loop over the ticks ends if and only if the period is positive or nothing is due.
  lemma TicksEnd(t: Ticker, target: int)
    requires !t.stopped
    ensures (exists k: nat :: t.next + k * t.d > target) <==> !Endless(t, target)
  {
    if t.next > target {
      assert t.next + 0 * t.d > target;
    } else if t.d > 0 {
      var k := target - t.next + 1;
      Above(k, t.d);
      assert t.next + k * t.d > target;
    } else {
      forall k: nat ensures t.next + k * t.d <= target { Below(k, t.d); }
    }
  }

  lemma Above(k: nat, d: int)
    requires d > 0
    ensures k * d >= k
  {
  }

  lemma Below(k: nat, d: int)
    requires d <= 0
    ensures k * d <= 0
  {
  }

  // ----- Members of the pending list -----

  lemma {:induction false} MemberAt(pending: seq<nat>, i: nat)
    ensures Member(pending, i) <==> exists k :: 0 <= k < |pending| && pending[k] == i
  {
    if pending != [] {
      MemberAt(pending[1..], i);
      if pending[0] != i && exists k :: 0 <= k < |pending| && pending[k] == i {
        var k :| 0 <= k < |pending| && pending[k] == i;
        assert pending[1..][k - 1] == i;
      }
      if Member(pending[1..], i) {
        var k :| 0 <= k < |pending[1..]| && pending[1..][k] == i;
        assert pending[k + 1] == i;
      }
    }
  }

  lemma {:induction false} MemberAppend(pending: seq<nat>, x: nat, i: nat)
    ensures Member(pending + [x], i) <==> Member(pending, i) || i == x
  {
    if pending == [] {
      assert pending + [x] == [x];
    } else {
      assert (pending + [x])[1..] == pending[1..] + [x];
      MemberAppend(pending[1..], x, i);
    }
  }

  lemma {:induction false} DistinctAppend(pending: seq<nat>, x: nat)
    requires Distinct(pending) && !Member(pending, x)
    ensures Distinct(pending + [x])
  {
    if pending == [] {
      assert pending + [x] == [x];
    } else {
      assert (pending + [x])[1..] == pending[1..] + [x];
      DistinctAppend(pending[1..], x);
      MemberAppend(pending[1..], x, pending[0]);
    }
  }
}
