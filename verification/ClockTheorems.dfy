/**
 What holds of the fake clock of pkg/clock/clock.go over its runs.
 */
module ClockTheorems {
  import opened Wrappers
  import opened Quotients
  import opened ClockModel

  // ----- One step is two steps -----

  // Equal but for the time a fired timer was sent.
  predicate Alike(t: Timer, u: Timer) {
    t.(ch := None) == u.(ch := None) && (t.ch == None <==> u.ch == None)
  }

  ghost predicate SameButTimes(c: Clock, c': Clock) {
    && c.now == c'.now && c.pending == c'.pending && c.tickers == c'.tickers && |c.timers| == |c'.timers|
    && forall i :: 0 <= i < |c.timers| ==> Alike(c.timers[i], c'.timers[i])
  }

  // The timers whose channel shows the difference.
  predicate SeesSteps(c: Clock, i: nat, d1: int, d2: int)
    requires i < |c.timers|
  {
    var t := c.timers[i];
    Member(c.pending, i) && !t.stopped && t.dead <= c.now + d1 && t.ch == None && d2 > 0
  }

  lemma AdvanceTimers(c: Clock, d: int)
    requires Valid(c) && d >= 0
    ensures var r := Advance(c, d);
            && Valid(r) && r.pending == Keep(c.pending, c.timers, c.now + d) && |r.timers| == |c.timers|
            && (forall i :: 0 <= i < |c.timers| ==>
                  r.timers[i] == if Member(c.pending, i) then Fire(c.timers[i], c.now + d) else c.timers[i])
  {
    FireAllIs(c.timers, c.pending, c.now + d);
    KeepDistinct(c.pending, c.timers, c.now + d);
    var kept := Keep(c.pending, c.timers, c.now + d);
    forall k | 0 <= k < |kept| ensures kept[k] < |c.timers| {
      MemberAt(kept, kept[k]);
      KeepMembers(c.pending, c.timers, c.now + d, kept[k]);
    }
  }

  lemma TickTwice(t: Ticker, a: int, b: int)
    requires a <= b
    ensures Tick(Tick(t, a), b) == Tick(t, b)
    ensures Endless(t, a) || Endless(Tick(t, a), b) <==> Endless(t, b)
  {
    if !t.stopped && 0 < t.d { CatchUpTwice(t, a, b); }
  }

  lemma {:induction false} TickAllTwice(tks: seq<Ticker>, a: int, b: int)
    requires a <= b
    ensures TickAll(TickAll(tks, a), b) == TickAll(tks, b)
  {
    if tks != [] {
      var n := |tks| - 1;
      TickAllTwice(tks[..n], a, b);
      TickTwice(tks[n], a, b);
      assert TickAll(tks, a)[..n] == TickAll(tks[..n], a);
    }
  }

  // One timer in two steps to a and to b, or in one step to b.
  lemma FireTwice(t: Timer, a: int, b: int)
    requires a <= b
    ensures var twice := if Stays(t, a) then Fire(Fire(t, a), b) else Fire(t, a);
            && Alike(twice, Fire(t, b))
            && (twice == Fire(t, b) <==> !(!t.stopped && t.dead <= a && t.ch == None && a < b))
  {
  }

  lemma AdvanceTimerTwice(c: Clock, d1: int, d2: int, i: nat)
    requires Valid(c) && 0 <= d1 && 0 <= d2 && i < |c.timers|
    ensures var once, twice := Advance(c, d1 + d2), Advance(Advance(c, d1), d2);
            && |twice.timers| == |once.timers| == |c.timers|
            && Alike(twice.timers[i], once.timers[i])
            && (twice.timers[i] == once.timers[i] <==> !SeesSteps(c, i, d1, d2))
  {
    var a, b := c.now + d1, c.now + d1 + d2;
    AdvanceTimers(c, d1);
    AdvanceTimers(c, d1 + d2);
    AdvanceTimers(Advance(c, d1), d2);
    KeepMembers(c.pending, c.timers, a, i);
    FireTwice(c.timers[i], a, b);
  }

  // Advancing twice is advancing once by the sum: same time, same timers pending in the same
  // order, same timers fired, same tickers; only a timer that fires in the first of two real
  // steps is sent an earlier time.
  lemma AdvanceTwice(c: Clock, d1: int, d2: int)
    requires Valid(c) && 0 <= d1 && 0 <= d2
    ensures var once, twice := Advance(c, d1 + d2), Advance(Advance(c, d1), d2);
            && SameButTimes(twice, once) && |once.timers| == |c.timers|
            && forall i :: 0 <= i < |c.timers| ==> (twice.timers[i] == once.timers[i] <==> !SeesSteps(c, i, d1, d2))
  {
    var once, mid := Advance(c, d1 + d2), Advance(c, d1);
    var twice := Advance(mid, d2);
    PendingTwice(c, d1, d2);
    TickersTwice(c, d1, d2);
    forall i | 0 <= i < |c.timers|
      ensures Alike(twice.timers[i], once.timers[i])
      ensures twice.timers[i] == once.timers[i] <==> !SeesSteps(c, i, d1, d2)
    {
      AdvanceTimerTwice(c, d1, d2, i);
    }
  }

  lemma TickersTwice(c: Clock, d1: int, d2: int)
    requires Valid(c) && 0 <= d1 && 0 <= d2
    ensures var once, twice := Advance(c, d1 + d2), Advance(Advance(c, d1), d2);
            && twice.tickers == once.tickers && twice.now == once.now
            && |twice.timers| == |once.timers| == |c.timers|
  {
    var a, b := c.now + d1, c.now + (d1 + d2);
    var mid := Advance(c, d1);
    AdvanceLength(c, d1, a);
    AdvanceLength(c, d1 + d2, b);
    AdvanceLength(mid, d2, b);
    TickAllTwice(c.tickers, a, b);
  }

  lemma AdvanceLength(c: Clock, d: int, target: int)
    requires Valid(c) && 0 <= d && target == c.now + d
    ensures Valid(Advance(c, d)) && |Advance(c, d).timers| == |c.timers|
    ensures Advance(c, d).now == target && Advance(c, d).tickers == TickAll(c.tickers, target)
  {
    AdvanceTimers(c, d);
  }

  lemma PendingTwice(c: Clock, d1: int, d2: int)
    requires Valid(c) && 0 <= d1 && 0 <= d2
    ensures Advance(Advance(c, d1), d2).pending == Advance(c, d1 + d2).pending
  {
    var mid := Advance(c, d1);
    AdvanceTimers(c, d1);
    AdvanceTimers(c, d1 + d2);
    AdvanceTimers(mid, d2);
    KeepTwice(c.pending, c.timers, mid.timers, c.now + d1, c.now + d1 + d2);
  }

  // It hangs in one of the two steps exactly when it hangs in the one.
  lemma HangsTwice(c: Clock, d1: int, d2: int)
    requires 0 <= d1 && 0 <= d2
    ensures Hangs(c, d1) || Hangs(Advance(c, d1), d2) <==> Hangs(c, d1 + d2)
  {
    var mid := Advance(c, d1);
    forall i | 0 <= i < |c.tickers|
      ensures Endless(c.tickers[i], c.now + d1) || Endless(mid.tickers[i], c.now + d1 + d2)
         <==> Endless(c.tickers[i], c.now + d1 + d2)
    {
      TickTwice(c.tickers[i], c.now + d1, c.now + d1 + d2);
    }
  }

  // ----- Timers -----

  // A timer that was reset and then stopped does not fire, unless Stop was called on it before
  // the reset: Stop works once in the life of a timer.
  lemma StopAfterReset(c: Clock, i: nat, d: int, e: int)
    requires Valid(c) && i < |c.timers| && 0 <= d <= e
    ensures var reset := ResetTimer(c, i, d).0;
            var stopped := StopTimer(reset, i).0;
            var after := Advance(stopped, e);
            Valid(stopped) && i < |after.timers| && (after.timers[i].fired <==> c.timers[i].once)
  {
    var reset := ResetTimer(c, i, d).0;
    var stopped := StopTimer(reset, i).0;
    ResetKeepsValid(c, i, d);
    MemberAppend(c.pending, i, i);
    AdvanceTimers(stopped, e);
  }

  // A new timer fires in the first step that reaches its time, which is what it is sent, and not before.
  lemma NewTimerFires(c: Clock, d: int, e: int)
    requires Valid(c) && 0 <= e
    ensures var after, i := Advance(NewTimer(c, d), e), |c.timers|;
            && i < |after.timers|
            && (after.timers[i].fired <==> d <= e)
            && after.timers[i].ch == (if d <= e then Some(c.now + e) else None)
            && (Member(after.pending, i) <==> e < d)
  {
    var c1 := NewTimer(c, d);
    NewTimerKeepsValid(c, d);
    MemberAppend(c.pending, |c.timers|, |c.timers|);
    AdvanceTimers(c1, e);
    KeepMembers(c1.pending, c1.timers, c1.now + e, |c.timers|);
  }

  // A timer reset fires d from then, whatever became of it before.
  lemma ResetTimerFires(c: Clock, i: nat, d: int, e: int)
    requires Valid(c) && i < |c.timers| && 0 <= e
    ensures var (r, active) := ResetTimer(c, i, d);
            var after := Advance(r, e);
            && (active <==> !c.timers[i].stopped && !c.timers[i].fired)
            && i < |after.timers| && (after.timers[i].fired <==> d <= e)
            && (Member(after.pending, i) <==> e < d)
  {
    var r := ResetTimer(c, i, d).0;
    ResetKeepsValid(c, i, d);
    MemberAppend(c.pending, i, i);
    AdvanceTimers(r, e);
    KeepMembers(r.pending, r.timers, r.now + e, i);
  }

  // The first Stop keeps a timer from firing, and says whether it had not fired yet.
  lemma StoppedNeverFires(c: Clock, i: nat, e: int)
    requires Valid(c) && i < |c.timers| && !c.timers[i].once && 0 <= e
    ensures var (s, active) := StopTimer(c, i);
            var after := Advance(s, e);
            && (active <==> !c.timers[i].fired)
            && i < |after.timers| && (after.timers[i].fired <==> c.timers[i].fired)
            && after.timers[i].ch == c.timers[i].ch && !Member(after.pending, i)
  {
    var s := StopTimer(c, i).0;
    AdvanceTimers(s, e);
    KeepMembers(s.pending, s.timers, s.now + e, i);
  }

  // A new ticker is sent its first tick when it is due, d from its start, and none before.
  lemma NewTickerTicks(c: Clock, d: int, e: int)
    requires Valid(c) && 0 < d && 0 <= e
    ensures var after, i := Advance(NewTicker(c, d), e), |c.tickers|;
            && i < |after.tickers|
            && after.tickers[i].ch == (if d <= e then Some(c.now + d) else None)
            && c.now + e < after.tickers[i].next <= c.now + e + d
  {
    var t := Ticker(c.now + d, d, false, None, c.now);
    CatchUpTo(t, c.now + e, 1);
    FirstAfterBounds(c.now, d, c.now + e);
  }

  lemma ResetKeepsValid(c: Clock, i: nat, d: int)
    requires Valid(c) && i < |c.timers|
    ensures Valid(ResetTimer(c, i, d).0)
  {
    if !Member(c.pending, i) { DistinctAppend(c.pending, i); }
  }

  lemma NewTimerKeepsValid(c: Clock, d: int)
    requires Valid(c)
    ensures Valid(NewTimer(c, d))
  {
    MemberAt(c.pending, |c.timers|);
    DistinctAppend(c.pending, |c.timers|);
  }

  // ----- Runs -----

  datatype Event =
    | NewTimerEv(d: int)
    | StopTimerEv(i: nat)
    | ResetTimerEv(i: nat, d: int)
    | ReadTimer(i: nat)
    | NewTickerEv(d: int)
    | StopTickerEv(i: nat)
    | ResetTickerEv(i: nat, d: int)
    | ReadTicker(i: nat)
    | AdvanceEv(d: int)

  function Step(c: Clock, ev: Event): Clock {
    match ev
    case NewTimerEv(d) => NewTimer(c, d)
    case StopTimerEv(i) => if i < |c.timers| then StopTimer(c, i).0 else c
    case ResetTimerEv(i, d) => if i < |c.timers| then ResetTimer(c, i, d).0 else c
    case ReadTimer(i) => if i < |c.timers| then c.(timers := c.timers[i := c.timers[i].(ch := None)]) else c
    case NewTickerEv(d) => NewTicker(c, d)
    case StopTickerEv(i) => if i < |c.tickers| then StopTicker(c, i) else c
    case ResetTickerEv(i, d) => if i < |c.tickers| then ResetTicker(c, i, d) else c
    case ReadTicker(i) => if i < |c.tickers| then c.(tickers := c.tickers[i := c.tickers[i].(ch := None)]) else c
    case AdvanceEv(d) => Advance(c, d)
  }

  function Run(start: int, evs: seq<Event>): Clock {
    if evs == [] then Clock(start, [], [], [])
    else Step(Run(start, evs[..|evs| - 1]), evs[|evs| - 1])
  }

  // A running ticker is due at the first multiple of its period after now.
  ghost predicate OnTime(t: Ticker, now: int) {
    && 0 < t.d && t.base <= now
    && (!t.stopped ==> t.next == FirstAfter(t.base, t.d, now))
  }

  ghost predicate AllOnTime(c: Clock) {
    forall i :: 0 <= i < |c.tickers| ==> OnTime(c.tickers[i], c.now)
  }

  predicate PositivePeriods(evs: seq<Event>) {
    forall i :: 0 <= i < |evs| && evs[i].ResetTickerEv? ==> 0 < evs[i].d
  }

  lemma FirstDeadline(base: int, d: int)
    requires 0 < d
    ensures FirstAfter(base, d, base) == base + d
  {
    FirstAfterIs(base, d, base, 1);
  }

  lemma FirstAfterBounds(base: int, d: int, now: int)
    requires 0 < d && base <= now
    ensures now < FirstAfter(base, d, now) <= now + d
    ensures exists k: nat :: 0 < k && FirstAfter(base, d, now) == base + k * d
  {
    var q := DivBounds(now - base, d);
    DivAtLeast(now - base, d, 0);
    Distribute(q, 1, d);
    assert FirstAfter(base, d, now) == base + (q + 1) * d;
  }

  lemma TickOnTime(t: Ticker, now: int, target: int)
    requires OnTime(t, now) && now <= target
    ensures OnTime(Tick(t, target), target)
  {
    if !t.stopped {
      var q := DivBounds(now - t.base, t.d);
      Distribute(q, 1, t.d);
      CatchUpTo(t, target, q + 1);
    }
  }

  lemma StepOnTime(c: Clock, ev: Event)
    requires Valid(c) && AllOnTime(c) && (ev.ResetTickerEv? ==> 0 < ev.d)
    ensures Valid(Step(c, ev)) && AllOnTime(Step(c, ev))
  {
    match ev
    case NewTimerEv(d) => NewTimerKeepsValid(c, d);
    case ResetTimerEv(i, d) => if i < |c.timers| { ResetKeepsValid(c, i, d); }
    case NewTickerEv(d) => if d > 0 { FirstDeadline(c.now, d); }
    case ResetTickerEv(i, d) => FirstDeadline(c.now, d);
    case AdvanceEv(d) =>
      if d >= 0 {
        AdvanceTimers(c, d);
        forall i | 0 <= i < |c.tickers| ensures OnTime(Step(c, ev).tickers[i], c.now + d) {
          TickOnTime(c.tickers[i], c.now, c.now + d);
        }
      }
    case _ =>
  }

  // In every run in which tickers are given positive periods, the deadline of each running ticker
  // is the first of base + d, base + 2d, ... after now, and no Advance hangs.
  lemma {:induction false} TickersOnTime(start: int, evs: seq<Event>, d: int)
    requires PositivePeriods(evs)
    ensures var c := Run(start, evs); Valid(c) && AllOnTime(c) && !Hangs(c, d)
  {
    if evs != [] {
      TickersOnTime(start, evs[..|evs| - 1], d);
      StepOnTime(Run(start, evs[..|evs| - 1]), evs[|evs| - 1]);
    }
  }

  // A reset with a period that is not positive makes the next Advance hang.
  lemma BadResetHangs(c: Clock, i: nat, d: int, e: int)
    requires i < |c.tickers| && 0 <= e
    ensures d <= 0 ==> Hangs(ResetTicker(c, i, d), e)
    ensures d > 0 && !Hangs(c, e) ==> !Hangs(ResetTicker(c, i, d), e)
  {
    var r := ResetTicker(c, i, d);
    if d <= 0 { assert Endless(r.tickers[i], r.now + e); }
    assert forall j :: 0 <= j < |c.tickers| && j != i ==> r.tickers[j] == c.tickers[j];
  }

  // ----- Any number of steps -----

  function AdvanceAll(c: Clock, ds: seq<int>): Clock {
    if ds == [] then c else Advance(AdvanceAll(c, ds[..|ds| - 1]), ds[|ds| - 1])
  }

  function Total(ds: seq<int>): int {
    if ds == [] then 0 else Total(ds[..|ds| - 1]) + ds[|ds| - 1]
  }

  lemma {:induction false} SameKeep(pending: seq<nat>, ts: seq<Timer>, us: seq<Timer>, target: int)
    requires |ts| == |us| && forall i :: 0 <= i < |ts| ==> Alike(ts[i], us[i])
    ensures Keep(pending, ts, target) == Keep(pending, us, target)
  {
    if pending != [] { SameKeep(pending[1..], ts, us, target); }
  }

  lemma AdvanceSame(c: Clock, c': Clock, d: int)
    requires Valid(c) && Valid(c') && SameButTimes(c, c') && 0 <= d
    ensures SameButTimes(Advance(c, d), Advance(c', d))
  {
    AdvanceTimers(c, d);
    AdvanceTimers(c', d);
    SameKeep(c.pending, c.timers, c'.timers, c.now + d);
  }

  lemma SameTransitive(a: Clock, b: Clock, c: Clock)
    requires SameButTimes(a, b) && SameButTimes(b, c)
    ensures SameButTimes(a, c)
  {
  }

  lemma OneMoreStep(c: Clock, c': Clock, d1: int, d2: int)
    requires Valid(c) && Valid(c') && 0 <= d1 && 0 <= d2 && SameButTimes(c', Advance(c, d1))
    ensures Valid(Advance(c', d2)) && SameButTimes(Advance(c', d2), Advance(c, d1 + d2))
  {
    AdvanceTimers(c, d1);
    AdvanceTimers(c', d2);
    AdvanceSame(c', Advance(c, d1), d2);
    AdvanceTwice(c, d1, d2);
    SameTransitive(Advance(c', d2), Advance(Advance(c, d1), d2), Advance(c, d1 + d2));
  }

  // However a stretch of time is cut into steps, the clock ends up the same but for the times
  // the fired timers were sent.
  lemma {:induction false} StepsDoNotMatter(c: Clock, ds: seq<int>)
    requires Valid(c) && ds != [] && forall i :: 0 <= i < |ds| ==> 0 <= ds[i]
    ensures 0 <= Total(ds) && Valid(AdvanceAll(c, ds)) && SameButTimes(AdvanceAll(c, ds), Advance(c, Total(ds)))
  {
    var front, d := ds[..|ds| - 1], ds[|ds| - 1];
    if front == [] {
      AdvanceTimers(c, d);
    } else {
      StepsDoNotMatter(c, front);
      OneMoreStep(c, AdvanceAll(c, front), Total(front), d);
    }
  }
}
