/**
 The fake clock of pkg/clock/clock.go as objects, proved to do what ClockModel says.
 */
module FakeClock {
  import opened Wrappers
  import opened ClockModel
  import opened ClockTheorems

  class FakeTimer {
    var dead: int
    var fired: bool
    var stopped: bool
    var once: bool          // whether the sync.Once of Stop is used up
    var ch: Option<int>

    constructor (dead: int)
      ensures State() == Timer(dead, false, false, false, None)
    {
      this.dead, fired, stopped, once, ch := dead, false, false, false, None;
    }

    function State(): Timer
      reads this
    {
      Timer(dead, fired, stopped, once, ch)
    }

    // The part of Advance that concerns a pending timer; whether it stays pending.
    method FireIfDue(target: int) returns (stays: bool)
      modifies this
      ensures State() == Fire(old(State()), target) && stays == Stays(old(State()), target)
    {
      if stopped { return false; }
      if dead <= target {
        if ch == None { ch := Some(target); }
        fired := true;
        return false;
      }
      return true;
    }
  }

  class FakeTicker {
    var next: int
    var d: int
    var stopped: bool
    var ch: Option<int>
    ghost var base: int

    constructor (now: int, d: int)
      ensures State() == Ticker(now + d, d, false, None, now)
    {
      next, this.d, stopped, ch, base := now + d, d, false, None, now;
    }

    ghost function State(): Ticker
      reads this
    {
      Ticker(next, d, stopped, ch, base)
    }

    method TickUntil(target: int)
      requires !Endless(State(), target)
      modifies this
      ensures State() == Tick(old(State()), target)
    {
      if stopped { return; }
      if d <= 0 { return; }
      while next <= target
        invariant d == old(d) && stopped == old(stopped) && base == old(base)
        invariant CatchUp(State(), target) == CatchUp(old(State()), target)
        decreases target - next
      {
        if ch == None { ch := Some(next); }
        next := next + d;
      }
    }
  }

  // What the loop over the pending timers comes to from a point where it has kept some.
  function Onward(kept: seq<nat>, ts: seq<Timer>, ids: seq<nat>, target: int): (seq<Timer>, seq<nat>) {
    var (all, rest) := FireAll(ts, ids, target);
    (all, kept + rest)
  }

  lemma OnwardNext(kept: seq<nat>, ts: seq<Timer>, ids: seq<nat>, k: nat, target: int)
    requires k < |ids| && ids[k] < |ts|
    ensures var i := ids[k];
            var kept' := if Stays(ts[i], target) then kept + [i] else kept;
            Onward(kept, ts, ids[k..], target) == Onward(kept', ts[i := Fire(ts[i], target)], ids[k + 1..], target)
  {
    var i := ids[k];
    var rest := FireAll(ts[i := Fire(ts[i], target)], ids[k + 1..], target).1;
    assert ids[k..][1..] == ids[k + 1..];
    assert kept + ([i] + rest) == kept + [i] + rest;
  }

  lemma OnwardEnds(kept: seq<nat>, ts: seq<Timer>, ids: seq<nat>, target: int)
    ensures Onward([], ts, ids, target) == FireAll(ts, ids, target) && Onward(kept, ts, [], target) == (ts, kept)
  {
    assert [] + FireAll(ts, ids, target).1 == FireAll(ts, ids, target).1 && kept + [] == kept;
  }

  class Fake {
    var now: int
    var timers: seq<FakeTimer>       // pending
    var tickers: seq<FakeTicker>
    ghost var model: Clock
    ghost var all: seq<FakeTimer>    // every timer ever made
    ghost var timerSet: set<FakeTimer>
    ghost var tickerSet: set<FakeTicker>

    ghost predicate TimersOk()
      reads this, timerSet
    {
      && |all| == |model.timers|
      && (forall i :: 0 <= i < |all| ==> all[i] in timerSet && all[i].State() == model.timers[i])
      && (forall i, j :: 0 <= i < j < |all| ==> all[i] != all[j])
    }

    ghost predicate Lists(ts: seq<FakeTimer>, ids: seq<nat>)
      reads this
    {
      && |ts| == |ids|
      && forall k :: 0 <= k < |ids| ==> ids[k] < |all| && ts[k] == all[ids[k]]
    }

    ghost predicate TickersOk()
      reads this, tickerSet
    {
      && |tickers| == |model.tickers|
      && (forall i :: 0 <= i < |tickers| ==> tickers[i] in tickerSet && tickers[i].State() == model.tickers[i])
      && (forall i, j :: 0 <= i < j < |tickers| ==> tickers[i] != tickers[j])
    }

    ghost predicate Valid()
      reads this, timerSet, tickerSet
    {
      && model.now == now && ClockModel.Valid(model)
      && TimersOk() && Lists(timers, model.pending) && TickersOk()
    }

    constructor (start: int)
      ensures Valid() && model == Clock(start, [], [], []) && fresh(timerSet) && fresh(tickerSet)
    {
      now, timers, tickers := start, [], [];
      model, all, timerSet, tickerSet := Clock(start, [], [], []), [], {}, {};
    }

    method FireOne(ghost i: nat, t: FakeTimer, target: int) returns (stays: bool)
      requires TimersOk() && i < |all| && t == all[i]
      modifies this`model, t
      ensures TimersOk() && stays == Stays(old(model).timers[i], target)
      ensures model == old(model).(timers := old(model).timers[i := Fire(old(model).timers[i], target)])
    {
      stays := t.FireIfDue(target);
      model := model.(timers := model.timers[i := t.State()]);
    }

    // The loop of Advance over the pending timers.
    method FireTimers(target: int)
      requires TimersOk() && Lists(timers, model.pending) && ClockModel.Valid(model)
      modifies this`model, this`timers, timerSet
      ensures TimersOk() && Lists(timers, model.pending)
      ensures var (ts, kept) := FireAll(old(model).timers, old(model).pending, target);
              model == old(model).(timers := ts, pending := kept)
    {
      var kept: seq<FakeTimer> := [];
      ghost var ids := model.pending;
      ghost var keptIds: seq<nat> := [];
      ghost var before := model;
      assert ids[0..] == ids;
      OnwardEnds([], model.timers, ids, target);
      for k := 0 to |timers|
        invariant TimersOk() && timers == old(timers) && Lists(timers, ids) && Lists(kept, keptIds)
        invariant model == before.(timers := model.timers)
        invariant Onward(keptIds, model.timers, ids[k..], target) == FireAll(before.timers, ids, target)
      {
        OnwardNext(keptIds, model.timers, ids, k, target);
        var stays := FireOne(ids[k], timers[k], target);
        if stays {
          kept := kept + [timers[k]];
          keptIds := keptIds + [ids[k]];
        }
      }
      assert ids[|timers|..] == [];
      OnwardEnds(keptIds, model.timers, [], target);
      timers := kept;
      model := model.(pending := keptIds);
    }

    method TickOne(i: nat, target: int)
      requires TickersOk() && i < |tickers| && !Endless(model.tickers[i], target)
      modifies this`model, tickers[i]
      ensures TickersOk()
      ensures model == old(model).(tickers := old(model).tickers[i := Tick(old(model).tickers[i], target)])
    {
      tickers[i].TickUntil(target);
      model := model.(tickers := model.tickers[i := tickers[i].State()]);
    }

    // The loop of Advance over the tickers.
    method RunTickers(target: int)
      requires TickersOk() && forall i :: 0 <= i < |model.tickers| ==> !Endless(model.tickers[i], target)
      modifies this`model, tickerSet
      ensures TickersOk() && model == old(model).(tickers := TickAll(old(model).tickers, target))
    {
      ghost var before := model;
      for i := 0 to |tickers|
        invariant TickersOk() && |model.tickers| == |before.tickers| && model == before.(tickers := model.tickers)
        invariant forall j :: 0 <= j < i ==> model.tickers[j] == Tick(before.tickers[j], target)
        invariant forall j :: i <= j < |tickers| ==> model.tickers[j] == before.tickers[j]
      {
        TickOne(i, target);
      }
      assert model.tickers == TickAll(before.tickers, target);
    }

    method Advance(d: int)
      requires Valid() && !Hangs(model, d)
      modifies this`now, this`model, this`timers, timerSet, tickerSet
      ensures Valid() && model == ClockModel.Advance(old(model), d)
    {
      if d < 0 { return; }
      AdvanceTimers(model, d);
      SetNow(now + d);
      Trigger(now);
    }

    method SetNow(target: int)
      requires TimersOk() && Lists(timers, model.pending) && TickersOk()
      modifies this`now, this`model
      ensures TimersOk() && Lists(timers, model.pending) && TickersOk()
      ensures now == target && model == old(model).(now := target)
    {
      now := target;
      model := model.(now := target);
    }

    // The part of Advance behind the step of the time.
    method Trigger(target: int)
      requires TimersOk() && Lists(timers, model.pending) && TickersOk() && ClockModel.Valid(model)
      requires forall i :: 0 <= i < |model.tickers| ==> !Endless(model.tickers[i], target)
      modifies this`model, this`timers, timerSet, tickerSet
      ensures TimersOk() && Lists(timers, model.pending) && TickersOk()
      ensures model == Clock(old(model).now, FireAll(old(model).timers, old(model).pending, target).0,
                             FireAll(old(model).timers, old(model).pending, target).1,
                             TickAll(old(model).tickers, target))
    {
      FireTimers(target);
      RunTickers(target);
    }

    method NewTimer(d: int) returns (t: FakeTimer)
      requires Valid()
      modifies this`model, this`timers, this`all, this`timerSet
      ensures Valid() && fresh(t) && timerSet == old(timerSet) + {t}
      ensures model == ClockModel.NewTimer(old(model), d) && all == old(all) + [t]
    {
      NewTimerKeepsValid(model, d);
      t := new FakeTimer(now + d);
      timers := timers + [t];
      all, timerSet := all + [t], timerSet + {t};
      model := ClockModel.NewTimer(model, d);
    }

    method StopTimer(t: FakeTimer, ghost i: nat) returns (r: bool)
      requires Valid() && i < |all| && t == all[i]
      modifies this`model, t
      ensures Valid() && (model, r) == ClockModel.StopTimer(old(model), i)
    {
      if !t.once { t.once, t.stopped := true, true; }
      model := ClockModel.StopTimer(model, i).0;
      return !t.fired;
    }

    method IsPending(t: FakeTimer, ghost i: nat) returns (found: bool)
      requires Valid() && i < |all| && t == all[i]
      ensures found <==> Member(model.pending, i)
    {
      found := false;
      for k := 0 to |timers|
        invariant found <==> exists l :: 0 <= l < k && timers[l] == t
      {
        if timers[k] == t { found := true; }
      }
      MemberAt(model.pending, i);
      if Member(model.pending, i) {
        var k :| 0 <= k < |model.pending| && model.pending[k] == i;
        assert timers[k] == t;
      }
    }

    method ResetTimer(t: FakeTimer, d: int, ghost i: nat) returns (already: bool)
      requires Valid() && i < |all| && t == all[i]
      modifies this`model, this`timers, t
      ensures Valid() && (model, already) == ClockModel.ResetTimer(old(model), i, d)
    {
      ResetKeepsValid(model, i, d);
      already := !t.stopped && !t.fired;
      var found := IsPending(t, i);
      Rearm(t, now + d, i);
      if !found { AddPending(t, i); }
    }

    method AddPending(t: FakeTimer, ghost i: nat)
      requires TimersOk() && Lists(timers, model.pending) && i < |all| && t == all[i]
      modifies this`model, this`timers
      ensures TimersOk() && Lists(timers, model.pending)
      ensures model == old(model).(pending := old(model).pending + [i])
    {
      timers := timers + [t];
      model := model.(pending := model.pending + [i]);
    }

    method Rearm(t: FakeTimer, dead: int, ghost i: nat)
      requires TimersOk() && i < |all| && t == all[i]
      modifies this`model, t
      ensures TimersOk()
      ensures model == old(model).(timers := old(model).timers[i := Timer(dead, false, false, t.once, t.ch)])
      ensures t.once == old(t.once) && t.ch == old(t.ch)
    {
      t.dead, t.fired, t.stopped := dead, false, false;
      model := model.(timers := model.timers[i := t.State()]);
    }

    // None is the panic on a period that is not positive.
    method NewTicker(d: int) returns (r: Option<FakeTicker>)
      requires Valid()
      modifies this`model, this`tickers, this`tickerSet
      ensures Valid() && model == ClockModel.NewTicker(old(model), d)
      ensures r.None? <==> d <= 0
      ensures r.Some? ==> fresh(r.value) && tickers == old(tickers) + [r.value]
      ensures r.Some? ==> tickerSet == old(tickerSet) + {r.value}
      ensures r.None? ==> tickers == old(tickers) && tickerSet == old(tickerSet)
    {
      if d <= 0 { return None; }
      var tk := new FakeTicker(now, d);
      tickers, tickerSet := tickers + [tk], tickerSet + {tk};
      model := ClockModel.NewTicker(model, d);
      return Some(tk);
    }

    method StopTicker(tk: FakeTicker, ghost i: nat)
      requires Valid() && i < |tickers| && tk == tickers[i]
      modifies this`model, tk
      ensures Valid() && model == ClockModel.StopTicker(old(model), i)
    {
      tk.stopped := true;
      model := ClockModel.StopTicker(model, i);
    }

    method ResetTicker(tk: FakeTicker, d: int, ghost i: nat)
      requires Valid() && i < |tickers| && tk == tickers[i]
      modifies this`model, tk
      ensures Valid() && model == ClockModel.ResetTicker(old(model), i, d)
    {
      tk.d, tk.next, tk.stopped, tk.base := d, now + d, false, now;
      model := ClockModel.ResetTicker(model, i, d);
    }
  }
}
