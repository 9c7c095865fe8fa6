/**
 The call-sharing protocol of pkg/singleflight/singleflight.go as a transition system: any number
 of callers of Do and DoChan on any keys, with each lock-protected section, the end of fn, the
 release of the wait group and the return of a caller as one step each. (A DoChan caller is the
 goroutine that waits for it.)
 */
module Singleflight {
  import opened Wrappers

  datatype Value = Nil | Text(s: string) | Other(id: int)

  // How fn ends.
  datatype Outcome = Returns(val: Value, err: Option<string>) | Panics(msg: string)

  // Running fn; result stored; map entry dealt with; waiters released.
  datatype Phase = Running | Ran | Cleaned | Done

  datatype Call = Call(
    key: string, leader: nat, val: Value, err: Option<string>, dups: nat, forgotten: bool, phase: Phase)

  // A caller leads or waits for a call, or has got its result.
  datatype Caller = Leading(c: nat) | Waiting(c: nat) | Got(c: nat, val: Value, err: Option<string>, shared: bool)

  datatype Group = Group(m: map<string, nat>, calls: seq<Call>, callers: map<nat, Caller>)

  const EMPTY := Group(map[], [], map[])

  datatype Event =
    | Do(caller: nat, key: string)
    | Finish(c: nat, outcome: Outcome)
    | Cleanup(c: nat)
    | Release(c: nat)
    | Return(caller: nat)
    | Forget(key: string)

  predicate Enabled(g: Group, ev: Event) {
    match ev
    case Do(x, _) => x !in g.callers
    case Finish(c, _) => c < |g.calls| && g.calls[c].phase == Running
    case Cleanup(c) => c < |g.calls| && g.calls[c].phase == Ran
    case Release(c) => c < |g.calls| && g.calls[c].phase == Cleaned
    case Return(x) =>
      && x in g.callers && !g.callers[x].Got?
      && g.callers[x].c < |g.calls| && g.calls[g.callers[x].c].phase == Done
    case Forget(_) => true
  }

  function Next(g: Group, ev: Event): Group
    requires Enabled(g, ev)
  {
    match ev
    case Do(x, key) =>
      if key in g.m && g.m[key] < |g.calls| then
        var c := g.m[key];
        g.(calls := g.calls[c := g.calls[c].(dups := g.calls[c].dups + 1)], callers := g.callers[x := Waiting(c)])
      else
        var c := |g.calls|;
        Group(g.m[key := c], g.calls + [Call(key, x, Nil, None, 0, false, Running)], g.callers[x := Leading(c)])
    case Finish(c, outcome) =>
      // As written, a panic becomes a value and the error is cleared.
      var (val, err) := match outcome
        case Returns(v, e) => (v, e)
        case Panics(msg) => (Text(msg), None);
      g.(calls := g.calls[c := g.calls[c].(val := val, err := err, phase := Ran)])
    case Cleanup(c) =>
      var call := g.calls[c];
      var m := if !call.forgotten && call.key in g.m && g.m[call.key] == c then g.m - {call.key} else g.m;
      g.(m := m, calls := g.calls[c := call.(phase := Cleaned)])
    case Release(c) => g.(calls := g.calls[c := g.calls[c].(phase := Done)])
    case Return(x) =>
      var call := g.calls[g.callers[x].c];
      g.(callers := g.callers[x := Got(g.callers[x].c, call.val, call.err, g.callers[x].Waiting?)])
    case Forget(key) =>
      if key in g.m && g.m[key] < |g.calls| then
        var c := g.m[key];
        g.(m := g.m - {key}, calls := g.calls[c := g.calls[c].(forgotten := true)])
      else g
  }

  // The state after a run; events that are not enabled change nothing.
  function Run(evs: seq<Event>): Group {
    if evs == [] then EMPTY
    else
      var g := Run(evs[..|evs| - 1]);
      if Enabled(g, evs[|evs| - 1]) then Next(g, evs[|evs| - 1]) else g
  }

  // ----- The invariant -----

  predicate InFlight(call: Call) {
    call.phase == Running || call.phase == Ran
  }

  ghost function Joined(g: Group, c: nat): set<nat> {
    set x | x in g.callers
      && (g.callers[x] == Waiting(c) || (g.callers[x].Got? && g.callers[x].c == c && g.callers[x].shared))
  }

  // A call in the map is in flight, not forgotten and filed under its own key; conversely every
  // such call is in the map, so there is at most one per key.
  ghost predicate MapOk(g: Group) {
    && (forall k :: k in g.m ==>
          g.m[k] < |g.calls| && var call := g.calls[g.m[k]]; call.key == k && InFlight(call) && !call.forgotten)
    && (forall c :: 0 <= c < |g.calls| && InFlight(g.calls[c]) && !g.calls[c].forgotten ==>
          g.calls[c].key in g.m && g.m[g.calls[c].key] == c)
  }

  // Every caller belongs to a call, and each call has one leader.
  ghost predicate LeadersOk(g: Group) {
    && (forall x :: x in g.callers ==> g.callers[x].c < |g.calls|)
    && (forall x :: x in g.callers ==> (Unshared(g.callers[x]) <==> g.calls[g.callers[x].c].leader == x))
    && (forall c :: 0 <= c < |g.calls| ==> g.calls[c].leader in g.callers && g.callers[g.calls[c].leader].c == c)
  }

  predicate Unshared(a: Caller) {
    a.Leading? || (a.Got? && !a.shared)
  }

  // Whoever got a result got the one the finished call holds.
  ghost predicate ResultsOk(g: Group) {
    forall x :: x in g.callers && g.callers[x].Got? ==>
      && g.callers[x].c < |g.calls|
      && var call := g.calls[g.callers[x].c];
         call.phase == Done && g.callers[x].val == call.val && g.callers[x].err == call.err
  }

  ghost predicate CallersOk(g: Group) {
    LeadersOk(g) && ResultsOk(g)
  }

  ghost predicate DupsOk(g: Group) {
    forall c :: 0 <= c < |g.calls| ==> g.calls[c].dups == |Joined(g, c)|
  }

  // A caller who finds no call of its key starts one; otherwise it joins the one in the map.

  lemma StartKeeps(g: Group, x: nat, key: string)
    requires MapOk(g) && CallersOk(g) && x !in g.callers && key !in g.m
    ensures MapOk(Next(g, Do(x, key))) && CallersOk(Next(g, Do(x, key)))
    ensures forall c :: 0 <= c < |g.calls| ==> Joined(Next(g, Do(x, key)), c) == Joined(g, c)
    ensures Joined(Next(g, Do(x, key)), |g.calls|) == {}
  {
    StartMapOk(g, x, key);
    StartCallersOk(g, x, key);
    StartJoined(g, x, key);
  }

  lemma StartCallersOk(g: Group, x: nat, key: string)
    requires CallersOk(g) && x !in g.callers && key !in g.m
    ensures CallersOk(Next(g, Do(x, key)))
  {
    var g' := Next(g, Do(x, key));
    assert forall y :: y in g.callers ==> y != x && g'.callers[y] == g.callers[y];
    assert forall c :: 0 <= c < |g.calls| ==> g'.calls[c] == g.calls[c];
    assert ResultsOk(g');
    assert LeadersOk(g');
  }

  lemma StartJoined(g: Group, x: nat, key: string)
    requires CallersOk(g) && x !in g.callers && key !in g.m
    ensures forall c :: 0 <= c < |g.calls| ==> Joined(Next(g, Do(x, key)), c) == Joined(g, c)
    ensures Joined(Next(g, Do(x, key)), |g.calls|) == {}
  {
    var g' := Next(g, Do(x, key));
    assert forall y :: y in g.callers ==> y != x && g'.callers[y] == g.callers[y];
  }

  lemma StartMapOk(g: Group, x: nat, key: string)
    requires MapOk(g) && x !in g.callers && key !in g.m
    ensures MapOk(Next(g, Do(x, key)))
  {
    var g' := Next(g, Do(x, key));
    assert forall c :: 0 <= c < |g.calls| ==> g'.calls[c] == g.calls[c];
  }

  lemma JoinKeeps(g: Group, x: nat, key: string)
    requires MapOk(g) && CallersOk(g) && x !in g.callers && key in g.m
    ensures MapOk(Next(g, Do(x, key))) && CallersOk(Next(g, Do(x, key)))
    ensures forall c :: 0 <= c < |g.calls| ==>
              Joined(Next(g, Do(x, key)), c) == Joined(g, c) + if c == g.m[key] then {x} else {}
  {
    var g' := Next(g, Do(x, key));
    var waiting := g.(callers := g.callers[x := Waiting(g.m[key])]);
    WaiterAdded(g, x, g.m[key]);
    SameCallers(waiting, g');
    assert MapOk(g');
    forall c | 0 <= c < |g.calls| ensures Joined(g', c) == Joined(waiting, c) {}
  }

  lemma WaiterAdded(g: Group, x: nat, d: nat)
    requires CallersOk(g) && x !in g.callers && d < |g.calls|
    ensures var g' := g.(callers := g.callers[x := Waiting(d)]);
            && CallersOk(g')
            && forall c :: 0 <= c < |g.calls| ==> Joined(g', c) == Joined(g, c) + if c == d then {x} else {}
  {
    var g' := g.(callers := g.callers[x := Waiting(d)]);
    assert forall y :: y in g.callers ==> y != x && g'.callers[y] == g.callers[y];
    assert ResultsOk(g');
    assert LeadersOk(g');
  }

  lemma ReturnKeeps(g: Group, x: nat)
    requires MapOk(g) && CallersOk(g) && Enabled(g, Return(x))
    ensures MapOk(Next(g, Return(x))) && CallersOk(Next(g, Return(x)))
  {
    var g' := Next(g, Return(x));
    assert forall y :: y in g.callers && y != x ==> g'.callers[y] == g.callers[y];
    assert g'.calls == g.calls && g'.m == g.m;
    assert ResultsOk(g');
    assert Unshared(g'.callers[x]) == Unshared(g.callers[x]) && g'.callers[x].c == g.callers[x].c;
    assert LeadersOk(g');
  }

  lemma ReturnJoined(g: Group, x: nat)
    requires Enabled(g, Return(x))
    ensures forall c :: Joined(Next(g, Return(x)), c) == Joined(g, c)
  {
    var g' := Next(g, Return(x));
    assert forall y :: y in g.callers && y != x ==> g'.callers[y] == g.callers[y];
  }

  // The remaining steps touch no caller, and of the calls one that has not finished.
  lemma OtherKeeps(g: Group, ev: Event)
    requires MapOk(g) && CallersOk(g) && Enabled(g, ev) && !ev.Do? && !ev.Return?
    ensures MapOk(Next(g, ev)) && CallersOk(Next(g, ev))
    ensures Next(g, ev).callers == g.callers && |Next(g, ev).calls| == |g.calls|
    ensures forall c :: 0 <= c < |g.calls| ==> Next(g, ev).calls[c].dups == g.calls[c].dups
  {
    var g' := Next(g, ev);
    OtherMapOk(g, ev);
    OtherCalls(g, ev);
    SameCallers(g, g');
  }

  lemma OtherMapOk(g: Group, ev: Event)
    requires MapOk(g) && Enabled(g, ev) && !ev.Do? && !ev.Return?
    ensures MapOk(Next(g, ev))
  {
  }

  lemma OtherCalls(g: Group, ev: Event)
    requires MapOk(g) && Enabled(g, ev) && !ev.Do? && !ev.Return?
    ensures Next(g, ev).callers == g.callers && |Next(g, ev).calls| == |g.calls|
    ensures forall c :: 0 <= c < |g.calls| ==>
              var a, b := g.calls[c], Next(g, ev).calls[c];
              b.leader == a.leader && b.dups == a.dups && (a.phase == Done ==> b == a)
  {
  }

  lemma SameCallers(g: Group, g': Group)
    requires CallersOk(g) && g'.callers == g.callers && |g'.calls| == |g.calls|
    requires forall c :: 0 <= c < |g.calls| ==>
               var a, b := g.calls[c], g'.calls[c];
               b.leader == a.leader && (a.phase == Done ==> b == a.(dups := b.dups))
    ensures CallersOk(g')
  {
    assert ResultsOk(g');
    assert LeadersOk(g');
  }

  // A new caller is counted where it joins.
  lemma DoCounts(g: Group, x: nat, key: string, c: nat)
    requires DupsOk(g) && x !in g.callers && c < |g.calls|
    requires var joins := key in g.m && g.m[key] < |g.calls| && g.m[key] == c;
             Joined(Next(g, Do(x, key)), c) == Joined(g, c) + if joins then {x} else {}
    ensures Next(g, Do(x, key)).calls[c].dups == |Joined(Next(g, Do(x, key)), c)|
  {
    assert x !in Joined(g, c);
  }

  lemma DoKeeps(g: Group, x: nat, key: string)
    requires MapOk(g) && CallersOk(g) && DupsOk(g) && x !in g.callers
    ensures MapOk(Next(g, Do(x, key))) && CallersOk(Next(g, Do(x, key))) && DupsOk(Next(g, Do(x, key)))
  {
    var g' := Next(g, Do(x, key));
    if key in g.m { JoinKeeps(g, x, key); } else { StartKeeps(g, x, key); }
    forall c | 0 <= c < |g'.calls| ensures g'.calls[c].dups == |Joined(g', c)| {
      if c < |g.calls| { DoCounts(g, x, key, c); }
    }
  }

  // Nothing else changes the counts.
  lemma SameCounts(g: Group, g': Group)
    requires DupsOk(g) && |g'.calls| == |g.calls|
    requires forall c :: 0 <= c < |g.calls| ==> g'.calls[c].dups == g.calls[c].dups && Joined(g', c) == Joined(g, c)
    ensures DupsOk(g')
  {
  }

  lemma NextKeeps(g: Group, ev: Event)
    requires MapOk(g) && CallersOk(g) && DupsOk(g) && Enabled(g, ev)
    ensures MapOk(Next(g, ev)) && CallersOk(Next(g, ev)) && DupsOk(Next(g, ev))
  {
    var g' := Next(g, ev);
    if ev.Do? {
      DoKeeps(g, ev.caller, ev.key);
    } else if ev.Return? {
      ReturnKeeps(g, ev.caller);
      ReturnJoined(g, ev.caller);
      SameCounts(g, g');
    } else {
      OtherKeeps(g, ev);
      forall c ensures Joined(g', c) == Joined(g, c) {}
      SameCounts(g, g');
    }
  }

  lemma {:induction false} RunInvariant(evs: seq<Event>)
    ensures MapOk(Run(evs)) && CallersOk(Run(evs)) && DupsOk(Run(evs))
  {
    if evs != [] {
      var g, ev := Run(evs[..|evs| - 1]), evs[|evs| - 1];
      RunInvariant(evs[..|evs| - 1]);
      if Enabled(g, ev) {
        NextKeeps(g, ev);
      }
    }
  }

  // ----- What callers get -----

  // Main theorem: in every run, two callers that got the result of one call got the same value
  // and error; at most one of them, its leader, is told that it was not shared; and the call's
  // duplicate count is the number of those who wait to be told so or were.
  lemma SharedResult(evs: seq<Event>, x: nat, y: nat)
    requires var g := Run(evs);
             && x in g.callers && g.callers[x].Got? && y in g.callers && g.callers[y].Got?
             && g.callers[x].c == g.callers[y].c
    ensures var a, b := Run(evs).callers[x], Run(evs).callers[y];
            && a.val == b.val && a.err == b.err
            && (!a.shared && !b.shared ==> x == y)
            && a.c < |Run(evs).calls| && Run(evs).calls[a.c].dups == |Joined(Run(evs), a.c)|
  {
    RunInvariant(evs);
  }

  // At most one call per key is in flight and unforgotten, and it is the one in the map.
  lemma OneCallPerKey(evs: seq<Event>, c: nat, d: nat)
    requires var g := Run(evs); c < |g.calls| && d < |g.calls| && g.calls[c].key == g.calls[d].key
    requires var g := Run(evs);
             && InFlight(g.calls[c]) && !g.calls[c].forgotten
             && InFlight(g.calls[d]) && !g.calls[d].forgotten
    ensures c == d && Run(evs).calls[c].key in Run(evs).m
  {
    RunInvariant(evs);
  }

  // When every call has completed, the map is empty.
  lemma AllDoneEmpty(evs: seq<Event>)
    requires forall c :: 0 <= c < |Run(evs).calls| ==> !InFlight(Run(evs).calls[c])
    ensures Run(evs).m == map[]
  {
    RunInvariant(evs);
  }

  // Completion of a call takes out its own entry at most; a forgotten call takes out nothing,
  // not even its successor under the same key.
  lemma CleanupSparesSuccessor(evs: seq<Event>, c: nat)
    requires Enabled(Run(evs), Cleanup(c))
    ensures var g, g' := Run(evs), Next(Run(evs), Cleanup(c));
            && (forall k :: k in g'.m <==> k in g.m && g.m[k] != c)
            && (forall k :: k in g'.m ==> g'.m[k] == g.m[k])
            && (g.calls[c].forgotten ==> g'.m == g.m)
  {
    RunInvariant(evs);
    CleanupOwn(Run(evs), c);
  }

  lemma CleanupOwn(g: Group, c: nat)
    requires MapOk(g) && Enabled(g, Cleanup(c))
    ensures var g' := Next(g, Cleanup(c));
            && (forall k :: k in g'.m <==> k in g.m && g.m[k] != c)
            && (forall k :: k in g'.m ==> g'.m[k] == g.m[k])
            && (g.calls[c].forgotten ==> g'.m == g.m)
  {
  }

  // ----- fn runs once -----

  function Finishes(evs: seq<Event>, c: nat): nat {
    if evs == [] then 0
    else
      Finishes(evs[..|evs| - 1], c) +
      if evs[|evs| - 1].Finish? && evs[|evs| - 1].c == c && Enabled(Run(evs[..|evs| - 1]), evs[|evs| - 1]) then 1 else 0
  }

  // fn has ended once for a call that is past Running, and not at all otherwise.
  lemma {:induction false} RunsOnce(evs: seq<Event>, c: nat)
    ensures Finishes(evs, c) == if c < |Run(evs).calls| && Run(evs).calls[c].phase != Running then 1 else 0
  {
    if evs != [] {
      RunsOnce(evs[..|evs| - 1], c);
    }
  }

  // The result stored when fn ends is the one everybody gets.
  function ResultOf(outcome: Outcome): (Value, Option<string>) {
    match outcome
    case Returns(v, e) => (v, e)
    case Panics(msg) => (Text(msg), None)
  }

  lemma {:induction false} ResultKept(before: seq<Event>, c: nat, outcome: Outcome, after: seq<Event>)
    requires Enabled(Run(before), Finish(c, outcome))
    ensures var g := Run(before + [Finish(c, outcome)] + after);
            c < |g.calls| && g.calls[c].phase != Running && (g.calls[c].val, g.calls[c].err) == ResultOf(outcome)
    decreases |after|
  {
    var evs := before + [Finish(c, outcome)] + after;
    if after == [] {
      assert evs == before + [Finish(c, outcome)];
      assert evs[..|evs| - 1] == before;
    } else {
      assert evs[..|evs| - 1] == before + [Finish(c, outcome)] + after[..|after| - 1];
      ResultKept(before, c, outcome, after[..|after| - 1]);
    }
  }

  // Main theorem: whatever interleaves, every caller of a call gets exactly how fn ended.
  lemma EveryCallerGetsOutcome(before: seq<Event>, c: nat, outcome: Outcome, after: seq<Event>, x: nat)
    requires Enabled(Run(before), Finish(c, outcome))
    requires var g := Run(before + [Finish(c, outcome)] + after);
             x in g.callers && g.callers[x].Got? && g.callers[x].c == c
    ensures var a := Run(before + [Finish(c, outcome)] + after).callers[x]; (a.val, a.err) == ResultOf(outcome)
  {
    ResultKept(before, c, outcome, after);
    RunInvariant(before + [Finish(c, outcome)] + after);
  }

  // The package comment promises that a panic reaches the waiters as an error. As written it
  // does so for nobody: exactly when fn panics or returns no error does a caller see none.
  lemma ErrorSeenIff(before: seq<Event>, c: nat, outcome: Outcome, after: seq<Event>, x: nat)
    requires Enabled(Run(before), Finish(c, outcome))
    requires var g := Run(before + [Finish(c, outcome)] + after);
             x in g.callers && g.callers[x].Got? && g.callers[x].c == c
    ensures Run(before + [Finish(c, outcome)] + after).callers[x].err.Some? <==> outcome.Returns? && outcome.err.Some?
  {
    EveryCallerGetsOutcome(before, c, outcome, after, x);
  }

  // ----- Nobody is left waiting -----

  // What it takes to bring a caller of `call` to its result.
  function Completion(call: Call, c: nat, x: nat, outcome: Outcome): seq<Event> {
    match call.phase
    case Running => [Finish(c, outcome), Cleanup(c), Release(c), Return(x)]
    case Ran => [Cleanup(c), Release(c), Return(x)]
    case Cleaned => [Release(c), Return(x)]
    case Done => [Return(x)]
  }

  lemma RunAppend(evs: seq<Event>, ev: Event, rest: seq<Event>)
    ensures evs + [ev] + rest == evs + ([ev] + rest)
    ensures Run(evs + [ev]) == if Enabled(Run(evs), ev) then Next(Run(evs), ev) else Run(evs)
  {
    assert (evs + [ev])[..|evs|] == evs;
  }

  lemma Advance(g: Group, c: nat, x: nat, outcome: Outcome)
    requires c < |g.calls| && g.calls[c].phase != Done
    ensures var steps := Completion(g.calls[c], c, x, outcome);
            && Enabled(g, steps[0])
            && var g' := Next(g, steps[0]);
               && g'.callers == g.callers && |g'.calls| == |g.calls|
               && Completion(g'.calls[c], c, x, outcome) == steps[1..]
  {
  }

  // Main theorem: in every state of every run a caller without a result can be brought to it in
  // at most four steps of its own call, whatever else was forgotten, panicked or is in flight.
  lemma {:induction false} CanReturn(evs: seq<Event>, x: nat, c: nat, outcome: Outcome)
    requires x in Run(evs).callers && !Run(evs).callers[x].Got? && Run(evs).callers[x].c == c
    ensures c < |Run(evs).calls|
    ensures var rest := Completion(Run(evs).calls[c], c, x, outcome);
            && |rest| <= 4 && x in Run(evs + rest).callers
            && Run(evs + rest).callers[x].Got? && Run(evs + rest).callers[x].c == c
    decreases if c < |Run(evs).calls| then |Completion(Run(evs).calls[c], c, x, outcome)| else 0
  {
    RunInvariant(evs);
    var g := Run(evs);
    var steps := Completion(g.calls[c], c, x, outcome);
    RunAppend(evs, steps[0], steps[1..]);
    assert evs + [steps[0]] + steps[1..] == evs + steps;
    if g.calls[c].phase != Done {
      Advance(g, c, x, outcome);
      CanReturn(evs + [steps[0]], x, c, outcome);
    } else {
      assert evs + steps == evs + [Return(x)];
    }
  }
}
