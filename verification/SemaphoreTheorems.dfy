/**
 Who waits for ever on the weighted semaphore of pkg/semaphore/semaphore.go, and who can be let in.
 */
module SemaphoreTheorems {
  import opened SemaphoreModel

  // ----- Starvation -----

  // Whoever is queued and asks for more than what is not lost is never granted; and until it gives
  // up, nobody who came after it gets anything through the queue, however the run goes on.
  lemma {:induction false} Starves(size: int, planted: bool, evs: seq<Event>, more: seq<Event>, id: nat)
    requires 0 < size
    requires var s := Run(size, planted, evs);
             id < |s.st| && s.st[id].Queued? && s.st[id].n > size - LeakedWeight(s.st)
    ensures var s, s' := Run(size, planted, evs), Run(size, planted, evs + more);
            && id < |s'.st| && (s'.st[id] == s.st[id] || s'.st[id] == Over)
            && (s'.st[id].Queued? ==> forall j :: id < j < |s'.st| ==> !Dispatched(s'.st[j]))
    decreases |more|
  {
    RunInvariant(size, planted, evs + more);
    if more == [] {
      assert evs + more == evs;
    } else {
      var front, ev := more[..|more| - 1], more[|more| - 1];
      var s := Run(size, planted, evs + front);
      Starves(size, planted, evs, front, id);
      assert (evs + front) + [ev] == evs + more;
      RunMore(size, planted, evs + front, ev);
      RunInvariant(size, planted, evs + front);
      if Enabled(s, ev) { StepMoves(s, ev); }
      LeaksAreForever(size, planted, evs, more);
    }
  }

  // ----- Progress -----

  // Events by which callers take what they were granted and give back what they hold.
  predicate HandsBack(evs: seq<Event>) {
    forall i :: 0 <= i < |evs| ==> evs[i].Receive? || evs[i].ReleaseHeld?
  }

  // Everyone in the queue up to id asks for no more than what is not lost.
  ghost predicate FitsUpTo(s: State, id: nat) {
    forall j :: 0 <= j <= id < |s.st| && s.st[j].Queued? ==> s.st[j].n <= s.size - LeakedWeight(s.st)
  }

  // How many steps the callers still have before them.
  function Rank(x: Status): nat {
    match x
    case Queued(_) => 3
    case Granted(_) => 2
    case Held(_, _) => 1
    case _ => 0
  }

  function Ranks(st: seq<Status>): nat {
    if st == [] then 0 else Ranks(st[..|st| - 1]) + Rank(st[|st| - 1])
  }

  lemma {:induction false} RanksShrink(st: seq<Status>, st': seq<Status>, id: nat)
    requires |st| == |st'| && forall i :: 0 <= i < |st| ==> Rank(st'[i]) <= Rank(st[i])
    requires id < |st| ==> Rank(st'[id]) < Rank(st[id])
    ensures Ranks(st') <= Ranks(st) && (id < |st| ==> Ranks(st') < Ranks(st))
  {
    if st != [] { RanksShrink(st[..|st| - 1], st'[..|st| - 1], id); }
  }

  // If more is taken than lost, somebody has it.
  lemma {:induction false} SomeHolder(st: seq<Status>) returns (id: nat)
    requires LeakedWeight(st) < Total(st)
    ensures id < |st| && (st[id].Granted? || st[id].Held?) && Weight(st[id]) > 0
  {
    var n := |st| - 1;
    if (st[n].Granted? || st[n].Held?) && Weight(st[n]) > 0 { id := n; } else { id := SomeHolder(st[..n]); }
  }

  // The holder takes its grant, or gives back what it holds.
  function NextOf(s: State, id: nat): Event
    requires id < |s.st|
  {
    if s.st[id].Granted? then Receive(id) else ReleaseHeld(id)
  }

  lemma HandingBackShrinks(s: State, ev: Event)
    requires Inv(s) && Enabled(s, ev) && (ev.Receive? || ev.ReleaseHeld?)
    ensures |Next(s, ev).st| == |s.st| && Ranks(Next(s, ev).st) < Ranks(s.st)
    ensures forall i :: 0 <= i < |s.st| && s.st[i].Queued? ==>
              Next(s, ev).st[i] == s.st[i] || Next(s, ev).st[i] == Granted(s.st[i].n)
    ensures forall i :: 0 <= i < |s.st| && Next(s, ev).st[i].Queued? ==> Next(s, ev).st[i] == s.st[i]
  {
    StepMoves(s, ev);
    if ev.ReleaseHeld? { ReleaseMoves(s, ev.id); }
    RanksShrink(s.st, Next(s, ev).st, ev.id);
  }

  // After a release in full, whoever is first in the queue does not fit.
  lemma StillTaken(s: State, ev: Event, id: nat)
    requires Inv(s) && !s.planted && Enabled(s, ev) && id < |s.st|
    requires (ev.Receive? && LeakedWeight(s.st) < s.cur) || (ev.ReleaseHeld? && s.st[ev.id].n > 0)
    requires Next(s, ev).st[id].Queued? && FitsUpTo(Next(s, ev), id)
    ensures LeakedWeight(Next(s, ev).st) < Next(s, ev).cur
  {
    var s' := Next(s, ev);
    NextKeeps(s, ev);
    if ev.ReleaseHeld? {
      TotalCovers(s.st, ev.id);
      ReleaseWeight(s, s.st[ev.id].n);
      PendingHead(s'.st, id);
      PendingFacts(s'.st);
    } else {
      SameLeaks(s.st, s'.st);
    }
  }

  predicate Gets(size: int, evs: seq<Event>, id: nat) {
    var s := Run(size, false, evs);
    id < |s.st| && s.st[id].Granted?
  }

  ghost predicate Grantable(s: State, id: nat) {
    id < |s.st| && s.st[id].Queued? && FitsUpTo(s, id) && LeakedWeight(s.st) < s.cur
  }

  // One step of a holder brings the caller to its grant, or nearer to it.
  lemma OneNearer(size: int, evs: seq<Event>, id: nat) returns (ev: Event)
    requires 0 < size && Grantable(Run(size, false, evs), id)
    ensures ev.Receive? || ev.ReleaseHeld?
    ensures Gets(size, evs + [ev], id) || Grantable(Run(size, false, evs + [ev]), id)
    ensures Ranks(Run(size, false, evs + [ev]).st) < Ranks(Run(size, false, evs).st)
  {
    var s := Run(size, false, evs);
    RunInvariant(size, false, evs);
    var holder := SomeHolder(s.st);
    ev := NextOf(s, holder);
    RunMore(size, false, evs, ev);
    HandingBackShrinks(s, ev);
    LeaksExactly(size, false, evs, ev);
    if Next(s, ev).st[id].Queued? { StillTaken(s, ev, id); }
  }

  lemma {:induction false} CanBeGranted(size: int, evs: seq<Event>, id: nat) returns (more: seq<Event>)
    requires 0 < size && Grantable(Run(size, false, evs), id)
    ensures HandsBack(more) && Gets(size, evs + more, id)
    decreases Ranks(Run(size, false, evs).st)
  {
    var ev := OneNearer(size, evs, id);
    more := [ev];
    if !Gets(size, evs + [ev], id) {
      var rest := CanBeGranted(size, evs + [ev], id);
      more := [ev] + rest;
      assert (evs + [ev]) + rest == evs + more;
    }
  }

  // With nobody giving up, a caller that asks for too much holds up itself and all behind it.
  lemma {:induction false} HeldUp(size: int, evs: seq<Event>, more: seq<Event>, id: nat)
    requires 0 < size && HandsBack(more)
    requires var s := Run(size, false, evs);
             id < |s.st| && s.st[id].Queued? && s.st[id].n > size - LeakedWeight(s.st)
    ensures var s, s' := Run(size, false, evs), Run(size, false, evs + more);
            && id < |s'.st| && s'.st[id] == s.st[id]
            && forall j :: id < j < |s'.st| ==> !Dispatched(s'.st[j])
    decreases |more|
  {
    Starves(size, false, evs, more, id);
    if more == [] {
      assert evs + more == evs;
    } else {
      var front, ev := more[..|more| - 1], more[|more| - 1];
      var s := Run(size, false, evs + front);
      HeldUp(size, evs, front, id);
      assert (evs + front) + [ev] == evs + more;
      RunMore(size, false, evs + front, ev);
      RunInvariant(size, false, evs + front);
      if Enabled(s, ev) { HandingBackShrinks(s, ev); }
    }
  }

  // If all that is taken is lost, there is nothing to give back.
  lemma {:induction false} NothingToGive(size: int, evs: seq<Event>, more: seq<Event>, id: nat)
    requires 0 < size && HandsBack(more)
    requires var s := Run(size, false, evs);
             id < |s.st| && s.st[id].Queued? && LeakedWeight(s.st) == s.cur
    ensures var s, s' := Run(size, false, evs), Run(size, false, evs + more);
            id < |s'.st| && s'.st[id] == s.st[id] && LeakedWeight(s'.st) == s'.cur
    decreases |more|
  {
    if more == [] {
      assert evs + more == evs;
    } else {
      var front, ev := more[..|more| - 1], more[|more| - 1];
      var s := Run(size, false, evs + front);
      NothingToGive(size, evs, front, id);
      assert (evs + front) + [ev] == evs + more;
      RunMore(size, false, evs + front, ev);
      RunInvariant(size, false, evs + front);
      if Enabled(s, ev) {
        LeakedAndOne(s.st, ev.id);
        LeaksExactly(size, false, evs + front, ev);
      }
    }
  }

  // A queued caller can be brought to its grant by callers that take theirs and give back what
  // they hold, exactly if neither it nor anyone before it asks for more than what is not lost,
  // and not all that is taken is lost.
  lemma GrantableExactly(size: int, evs: seq<Event>, id: nat)
    requires 0 < size && id < |Run(size, false, evs).st| && Run(size, false, evs).st[id].Queued?
    ensures var s := Run(size, false, evs);
            (exists more :: HandsBack(more) && Gets(size, evs + more, id)) <==>
              FitsUpTo(s, id) && LeakedWeight(s.st) < s.cur
  {
    var s := Run(size, false, evs);
    RunInvariant(size, false, evs);
    LeakedGrows(s.st, s.st);
    if FitsUpTo(s, id) && LeakedWeight(s.st) < s.cur {
      var more := CanBeGranted(size, evs, id);
    } else {
      forall more | HandsBack(more) ensures !Gets(size, evs + more, id) {
        if LeakedWeight(s.st) == s.cur {
          NothingToGive(size, evs, more, id);
        } else {
          var j :| 0 <= j <= id && s.st[j].Queued? && s.st[j].n > s.size - LeakedWeight(s.st);
          HeldUp(size, evs, more, j);
        }
      }
    }
  }

  // So as long as nothing is lost, everyone in the queue can be brought to its grant.
  lemma NobodyIsStuck(size: int, evs: seq<Event>, id: nat)
    requires 0 < size && id < |Run(size, false, evs).st| && Run(size, false, evs).st[id].Queued?
    requires LeakedWeight(Run(size, false, evs).st) == 0
    ensures exists more :: HandsBack(more) && Gets(size, evs + more, id)
  {
    RunInvariant(size, false, evs);
    PendingHead(Run(size, false, evs).st, id);
    GrantableExactly(size, evs, id);
  }

  // ----- 64-bit sums -----

  const MAX64: int := 0x7fff_ffff_ffff_ffff

  // Acquire, TryAcquire and the dispatch add to what is taken at most the size. The sum fits in
  // 64 bits in every run exactly if twice the size does.
  lemma SumsFitExactly(size: int, planted: bool)
    requires 0 < size
    ensures (forall evs :: Run(size, planted, evs).cur + size <= MAX64) <==> 2 * size <= MAX64
  {
    forall evs ensures Run(size, planted, evs).cur <= size { RunInvariant(size, planted, evs); }
    if 2 * size > MAX64 {
      RunMore(size, planted, [], Acquire(size));
      assert Run(size, planted, [] + [Acquire(size)]).cur + size > MAX64;
    }
  }
}
