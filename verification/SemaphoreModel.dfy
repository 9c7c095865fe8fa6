/**
 The weighted semaphore of pkg/semaphore/semaphore.go over all interleavings of Acquire,
 TryAcquire, Release, the receipt of a grant and cancellation, each lock-protected section being
 one step. Callers are numbered in the order of their Acquire calls.
 */
module SemaphoreModel {

  datatype Waiter = Waiter(id: nat, n: int)

  // The weight a list of waiters asks for.
  function Asked(ws: seq<Waiter>): int {
    if ws == [] then 0 else ws[0].n + Asked(ws[1..])
  }

  // How many waiters at the head of the queue are granted one after the other.
  function Fit(size: int, cur: int, ws: seq<Waiter>): (k: nat)
    ensures k <= |ws|
    decreases |ws|
  {
    if ws == [] || cur + ws[0].n > size then 0 else 1 + Fit(size, cur + ws[0].n, ws[1..])
  }

  // Strict FIFO dispatch: the longest prefix of the queue that fits is granted, nobody behind.
  lemma {:induction false} FitExactly(size: int, cur: int, ws: seq<Waiter>)
    requires cur <= size
    ensures var k := Fit(size, cur, ws);
            && cur + Asked(ws[..k]) <= size
            && (k < |ws| ==> cur + Asked(ws[..k]) + ws[k].n > size)
    decreases |ws|
  {
    if ws != [] && cur + ws[0].n <= size {
      FitExactly(size, cur + ws[0].n, ws[1..]);
      var k := Fit(size, cur, ws);
      assert ws[..k] == [ws[0]] + ws[1..][..k - 1];
      assert ws[..k][1..] == ws[1..][..k - 1];
    } else {
      assert ws[..0] == [];
    }
  }

  // ----- One call of Release -----

  datatype Release =
    | Ignored                 // nothing to return
    | OverReleased            // panics before changing anything
    | Misindexed              // panics on the planted slice access, after the weight was returned
    | Released(woken: nat)    // so many waiters were granted

  // `planted` says whether the marked slice access is in the code.
  function ReleaseCall(planted: bool, size: int, cur: int, ws: seq<Waiter>, n: int): (Release, int) {
    if n <= 0 then (Ignored, cur)
    else if n > cur then (OverReleased, cur)
    else if planted && cur - n == 0 && |ws| > 0 && n >= |ws| then (Misindexed, 0)
    else
      var k := Fit(size, cur - n, ws);
      (Released(k), cur - n + Asked(ws[..k]))
  }

  // ----- The protocol -----

  // What became of a caller's Acquire or TryAcquire.
  datatype Status =
    | Refused                          // never could succeed, or no room for a TryAcquire
    | Queued(n: int)
    | Granted(n: int)                  // dispatched from the queue, not yet received
    | Held(n: int, fromQueue: bool)
    | Leaked(n: int)                   // dispatched, then cancelled: nobody will release it
    | Over                             // released, or cancelled while queued

  function Weight(s: Status): int {
    match s
    case Granted(n) => n
    case Held(n, _) => n
    case Leaked(n) => n
    case _ => 0
  }

  function Total(st: seq<Status>): int {
    if st == [] then 0 else Total(st[..|st| - 1]) + Weight(st[|st| - 1])
  }

  datatype State = State(
    size: int, planted: bool, cur: int, waiters: seq<Waiter>, st: seq<Status>,
    cancels: nat,    // how many queued callers were cancelled
    faults: nat)     // how many releases hit the planted access

  function Init(size: int, planted: bool): State {
    State(size, planted, 0, [], [], 0, 0)
  }

  datatype Event =
    | Acquire(n: int)
    | TryAcquire(n: int)
    | Receive(id: nat)
    | Cancel(id: nat)
    | ReleaseHeld(id: nat)

  predicate Enabled(s: State, ev: Event) {
    match ev
    case Acquire(_) => true
    case TryAcquire(_) => true
    case Receive(id) => id < |s.st| && s.st[id].Granted?
    case Cancel(id) => id < |s.st| && (s.st[id].Queued? || s.st[id].Granted?)
    case ReleaseHeld(id) => id < |s.st| && s.st[id].Held?
  }

  function Drop(ws: seq<Waiter>, id: nat): seq<Waiter> {
    if ws == [] then [] else if ws[0].id == id then ws[1..] else [ws[0]] + Drop(ws[1..], id)
  }

  // Mark the given waiters as granted.
  function Grant(st: seq<Status>, ws: seq<Waiter>): (r: seq<Status>)
    ensures |r| == |st|
    decreases |ws|
  {
    if ws == [] then st
    else if ws[0].id < |st| then Grant(st[ws[0].id := Granted(ws[0].n)], ws[1..])
    else Grant(st, ws[1..])
  }

  function Next(s: State, ev: Event): State
    requires Enabled(s, ev)
  {
    match ev
    case Acquire(n) =>
      if n <= 0 then s.(st := s.st + [Held(0, false)])
      else if n > s.size then s.(st := s.st + [Refused])
      else if s.cur + n <= s.size then s.(cur := s.cur + n, st := s.st + [Held(n, false)])
      else s.(waiters := s.waiters + [Waiter(|s.st|, n)], st := s.st + [Queued(n)])
    case TryAcquire(n) =>
      if n <= 0 then s.(st := s.st + [Held(0, false)])
      else if n > s.size || s.cur + n > s.size then s.(st := s.st + [Refused])
      else s.(cur := s.cur + n, st := s.st + [Held(n, false)])
    case Receive(id) => s.(st := s.st[id := Held(s.st[id].n, true)])
    case Cancel(id) =>
      if s.st[id].Queued? then s.(waiters := Drop(s.waiters, id), st := s.st[id := Over], cancels := s.cancels + 1)
      else s.(st := s.st[id := Leaked(s.st[id].n)])
    case ReleaseHeld(id) =>
      var (r, cur) := ReleaseCall(s.planted, s.size, s.cur, s.waiters, s.st[id].n);
      var st := s.st[id := Over];
      (match r
       case Released(k) => s.(cur := cur, waiters := s.waiters[k..], st := Grant(st, s.waiters[..k]))
       case Misindexed => s.(cur := cur, st := st, faults := s.faults + 1)
       case _ => s.(st := st))
  }

  function Run(size: int, planted: bool, evs: seq<Event>): State {
    if evs == [] then Init(size, planted)
    else
      var s := Run(size, planted, evs[..|evs| - 1]);
      if Enabled(s, evs[|evs| - 1]) then Next(s, evs[|evs| - 1]) else s
  }

  // ----- The invariant -----

  // The queued callers in arrival order.
  function Pending(st: seq<Status>): seq<Waiter> {
    if st == [] then []
    else
      var id := |st| - 1;
      if st[id].Queued? then Pending(st[..id]) + [Waiter(id, st[id].n)] else Pending(st[..id])
  }

  // Whoever was dispatched from the queue.
  predicate Dispatched(x: Status) {
    x.Granted? || x.Leaked? || (x.Held? && x.fromQueue)
  }

  // The queue holds exactly the queued callers, in arrival order.
  ghost predicate QueueOk(s: State) {
    && s.waiters == Pending(s.st)
    && forall id :: 0 <= id < |s.st| && (s.st[id].Queued? || s.st[id].Granted?) ==> 0 < s.st[id].n <= s.size
  }

  // Nobody still queued arrived before anybody dispatched from the queue.
  ghost predicate FifoOk(s: State) {
    forall i, j :: 0 <= i < |s.st| && 0 <= j < |s.st| && Dispatched(s.st[i]) && s.st[j].Queued? ==> i < j
  }

  // The weight taken is that of the grants held, on their way, or leaked.
  ghost predicate WeightsOk(s: State) {
    && 0 <= s.cur <= s.size
    && s.cur == Total(s.st)
    && (forall id :: 0 <= id < |s.st| ==> Weight(s.st[id]) >= 0)
  }

  ghost predicate Inv(s: State) {
    QueueOk(s) && FifoOk(s) && WeightsOk(s)
  }

  // A queue implies that something is taken, unless a release was cut short by the planted
  // access; and if moreover nobody queued was cancelled, the head of the queue does not fit.
  ghost predicate Busy(s: State) {
    && (!s.planted ==> s.faults == 0)
    && (s.faults == 0 && s.waiters != [] ==> s.cur > 0)
    && (s.faults == 0 && s.cancels == 0 && s.waiters != [] ==> s.cur + s.waiters[0].n > s.size)
  }

  // ----- Totals -----

  lemma {:induction false} TotalUpdate(st: seq<Status>, id: nat, x: Status)
    requires id < |st|
    ensures Total(st[id := x]) == Total(st) - Weight(st[id]) + Weight(x)
  {
    var st' := st[id := x];
    if id == |st| - 1 {
      assert st'[..|st| - 1] == st[..|st| - 1];
    } else {
      assert st'[..|st| - 1] == st[..|st| - 1][id := x];
      TotalUpdate(st[..|st| - 1], id, x);
    }
  }

  lemma TotalAppend(st: seq<Status>, x: Status)
    ensures Total(st + [x]) == Total(st) + Weight(x)
  {
    assert (st + [x])[..|st|] == st;
  }

  lemma {:induction false} TotalCovers(st: seq<Status>, id: nat)
    requires id < |st| && forall i :: 0 <= i < |st| ==> Weight(st[i]) >= 0
    ensures 0 <= Weight(st[id]) <= Total(st)
  {
    var front := st[..|st| - 1];
    if id < |st| - 1 {
      TotalCovers(front, id);
    } else if front != [] {
      TotalCovers(front, 0);
    }
  }

  // ----- The queue as a function of the statuses -----

  ghost predicate LinedUp(st: seq<Status>, ws: seq<Waiter>) {
    && (forall i, j :: 0 <= i < j < |ws| ==> ws[i].id < ws[j].id)
    && (forall i :: 0 <= i < |ws| ==> ws[i].id < |st| && st[ws[i].id] == Queued(ws[i].n))
  }

  lemma {:induction false} PendingFacts(st: seq<Status>)
    ensures LinedUp(st, Pending(st))
  {
    if st != [] {
      var n := |st| - 1;
      var front, ws := Pending(st[..n]), Pending(st);
      PendingFacts(st[..n]);
      assert forall i :: 0 <= i < |front| ==> ws[i] == front[i];
      assert forall i :: 0 <= i < n ==> st[i] == st[..n][i];
    }
  }

  // The queue starts with whoever has been waiting longest.
  lemma {:induction false} PendingHead(st: seq<Status>, id: nat)
    requires id < |st| && st[id].Queued?
    ensures Pending(st) != [] && Pending(st)[0].id <= id
  {
    var n := |st| - 1;
    PendingFacts(st[..n]);
    if id < n { PendingHead(st[..n], id); }
  }

  lemma PendingAppend(st: seq<Status>, x: Status)
    ensures Pending(st + [x]) == if x.Queued? then Pending(st) + [Waiter(|st|, x.n)] else Pending(st)
  {
    assert (st + [x])[..|st|] == st;
  }

  lemma {:induction false} PendingUpdate(st: seq<Status>, id: nat, x: Status)
    requires id < |st| && !st[id].Queued? && !x.Queued?
    ensures Pending(st[id := x]) == Pending(st)
  {
    var n, st' := |st| - 1, st[id := x];
    if id < n {
      assert st'[..n] == st[..n][id := x];
      PendingUpdate(st[..n], id, x);
    } else {
      assert st'[..n] == st[..n];
    }
  }

  predicate Has(ws: seq<Waiter>, id: nat) {
    ws != [] && (ws[0].id == id || Has(ws[1..], id))
  }

  lemma {:induction false} DropAppend(ws: seq<Waiter>, w: Waiter, id: nat)
    ensures Has(ws + [w], id) == (Has(ws, id) || w.id == id)
    ensures Drop(ws + [w], id) == if Has(ws, id) then Drop(ws, id) + [w] else if w.id == id then ws else ws + [w]
  {
    var all := ws + [w];
    if ws == [] {
      assert all == [w];
    } else {
      assert all[1..] == ws[1..] + [w];
      DropAppend(ws[1..], w, id);
    }
  }

  lemma {:induction false} PendingHas(st: seq<Status>, id: nat)
    ensures Has(Pending(st), id) == (id < |st| && st[id].Queued?)
  {
    if st != [] {
      var n := |st| - 1;
      PendingHas(st[..n], id);
      if st[n].Queued? { DropAppend(Pending(st[..n]), Waiter(n, st[n].n), id); }
    }
  }

  lemma {:induction false} PendingDrop(st: seq<Status>, id: nat, x: Status)
    requires id < |st| && st[id].Queued? && !x.Queued?
    ensures Pending(st[id := x]) == Drop(Pending(st), id)
  {
    var n, st' := |st| - 1, st[id := x];
    PendingHas(st[..n], id);
    if st[n].Queued? { DropAppend(Pending(st[..n]), Waiter(n, st[n].n), id); }
    if id < n {
      assert st'[..n] == st[..n][id := x];
      PendingDrop(st[..n], id, x);
    } else {
      assert st'[..n] == st[..n];
    }
  }

  // Granting the first k waiters leaves the rest queued, moves the weight they asked for to the
  // grants, dispatches nobody else, and passes over nobody.
  lemma {:induction false} GrantExactly(st: seq<Status>, k: nat)
    requires k <= |Pending(st)|
    ensures var ws := Pending(st);
            var st' := Grant(st, ws[..k]);
            && Pending(st') == ws[k..]
            && Total(st') == Total(st) + Asked(ws[..k])
            && (forall x :: 0 <= x < |st| ==>
                 st'[x] == st[x] || (st[x].Queued? && st'[x] == Granted(st[x].n) && k > 0 && x <= ws[k - 1].id))
            && (forall x :: 0 <= x < |st| && st'[x].Queued? && k > 0 ==> ws[k - 1].id < x)
    decreases k
  {
    var ws := Pending(st);
    PendingFacts(st);
    if k > 0 {
      var w, st1 := ws[0], st[ws[0].id := Granted(ws[0].n)];
      TotalUpdate(st, w.id, Granted(w.n));
      PendingDrop(st, w.id, Granted(w.n));
      assert Pending(st1) == ws[1..];
      assert ws[..k][1..] == ws[1..][..k - 1] && ws[1..][k - 1..] == ws[k..];
      GrantExactly(st1, k - 1);
      if k > 1 {
        assert ws[1..][k - 2] == ws[k - 1];
      } else {
        forall x | 0 <= x < |st| && st1[x].Queued? ensures w.id < x { PendingHead(st, x); }
      }
    } else {
      assert ws[..0] == [] && ws[0..] == ws;
    }
  }

  // ----- The steps keep the invariant -----

  // A newcomer that does not queue changes only its own status and, if it got in, the weight.
  lemma NewcomerKeeps(s: State, x: Status)
    requires Inv(s) && !x.Queued? && !Dispatched(x) && 0 <= Weight(x) && s.cur + Weight(x) <= s.size
    ensures var s' := s.(cur := s.cur + Weight(x), st := s.st + [x]); Inv(s') && (Busy(s) ==> Busy(s'))
  {
    TotalAppend(s.st, x);
    PendingAppend(s.st, x);
    var s' := s.(cur := s.cur + Weight(x), st := s.st + [x]);
    assert forall i :: 0 <= i < |s.st| ==> s'.st[i] == s.st[i];
    NewcomerQueue(s, x, s');
    NewcomerFifo(s, x, s');
    NewcomerWeight(s, x, s');
  }

  lemma NewcomerQueue(s: State, x: Status, s': State)
    requires QueueOk(s) && !x.Queued? && !x.Granted?
    requires s'.st == s.st + [x] && s'.waiters == s.waiters == Pending(s'.st) && s'.size == s.size
    ensures QueueOk(s')
  {
  }

  lemma NewcomerFifo(s: State, x: Status, s': State)
    requires FifoOk(s) && !x.Queued? && !Dispatched(x) && s'.st == s.st + [x]
    ensures FifoOk(s')
  {
  }

  lemma NewcomerWeight(s: State, x: Status, s': State)
    requires WeightsOk(s) && 0 <= Weight(x) && s.cur + Weight(x) <= s.size && Total(s'.st) == Total(s.st) + Weight(x)
    requires s'.st == s.st + [x] && s'.cur == s.cur + Weight(x) && s'.size == s.size
    ensures WeightsOk(s')
  {
  }

  lemma EnqueueKeeps(s: State, n: int)
    requires Inv(s) && 0 < n <= s.size && s.cur + n > s.size
    ensures var s' := s.(waiters := s.waiters + [Waiter(|s.st|, n)], st := s.st + [Queued(n)]);
            Inv(s') && (Busy(s) ==> Busy(s'))
  {
    TotalAppend(s.st, Queued(n));
    PendingAppend(s.st, Queued(n));
  }

  lemma AcquireKeeps(s: State, n: int)
    requires Inv(s)
    ensures Inv(Next(s, Acquire(n))) && (Busy(s) ==> Busy(Next(s, Acquire(n))))
  {
    if n <= 0 {
      NewcomerKeeps(s, Held(0, false));
    } else if s.size < n {
      NewcomerKeeps(s, Refused);
    } else if s.cur + n <= s.size {
      NewcomerKeeps(s, Held(n, false));
    } else {
      EnqueueKeeps(s, n);
    }
  }

  lemma TryAcquireKeeps(s: State, n: int)
    requires Inv(s)
    ensures Inv(Next(s, TryAcquire(n))) && (Busy(s) ==> Busy(Next(s, TryAcquire(n))))
  {
    var x := if n <= 0 then Held(0, false) else if s.cur + n > s.size then Refused else Held(n, false);
    TryIs(s, n, x);
    NewcomerKeeps(s, x);
  }

  lemma TryIs(s: State, n: int, x: Status)
    requires 0 <= s.cur
    requires x == if n <= 0 then Held(0, false) else if s.cur + n > s.size then Refused else Held(n, false)
    ensures Next(s, TryAcquire(n)) == s.(cur := s.cur + Weight(x), st := s.st + [x])
  {
  }

  lemma ReceiveKeeps(s: State, id: nat)
    requires Inv(s) && Enabled(s, Receive(id))
    ensures Inv(Next(s, Receive(id))) && (Busy(s) ==> Busy(Next(s, Receive(id))))
  {
    var x := Held(s.st[id].n, true);
    TotalUpdate(s.st, id, x);
    PendingUpdate(s.st, id, x);
  }

  lemma CancelKeeps(s: State, id: nat)
    requires Inv(s) && Enabled(s, Cancel(id))
    ensures Inv(Next(s, Cancel(id))) && (Busy(s) ==> Busy(Next(s, Cancel(id))))
  {
    var s' := Next(s, Cancel(id));
    TotalUpdate(s.st, id, s'.st[id]);
    if s.st[id].Queued? {
      PendingDrop(s.st, id, Over);
    } else {
      PendingUpdate(s.st, id, s'.st[id]);
    }
  }


  // The releaser is over, and k waiters at the head of the queue are granted.
  lemma DispatchKeeps(s: State, id: nat, k: nat)
    requires Inv(s) && id < |s.st| && s.st[id].Held? && k <= |s.waiters|
    ensures var st' := Grant(s.st[id := Over], s.waiters[..k]);
            && QueueOk(s.(waiters := s.waiters[k..], st := st'))
            && FifoOk(s.(waiters := s.waiters[k..], st := st'))
            && Total(st') == s.cur - s.st[id].n + Asked(s.waiters[..k])
            && forall x :: 0 <= x < |st'| ==> Weight(st'[x]) >= 0
  {
    var st := s.st[id := Over];
    TotalUpdate(s.st, id, Over);
    PendingUpdate(s.st, id, Over);
    PendingFacts(st);
    GrantExactly(st, k);
  }

  // Nobody in the queue asks for nothing, or for more than there is.
  lemma WaitersAsk(s: State)
    requires QueueOk(s)
    ensures forall i :: 0 <= i < |s.waiters| ==> 0 < s.waiters[i].n <= s.size
  {
    PendingFacts(s.st);
    forall i | 0 <= i < |s.waiters| ensures 0 < s.waiters[i].n <= s.size { assert s.st[s.waiters[i].id].Queued?; }
  }

  // What a release leaves of the weight: within bounds, and the head of the queue does not fit.
  lemma ReleaseWeight(s: State, n: int)
    requires Inv(s) && 0 <= n <= s.cur
    ensures var (r, cur) := ReleaseCall(s.planted, s.size, s.cur, s.waiters, n);
            var k := if r.Released? then r.woken else 0;
            && k <= |s.waiters| && !r.OverReleased? && 0 <= cur <= s.size
            && cur == s.cur - n + Asked(s.waiters[..k])
            && (r.Released? && k < |s.waiters| ==> cur + s.waiters[k].n > s.size)
  {
    WaitersAsk(s);
    FitExactly(s.size, s.cur - n, s.waiters);
    assert s.waiters[..0] == [];
    AskedPositive(s.waiters[..Fit(s.size, s.cur - n, s.waiters)]);
  }

  lemma ReleaseKeeps(s: State, id: nat)
    requires Inv(s) && Enabled(s, ReleaseHeld(id))
    ensures Inv(Next(s, ReleaseHeld(id))) && (Busy(s) ==> Busy(Next(s, ReleaseHeld(id))))
  {
    var n := s.st[id].n;
    TotalCovers(s.st, id);
    WaitersAsk(s);
    ReleaseWeight(s, n);
    var r := ReleaseCall(s.planted, s.size, s.cur, s.waiters, n).0;
    var k := if r.Released? then r.woken else 0;
    DispatchKeeps(s, id, k);
    assert s.waiters[..0] == [] && s.waiters[0..] == s.waiters;
  }

  lemma {:induction false} AskedPositive(ws: seq<Waiter>)
    requires forall i :: 0 <= i < |ws| ==> ws[i].n > 0
    ensures Asked(ws) >= 0 && (ws != [] ==> Asked(ws) > 0)
  {
    if ws != [] { AskedPositive(ws[1..]); }
  }

  lemma NextKeeps(s: State, ev: Event)
    requires Inv(s) && Enabled(s, ev)
    ensures Inv(Next(s, ev)) && (Busy(s) ==> Busy(Next(s, ev))) && Next(s, ev).size == s.size
    ensures Next(s, ev).planted == s.planted
  {
    match ev
    case Receive(id) => ReceiveKeeps(s, id);
    case Cancel(id) => CancelKeeps(s, id);
    case ReleaseHeld(id) => ReleaseKeeps(s, id);
    case Acquire(n) => AcquireKeeps(s, n);
    case TryAcquire(n) => TryAcquireKeeps(s, n);
  }

  lemma {:induction false} RunInvariant(size: int, planted: bool, evs: seq<Event>)
    requires 0 < size
    ensures var s := Run(size, planted, evs); s.size == size && s.planted == planted && Inv(s) && Busy(s)
  {
    if evs != [] {
      var s, ev := Run(size, planted, evs[..|evs| - 1]), evs[|evs| - 1];
      RunInvariant(size, planted, evs[..|evs| - 1]);
      if Enabled(s, ev) { NextKeeps(s, ev); }
    }
  }

  // ----- What every run guarantees -----

  // Without the marked access: while callers wait something is taken, and as long as no queued
  // caller gives up the head of the queue does not fit.
  lemma QueueMeansBusy(size: int, evs: seq<Event>)
    requires 0 < size
    ensures var s := Run(size, false, evs);
            && (s.waiters != [] ==> s.cur > 0)
            && (s.waiters != [] && s.cancels == 0 ==> s.cur + s.waiters[0].n > s.size)
  {
    RunInvariant(size, false, evs);
  }

  // Grants from the queue go out in arrival order: once j was dispatched, nobody who came before
  // it is still waiting.
  lemma ArrivalOrder(size: int, planted: bool, evs: seq<Event>, i: nat, j: nat)
    requires 0 < size && i < j < |Run(size, planted, evs).st| && Dispatched(Run(size, planted, evs).st[j])
    ensures !Run(size, planted, evs).st[i].Queued?
  {
    RunInvariant(size, planted, evs);
  }

  // Acquire never looks at the queue. A newcomer is let in past it exactly when there is room; unless
  // the head of the queue was left behind, that means it asks for less than the head.
  lemma BargersAreSmaller(size: int, planted: bool, evs: seq<Event>, n: int)
    requires 0 < size && 0 < n
    ensures var s := Run(size, planted, evs);
            var s' := Next(s, Acquire(n));
            && (s'.st[|s.st|].Held? <==> s.cur + n <= size)
            && (s'.st[|s.st|].Refused? <==> n > size)
            && (s'.st[|s.st|].Held? && s.waiters != [] && !HeadFits(s) ==> n < s.waiters[0].n)
  {
    RunInvariant(size, planted, evs);
  }

  // TryAcquire succeeds exactly if there is room, whoever is queued; and it never queues.
  lemma TryExactly(size: int, planted: bool, evs: seq<Event>, n: int)
    requires 0 < size
    ensures var s := Run(size, planted, evs);
            var s' := Next(s, TryAcquire(n));
            && (s'.st[|s.st|].Held? <==> n <= 0 || s.cur + n <= size)
            && (s'.st[|s.st|].Refused? <==> !s'.st[|s.st|].Held?)
            && s'.cur == s.cur + (if 0 < n && s.cur + n <= size then n else 0)
            && s'.waiters == s.waiters && s'.st[..|s.st|] == s.st
  {
    RunInvariant(size, planted, evs);
  }

  // Acquire takes n if there is room, and queues behind everybody else if not, unless it never could
  // be granted.
  lemma AcquireExactly(size: int, planted: bool, evs: seq<Event>, n: int)
    requires 0 < size && 0 < n
    ensures var s := Run(size, planted, evs);
            var s' := Next(s, Acquire(n));
            && s'.cur == s.cur + (if s.cur + n <= size then n else 0) && s'.st[..|s.st|] == s.st
            && (s.cur + n <= size ==> s'.st[|s.st|] == Held(n, false))
            && (s'.st[|s.st|].Queued? <==> n <= size < s.cur + n)
            && s'.waiters == if n <= size < s.cur + n then s.waiters + [Waiter(|s.st|, n)] else s.waiters
  {
    RunInvariant(size, planted, evs);
  }

  // As written, Release panics half-way exactly when it returns the last of the weight while
  // between one and n callers are queued, and this is the only step that leaves callers queued
  // on an idle semaphore.
  lemma StrandedExactly(size: int, planted: bool, evs: seq<Event>, ev: Event)
    requires 0 < size && Run(size, planted, evs).faults == 0 && Enabled(Run(size, planted, evs), ev)
    ensures var s := Run(size, planted, evs);
            var s' := Next(s, ev);
            s'.waiters != [] && s'.cur == 0 <==>
            planted && ev.ReleaseHeld? && s.st[ev.id].n == s.cur && 1 <= |s.waiters| <= s.st[ev.id].n
  {
    var s := Run(size, planted, evs);
    RunInvariant(size, planted, evs);
    NextKeeps(s, ev);
    if ev.ReleaseHeld? {
      TotalCovers(s.st, ev.id);
      ReleaseWeight(s, s.st[ev.id].n);
    }
  }

  // ----- Grants that nobody will return -----

  function LeakedWeight(st: seq<Status>): int {
    if st == [] then 0
    else LeakedWeight(st[..|st| - 1]) + if st[|st| - 1].Leaked? then st[|st| - 1].n else 0
  }

  // Callers keep their place, and what is lost stays lost.
  ghost predicate KeepsLeaks(st: seq<Status>, st': seq<Status>) {
    && |st| <= |st'|
    && (forall i :: 0 <= i < |st| && st[i].Leaked? ==> st'[i] == st[i])
    && (forall i :: 0 <= i < |st'| ==> Weight(st'[i]) >= 0)
  }

  lemma {:induction false} LeakedGrows(st: seq<Status>, st': seq<Status>)
    requires KeepsLeaks(st, st')
    ensures LeakedWeight(st) <= LeakedWeight(st') <= Total(st')
    decreases |st'|
  {
    if st' != [] {
      var n := |st'| - 1;
      if |st| == |st'| { LeakedGrows(st[..n], st'[..n]); } else { LeakedGrows(st, st'[..n]); }
    }
  }

  // What may become of a caller in one step.
  predicate Moves(x: Status, x': Status) {
    x' == x ||
    match x
    case Queued(n) => x' == Granted(n) || x' == Over
    case Granted(n) => x' == Held(n, true) || x' == Leaked(n)
    case Held(_, _) => x' == Over
    case _ => false
  }

  // A release ends its holder's part and may grant queued callers, and changes nobody else.
  lemma ReleaseMoves(s: State, id: nat)
    requires Inv(s) && Enabled(s, ReleaseHeld(id))
    ensures var st' := Next(s, ReleaseHeld(id)).st;
            && |st'| == |s.st| && st'[id] == Over
            && forall i :: 0 <= i < |st'| && i != id ==>
                 st'[i] == s.st[i] || (s.st[i].Queued? && st'[i] == Granted(s.st[i].n))
  {
    var st := s.st[id := Over];
    TotalCovers(s.st, id);
    ReleaseWeight(s, s.st[id].n);
    PendingUpdate(s.st, id, Over);
    var r := ReleaseCall(s.planted, s.size, s.cur, s.waiters, s.st[id].n).0;
    if r.Released? { GrantExactly(st, r.woken); }
  }

  lemma StepMoves(s: State, ev: Event)
    requires Inv(s) && Enabled(s, ev)
    ensures var st' := Next(s, ev).st; |s.st| <= |st'| && forall i :: 0 <= i < |s.st| ==> Moves(s.st[i], st'[i])
  {
    if ev.ReleaseHeld? { ReleaseMoves(s, ev.id); }
  }

  lemma StepKeepsLeaks(s: State, ev: Event)
    requires Inv(s) && Enabled(s, ev)
    ensures KeepsLeaks(s.st, Next(s, ev).st)
  {
    NextKeeps(s, ev);
    StepMoves(s, ev);
  }

  lemma RunMore(size: int, planted: bool, evs: seq<Event>, ev: Event)
    ensures var s := Run(size, planted, evs);
            Run(size, planted, evs + [ev]) == if Enabled(s, ev) then Next(s, ev) else s
  {
    assert (evs + [ev])[..|evs|] == evs;
  }

  lemma {:induction false} RunKeepsLeaks(size: int, planted: bool, evs: seq<Event>, more: seq<Event>)
    requires 0 < size
    ensures KeepsLeaks(Run(size, planted, evs).st, Run(size, planted, evs + more).st)
    decreases |more|
  {
    if more == [] {
      assert evs + more == evs;
      RunInvariant(size, planted, evs);
    } else {
      var ev := more[|more| - 1];
      var before := evs + more[..|more| - 1];
      RunKeepsLeaks(size, planted, evs, more[..|more| - 1]);
      assert before + [ev] == evs + more;
      RunMore(size, planted, before, ev);
      RunInvariant(size, planted, before);
      if Enabled(Run(size, planted, before), ev) {
        StepKeepsLeaks(Run(size, planted, before), ev);
        KeepsTransitive(Run(size, planted, evs).st, Run(size, planted, before).st, Run(size, planted, evs + more).st);
      }
    }
  }

  lemma KeepsTransitive(a: seq<Status>, b: seq<Status>, c: seq<Status>)
    requires KeepsLeaks(a, b) && KeepsLeaks(b, c)
    ensures KeepsLeaks(a, c)
  {
  }

  // What is lost and what one other caller has is all taken.
  lemma {:induction false} LeakedAndOne(st: seq<Status>, id: nat)
    requires id < |st| && !st[id].Leaked? && forall i :: 0 <= i < |st| ==> Weight(st[i]) >= 0
    ensures LeakedWeight(st) + Weight(st[id]) <= Total(st)
  {
    var front := st[..|st| - 1];
    if id < |st| - 1 { LeakedAndOne(front, id); } else { LeakedGrows(front, front); }
  }

  // A caller cancelled after it had been granted keeps its weight for ever: however the run goes
  // on, everybody else shares what is left, and nobody who asks for more than that holds anything
  // or is on the way to, whether it is let in at once or queues.
  lemma LeaksAreForever(size: int, planted: bool, evs: seq<Event>, more: seq<Event>)
    requires 0 < size
    ensures var s, s' := Run(size, planted, evs), Run(size, planted, evs + more);
            && KeepsLeaks(s.st, s'.st)
            && LeakedWeight(s.st) <= LeakedWeight(s'.st) <= s'.cur <= size
            && forall id :: 0 <= id < |s'.st| && (s'.st[id].Granted? || s'.st[id].Held?) ==>
                 s'.st[id].n <= size - LeakedWeight(s'.st) <= size - LeakedWeight(s.st)
  {
    var s, s' := Run(size, planted, evs), Run(size, planted, evs + more);
    RunInvariant(size, planted, evs + more);
    RunKeepsLeaks(size, planted, evs, more);
    LeakedGrows(s.st, s'.st);
    forall id | 0 <= id < |s'.st| && (s'.st[id].Granted? || s'.st[id].Held?)
      ensures s'.st[id].n <= size - LeakedWeight(s'.st)
    {
      LeakedAndOne(s'.st, id);
    }
  }

  // ----- When the head of the queue is left behind -----

  predicate HeadFits(s: State) {
    s.waiters != [] && s.cur + s.waiters[0].n <= s.size
  }

  // The head of the queue gives up, and the next one asks for little enough.
  predicate CancelStrands(s: State, ev: Event) {
    ev.Cancel? && |s.waiters| >= 2 && s.waiters[0].id == ev.id && s.cur + s.waiters[1].n <= s.size
  }

  // A release is cut short by the marked access.
  predicate FaultStrands(s: State, ev: Event)
    requires Enabled(s, ev)
  {
    s.planted && ev.ReleaseHeld? && s.st[ev.id].n == s.cur && 1 <= |s.waiters| <= s.st[ev.id].n
  }

  // In any run, an event leaves behind a head of the queue that fits, where none fitted before,
  // exactly if it is one of these two.
  lemma StrandsExactly(size: int, planted: bool, evs: seq<Event>, ev: Event)
    requires 0 < size && Enabled(Run(size, planted, evs), ev) && !HeadFits(Run(size, planted, evs))
    ensures var s := Run(size, planted, evs);
            HeadFits(Next(s, ev)) <==> CancelStrands(s, ev) || FaultStrands(s, ev)
  {
    var s := Run(size, planted, evs);
    RunInvariant(size, planted, evs);
    WaitersAsk(s);
    if ev.ReleaseHeld? {
      TotalCovers(s.st, ev.id);
      ReleaseWeight(s, s.st[ev.id].n);
    } else if ev.Cancel? {
      DropHead(s, ev.id);
    }
  }

  lemma DropHead(s: State, id: nat)
    requires QueueOk(s) && id < |s.st|
    ensures s.waiters != [] && s.waiters[0].id != id ==>
              Drop(s.waiters, id) != [] && Drop(s.waiters, id)[0] == s.waiters[0]
    ensures s.waiters != [] && s.waiters[0].id == id ==> Drop(s.waiters, id) == s.waiters[1..] && s.st[id].Queued?
    ensures s.waiters == [] ==> Drop(s.waiters, id) == []
  {
    PendingFacts(s.st);
  }

  // So without such an event the head never fits, whoever else gives up.
  lemma {:induction false} HeadNeverFits(size: int, planted: bool, evs: seq<Event>)
    requires 0 < size
    requires forall i :: 0 <= i < |evs| && Enabled(Run(size, planted, evs[..i]), evs[i]) ==>
               && !CancelStrands(Run(size, planted, evs[..i]), evs[i])
               && !FaultStrands(Run(size, planted, evs[..i]), evs[i])
    ensures !HeadFits(Run(size, planted, evs))
  {
    if evs != [] {
      var front, ev := evs[..|evs| - 1], evs[|evs| - 1];
      forall i | 0 <= i < |front| && Enabled(Run(size, planted, front[..i]), front[i])
        ensures !CancelStrands(Run(size, planted, front[..i]), front[i])
        ensures !FaultStrands(Run(size, planted, front[..i]), front[i])
      {
        assert front[..i] == evs[..i];
      }
      HeadNeverFits(size, planted, front);
      if Enabled(Run(size, planted, front), ev) { StrandsExactly(size, planted, front, ev); }
    }
  }

  // A head that was left behind is granted by the next release of something that is not itself
  // cut short, and by no other event.
  lemma WakesExactly(size: int, planted: bool, evs: seq<Event>, ev: Event)
    requires 0 < size && Enabled(Run(size, planted, evs), ev) && HeadFits(Run(size, planted, evs))
    ensures var s := Run(size, planted, evs);
            && s.waiters[0].id < |Next(s, ev).st|
            && (Next(s, ev).st[s.waiters[0].id].Granted? <==>
                  ev.ReleaseHeld? && s.st[ev.id].n > 0 && !FaultStrands(s, ev))
  {
    var s := Run(size, planted, evs);
    RunInvariant(size, planted, evs);
    PendingFacts(s.st);
    if ev.ReleaseHeld? {
      TotalCovers(s.st, ev.id);
      ReleaseWeight(s, s.st[ev.id].n);
      var r := ReleaseCall(s.planted, s.size, s.cur, s.waiters, s.st[ev.id].n).0;
      if r.Released? { HeadGranted(s, ev.id, r.woken); }
    }
  }

  lemma HeadGranted(s: State, id: nat, k: nat)
    requires QueueOk(s) && id < |s.st| && s.st[id].Held? && 1 <= k <= |s.waiters|
    ensures var st := Grant(s.st[id := Over], s.waiters[..k]);
            s.waiters[0].id < |st| && st[s.waiters[0].id].Granted?
  {
    var st := s.st[id := Over];
    var st' := Grant(st, s.waiters[..k]);
    PendingFacts(s.st);
    PendingUpdate(s.st, id, Over);
    GrantExactly(st, k);
    PendingFacts(st);
    assert st[s.waiters[0].id].Queued? && !st'[s.waiters[0].id].Queued?;
  }

  // ----- When a cancellation loses weight -----

  lemma {:induction false} SameLeaks(st: seq<Status>, st': seq<Status>)
    requires |st| == |st'|
    requires forall i :: 0 <= i < |st| && (st[i].Leaked? || st'[i].Leaked?) ==> st'[i] == st[i]
    ensures LeakedWeight(st') == LeakedWeight(st)
  {
    if st != [] { SameLeaks(st[..|st| - 1], st'[..|st| - 1]); }
  }

  lemma {:induction false} LeakedUpdate(st: seq<Status>, id: nat, n: int)
    requires id < |st| && !st[id].Leaked?
    ensures LeakedWeight(st[id := Leaked(n)]) == LeakedWeight(st) + n
  {
    var m, st' := |st| - 1, st[id := Leaked(n)];
    if id < m {
      assert st'[..m] == st[..m][id := Leaked(n)];
      LeakedUpdate(st[..m], id, n);
    } else {
      assert st'[..m] == st[..m];
    }
  }

  lemma LeakedAppend(st: seq<Status>, x: Status)
    ensures LeakedWeight(st + [x]) == LeakedWeight(st) + if x.Leaked? then x.n else 0
  {
    assert (st + [x])[..|st|] == st;
  }

  // Weight is lost by the cancellation of a caller that has been granted, all it asked for, and by
  // nothing else.
  lemma LeaksExactly(size: int, planted: bool, evs: seq<Event>, ev: Event)
    requires 0 < size && Enabled(Run(size, planted, evs), ev)
    ensures var s := Run(size, planted, evs);
            var lost := LeakedWeight(Next(s, ev).st) - LeakedWeight(s.st);
            if ev.Cancel? && s.st[ev.id].Granted? then lost == s.st[ev.id].n > 0 else lost == 0
  {
    var s := Run(size, planted, evs);
    RunInvariant(size, planted, evs);
    match ev
    case Cancel(id) =>
      if s.st[id].Granted? { LeakedUpdate(s.st, id, s.st[id].n); } else { SameLeaks(s.st, Next(s, ev).st); }
    case ReleaseHeld(id) =>
      ReleaseMoves(s, id);
      SameLeaks(s.st, Next(s, ev).st);
    case Receive(_) => SameLeaks(s.st, Next(s, ev).st);
    case _ => LeakedAppend(s.st, Next(s, ev).st[|s.st|]);
  }

  // A cancellation wakes nobody: with 4 units, two callers holding 2 each, one waiting for 4 and
  // one for 2, the return of 2 units wakes nobody, and when the first of the queue then gives
  // up, the second stays queued although it fits.
  lemma CancelStrandsFitting()
    ensures var s := Run(4, true, [Acquire(2), Acquire(2), Acquire(4), Acquire(2), ReleaseHeld(0), Cancel(2)]);
            && s.waiters == [Waiter(3, 2)] && s.cur == 2 && s.faults == 0
            && s.cur + s.waiters[0].n <= s.size
  {
    FullQueue();
    var evs := [Acquire(2), Acquire(2), Acquire(4), Acquire(2)];
    var s5 := State(4, true, 2, [Waiter(2, 4), Waiter(3, 2)], [Over, Held(2, false), Queued(4), Queued(2)], 0, 0);
    RunMore(4, true, evs, ReleaseHeld(0));
    assert Run(4, true, evs + [ReleaseHeld(0)]) == s5 by {
      assert Fit(4, 2, s5.waiters) == 0;
      assert s5.waiters[..0] == [] && s5.waiters[0..] == s5.waiters;
    }
    RunMore(4, true, evs + [ReleaseHeld(0)], Cancel(2));
    assert Drop(s5.waiters, 2) == [Waiter(3, 2)];
    assert evs + [ReleaseHeld(0)] + [Cancel(2)]
        == [Acquire(2), Acquire(2), Acquire(4), Acquire(2), ReleaseHeld(0), Cancel(2)];
  }

  lemma FullQueue()
    ensures Run(4, true, [Acquire(2), Acquire(2), Acquire(4), Acquire(2)])
         == State(4, true, 4, [Waiter(2, 4), Waiter(3, 2)],
                  [Held(2, false), Held(2, false), Queued(4), Queued(2)], 0, 0)
  {
    var e1, e2, e3 := [Acquire(2)], [Acquire(2), Acquire(2)], [Acquire(2), Acquire(2), Acquire(4)];
    assert Run(4, true, e1) == State(4, true, 2, [], [Held(2, false)], 0, 0) by {
      RunMore(4, true, [], Acquire(2));
      assert [] + [Acquire(2)] == e1;
    }
    assert Run(4, true, e2) == State(4, true, 4, [], [Held(2, false), Held(2, false)], 0, 0) by {
      RunMore(4, true, e1, Acquire(2));
      assert e1 + [Acquire(2)] == e2;
    }
    assert Run(4, true, e3) == State(4, true, 4, [Waiter(2, 4)], [Held(2, false), Held(2, false), Queued(4)], 0, 0) by {
      RunMore(4, true, e2, Acquire(4));
      assert e2 + [Acquire(4)] == e3;
    }
    RunMore(4, true, e3, Acquire(2));
    assert e3 + [Acquire(2)] == [Acquire(2), Acquire(2), Acquire(4), Acquire(2)];
  }
}
