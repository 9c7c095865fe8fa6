/**
 The Weighted semaphore object of pkg/semaphore/semaphore.go. Each lock-protected section is one
 method, proved to take the step of the protocol in SemaphoreModel; a caller that has to wait is
 known by the number it has there.
 */
module Semaphore {
  import opened Wrappers
  import opened SemaphoreModel

  datatype Admission = Admitted | Exceeds | MustWait

  class Weighted {
    const size: int
    const planted: bool    // whether the marked slice access is in the code
    var cur: int
    var waiters: seq<Waiter>

    constructor (size: int, planted: bool)
      ensures this.size == size && this.planted == planted && cur == 0 && waiters == []
    {
      this.size, this.planted := size, planted;
      cur, waiters := 0, [];
    }

    // The protocol state whose weight and queue are this object's.
    ghost predicate Shows(s: State)
      reads this
    {
      s.size == size && s.planted == planted && s.cur == cur && s.waiters == waiters
    }

    // The part of Acquire before the caller starts to wait.
    method Acquire(n: int, ghost s: State, id: nat) returns (r: Admission)
      requires Shows(s) && id == |s.st|
      modifies this
      ensures Shows(Next(s, SemaphoreModel.Acquire(n)))
      ensures r.Admitted? <==> Next(s, SemaphoreModel.Acquire(n)).st[id].Held?
      ensures r.Exceeds? <==> Next(s, SemaphoreModel.Acquire(n)).st[id].Refused?
      ensures r.MustWait? <==> Next(s, SemaphoreModel.Acquire(n)).st[id].Queued?
    {
      if n <= 0 { return Admitted; }
      if n > size { return Exceeds; }
      if cur + n <= size {
        cur := cur + n;
        return Admitted;
      }
      waiters := waiters + [Waiter(id, n)];
      return MustWait;
    }

    method TryAcquire(n: int, ghost s: State) returns (ok: bool)
      requires Shows(s)
      modifies this
      ensures Shows(Next(s, SemaphoreModel.TryAcquire(n)))
      ensures ok <==> Next(s, SemaphoreModel.TryAcquire(n)).st[|s.st|].Held?
    {
      if n <= 0 { return true; }
      if n > size { return false; }
      if cur + n > size { return false; }
      cur := cur + n;
      return true;
    }

    // The part of Acquire after the context was cancelled: the caller leaves the queue if it is
    // still in it, and nothing is given back if it is not.
    method GiveUp(id: nat, ghost s: State)
      requires Shows(s) && Inv(s) && Enabled(s, Cancel(id))
      modifies this
      ensures Shows(Next(s, Cancel(id)))
    {
      ghost var ws := waiters;
      var i := 0;
      assert waiters[..0] + Drop(waiters[0..], id) == Drop(waiters, id) by { assert waiters[0..] == waiters; }
      PendingHas(s.st, id);
      assert ws[0..] == ws;
      while i < |waiters| && waiters[i].id != id
        invariant 0 <= i <= |waiters|
        invariant waiters == ws && cur == old(cur)
        invariant ws[..i] + Drop(ws[i..], id) == Drop(ws, id)
        invariant Has(ws[i..], id) == Has(ws, id)
      {
        DropStep(ws, i, id);
        i := i + 1;
      }
      if i < |waiters| {
        waiters := waiters[..i] + waiters[i + 1..];
        assert ws[i..][1..] == ws[i + 1..];
      } else {
        assert ws[i..] == [];
      }
    }

    // How many waiters were granted, or the panic that cut the call short.
    method Release(n: int) returns (r: SemaphoreModel.Release)
      modifies this
      ensures (r, cur) == ReleaseCall(planted, size, old(cur), old(waiters), n)
      ensures waiters == if r.Released? then old(waiters)[r.woken..] else old(waiters)
    {
      if n <= 0 { return Ignored; }
      if n > cur { return OverReleased; }
      cur := cur - n;
      if planted && cur == 0 && |waiters| > 0 && n >= |waiters| { return Misindexed; }
      var woken := Dispatch();
      return Released(woken);
    }

    // Grant waiters in order until one does not fit.
    method Dispatch() returns (woken: nat)
      modifies this
      ensures woken == Fit(size, old(cur), old(waiters))
      ensures waiters == old(waiters)[woken..] && cur == old(cur) + Asked(old(waiters)[..woken])
    {
      ghost var free, ws := cur, waiters;
      woken := 0;
      assert ws[..0] == [];
      while |waiters| > 0 && cur + waiters[0].n <= size
        invariant 0 <= woken <= |ws| && waiters == ws[woken..]
        invariant cur == free + Asked(ws[..woken])
        invariant Fit(size, free, ws) == woken + Fit(size, cur, waiters)
        decreases |waiters|
      {
        AskedGrows(ws, woken);
        cur := cur + waiters[0].n;
        waiters := waiters[1..];
        woken := woken + 1;
      }
    }

    // Releasing what one caller holds is the protocol's release step.
    method ReleaseHeldBy(id: nat, ghost s: State, n: int) returns (r: SemaphoreModel.Release)
      requires Shows(s) && Enabled(s, ReleaseHeld(id)) && s.st[id].n == n
      modifies this
      ensures Shows(Next(s, ReleaseHeld(id)))
      ensures r.Released? ==>
                && r.woken <= |s.waiters|
                && forall j :: 0 <= j < r.woken && s.waiters[j].id < |s.st| ==>
                     !Next(s, ReleaseHeld(id)).st[s.waiters[j].id].Queued?
    {
      r := Release(n);
      if r.Released? { GrantWakes(s.st[id := Over], s.waiters[..r.woken]); }
    }
  }

  method NewWeighted(size: int, planted: bool) returns (r: Result<Weighted, string>)
    ensures size <= 0 <==> r.Err?
    ensures r.Ok? ==> fresh(r.value) && r.value.Shows(Init(size, planted))
  {
    if size <= 0 { return Err("semaphore: Weighted size must be > 0"); }
    var w := new Weighted(size, planted);
    return Ok(w);
  }

  lemma DropStep(ws: seq<Waiter>, i: nat, id: nat)
    requires i < |ws| && ws[i].id != id
    ensures ws[..i] + Drop(ws[i..], id) == ws[..i + 1] + Drop(ws[i + 1..], id)
    ensures Has(ws[i..], id) == Has(ws[i + 1..], id)
  {
    assert ws[i..][1..] == ws[i + 1..];
    assert ws[..i + 1] == ws[..i] + [ws[i]];
  }

  lemma {:induction false} AskedAppend(ws: seq<Waiter>, w: Waiter)
    ensures Asked(ws + [w]) == Asked(ws) + w.n
  {
    if ws != [] {
      assert (ws + [w])[1..] == ws[1..] + [w];
      AskedAppend(ws[1..], w);
    }
  }

  lemma AskedGrows(ws: seq<Waiter>, k: nat)
    requires k < |ws|
    ensures Asked(ws[..k + 1]) == Asked(ws[..k]) + ws[k].n
  {
    assert ws[..k + 1] == ws[..k] + [ws[k]];
    AskedAppend(ws[..k], ws[k]);
  }

  // Every waiter the dispatch took off the queue has been told.
  lemma {:induction false} GrantWakes(st: seq<Status>, ws: seq<Waiter>)
    ensures forall j :: 0 <= j < |ws| && ws[j].id < |st| ==> !Grant(st, ws)[ws[j].id].Queued?
    ensures forall x :: 0 <= x < |st| && !st[x].Queued? ==> !Grant(st, ws)[x].Queued?
    decreases |ws|
  {
    if ws != [] {
      var st1 := if ws[0].id < |st| then st[ws[0].id := Granted(ws[0].n)] else st;
      GrantWakes(st1, ws[1..]);
      forall j | 0 <= j < |ws| && ws[j].id < |st| ensures !Grant(st, ws)[ws[j].id].Queued? {
        if j > 0 { assert ws[1..][j - 1] == ws[j]; }
      }
    }
  }
}
