/**
 The token bucket of pkg/ratelimit/tokenbucket.go. Clock readings are parameters, in nanoseconds.
 The second unlocks planted in WaitN are left out.
 */
module TokenBucket {
  import opened Wrappers
  import opened Quotients

  const MILLISECOND := 1_000_000
  const SECOND := 1_000_000_000

  datatype Bucket = Bucket(capacity: int, refillPer: int, tokens: int, last: int) {
    predicate Valid() {
      0 < refillPer && 0 <= tokens <= capacity
    }
  }

  // Lazy refill: whole tokens only, and the rest of the elapsed time is kept for later.
  function Refill(b: Bucket, now: int): Bucket
    requires b.Valid()
  {
    var add := if now - b.last <= 0 then 0 else (now - b.last) / b.refillPer;
    if add <= 0 then b
    else b.(tokens := if b.tokens + add > b.capacity then b.capacity else b.tokens + add,
            last := b.last + add * b.refillPer)
  }

  // One attempt to take n tokens: the bucket after it, and whether they were granted.
  function Take(b: Bucket, now: int, n: int): (Bucket, bool)
    requires b.Valid()
  {
    if n <= 0 then (b, true)
    else if n > b.capacity then (b, false)
    else
      var r := Refill(b, now);
      if r.tokens >= n then (r.(tokens := r.tokens - n), true) else (r, false)
  }

  // ----- Lazy refill is eager refill -----

  // What a bucket filled by a timer does each refillPer.
  function Tick(b: Bucket): Bucket {
    b.(tokens := if b.tokens < b.capacity then b.tokens + 1 else b.tokens, last := b.last + b.refillPer)
  }

  function Ticks(b: Bucket, k: nat): Bucket {
    if k == 0 then b else Tick(Ticks(b, k - 1))
  }

  lemma {:induction false} TicksAre(b: Bucket, k: nat)
    requires b.Valid()
    ensures Ticks(b, k) == b.(tokens := if b.tokens + k > b.capacity then b.capacity else b.tokens + k,
                              last := b.last + k * b.refillPer)
  {
    if k > 0 {
      TicksAre(b, k - 1);
      assert k * b.refillPer == (k - 1) * b.refillPer + b.refillPer;
    }
  }

  lemma RefillIs(b: Bucket, now: int, k: nat)
    requires b.Valid() && k * b.refillPer <= now - b.last < k * b.refillPer + b.refillPer
    ensures Refill(b, now) == Ticks(b, k)
    ensures Refill(b, now).last == b.last + k * b.refillPer
  {
    TicksAre(b, k);
    DivIs(now - b.last, b.refillPer, k);
  }

  // A late refill yields the bucket that gained one capped token at every tick, the last tick
  // being the latest not after now: no fraction of a period is lost or counted twice.
  lemma LazyIsEager(b: Bucket, now: int)
    requires b.Valid() && b.last <= now
    ensures var r := Refill(b, now);
            && r == Ticks(b, (now - b.last) / b.refillPer)
            && r.Valid() && r.last <= now < r.last + r.refillPer
  {
    var k := DivBounds(now - b.last, b.refillPer);
    DivAtLeast(now - b.last, b.refillPer, 0);
    RefillIs(b, now, k);
  }

  lemma {:induction false} TicksTwice(b: Bucket, j: nat, k: nat)
    ensures Ticks(Ticks(b, j), k) == Ticks(b, j + k)
  {
    if k > 0 { TicksTwice(b, j, k - 1); }
  }

  // A refill on the way changes nothing.
  lemma RefillTwice(b: Bucket, t1: int, t2: int)
    requires b.Valid() && t1 <= t2
    ensures Refill(b, t1).Valid() && Refill(Refill(b, t1), t2) == Refill(b, t2)
  {
    if b.last <= t1 {
      var p := b.refillPer;
      LazyIsEager(b, t1);
      var r := Refill(b, t1);
      var k1 := DivBounds(t1 - b.last, p);
      var k2 := DivBounds(t2 - r.last, p);
      DivAtLeast(t1 - b.last, p, 0);
      DivAtLeast(t2 - r.last, p, 0);
      RefillIs(b, t1, k1);
      RefillIs(r, t2, k2);
      TicksTwice(b, k1, k2);
      Distribute(k1, k2, p);
      RefillIs(b, t2, k1 + k2);
    }
  }

  // ----- Whole runs -----

  // An attempt to take n tokens, or (n == 0) a mere look at the number of tokens.
  datatype Call = Call(at: int, n: int)

  predicate Timed(calls: seq<Call>) {
    forall i, j :: 0 <= i < j < |calls| ==> calls[i].at <= calls[j].at
  }

  lemma TakeValid(b: Bucket, now: int, n: int)
    requires b.Valid()
    ensures Take(b, now, n).0.Valid() && Refill(b, now).Valid()
    ensures Take(b, now, n).0.refillPer == b.refillPer && Take(b, now, n).0.capacity == b.capacity
  {
  }

  // The answers to the calls, in order.
  function Answers(b: Bucket, calls: seq<Call>): seq<bool>
    requires b.Valid()
    decreases |calls|
  {
    if calls == [] then []
    else
      TakeValid(b, calls[0].at, calls[0].n);
      [Take(b, calls[0].at, calls[0].n).1] + Answers(Take(b, calls[0].at, calls[0].n).0, calls[1..])
  }

  // Looking at the bucket at any time up to the first call changes no answer; used at every
  // point of a run, this makes reads of Tokens invisible.
  lemma {:induction false} PollsAreInvisible(b: Bucket, now: int, calls: seq<Call>)
    requires b.Valid() && Timed(calls) && (calls != [] ==> now <= calls[0].at)
    ensures Refill(b, now).Valid() && Answers(Refill(b, now), calls) == Answers(b, calls)
  {
    TakeValid(b, now, 0);
    if calls != [] {
      var c, r := calls[0], Refill(b, now);
      RefillTwice(b, now, c.at);
      TakeValid(b, c.at, c.n);
      if c.n <= 0 || c.n > b.capacity {
        if |calls| > 1 { assert calls[0].at <= calls[1].at; }
        PollsAreInvisible(b, now, calls[1..]);
      }
    }
  }

  // ----- The rate bound -----

  // Tokens granted by the calls made within [s, t].
  function GrantedIn(b: Bucket, calls: seq<Call>, s: int, t: int): int
    requires b.Valid()
    decreases |calls|
  {
    if calls == [] then 0
    else
      var c := calls[0];
      TakeValid(b, c.at, c.n);
      (if s <= c.at <= t && Take(b, c.at, c.n).1 && c.n > 0 then c.n else 0)
      + GrantedIn(Take(b, c.at, c.n).0, calls[1..], s, t)
  }

  // The tokens still obtainable up to time t: those in the bucket, and one per tick to come.
  function Budget(b: Bucket, t: int): int
    requires b.Valid()
  {
    b.tokens + if b.last <= t then (t - b.last) / b.refillPer else 0
  }

  lemma TicksMeanwhile(p: int, from: int, k: int, t: int)
    requires 0 < p
    ensures (t - (from + k * p)) / p == (t - from) / p - k
  {
    DivShift(t - (from + k * p), p, k);
  }

  lemma BudgetAfterRefill(b: Bucket, now: int, t: int)
    requires b.Valid() && now <= t
    ensures Refill(b, now).Valid() && Budget(Refill(b, now), t) <= Budget(b, t)
  {
    if b.last <= now {
      var k := DivBounds(now - b.last, b.refillPer);
      DivAtLeast(now - b.last, b.refillPer, 0);
      RefillIs(b, now, k);
      TicksAre(b, k);
      TicksMeanwhile(b.refillPer, b.last, k, t);
    }
  }

  // Whatever a call made by time t is granted, is taken off the budget.
  lemma TakeSpendsBudget(b: Bucket, now: int, n: int, t: int)
    requires b.Valid() && now <= t
    ensures var (b', ok) := Take(b, now, n);
            && b'.Valid() && 0 <= Budget(b', t)
            && Budget(b', t) + (if ok && n > 0 then n else 0) <= Budget(b, t)
  {
    BudgetAfterRefill(b, now, t);
    var b' := Take(b, now, n).0;
    if b'.last <= t { DivAtLeast(t - b'.last, b'.refillPer, 0); }
  }

  // Just after a refill at s, the budget up to t is bounded.
  lemma BudgetBound(b: Bucket, s: int, t: int)
    requires b.Valid() && s <= t
    ensures Refill(b, s).Valid() && Budget(Refill(b, s), t) <= b.capacity + (t - s) / b.refillPer + 1
  {
    var r, p := Refill(b, s), b.refillPer;
    if b.last <= s { LazyIsEager(b, s); }
    DivAtLeast(t - s, p, 0);
    if r.last <= t {
      DivMonotone(t - r.last, t - s + 1 * p, p);
      DivShift(t - s, p, 1);
    }
  }

  lemma {:induction false} GrantedWithinBudget(b: Bucket, calls: seq<Call>, s: int, t: int)
    requires b.Valid() && Timed(calls)
    ensures calls != [] && calls[0].at <= t ==> GrantedIn(b, calls, s, t) <= Budget(b, t)
    ensures calls == [] || t < calls[0].at ==> GrantedIn(b, calls, s, t) == 0
    decreases |calls|
  {
    if calls != [] {
      var c, rest := calls[0], calls[1..];
      TakeValid(b, c.at, c.n);
      if rest != [] { assert c.at <= calls[1].at; }
      GrantedWithinBudget(Take(b, c.at, c.n).0, rest, s, t);
      if c.at <= t { TakeSpendsBudget(b, c.at, c.n, t); }
    }
  }

  // The tokens granted in any window [s, t] of any run are at most the capacity, plus one for
  // every whole refill period in the window, plus one.
  lemma {:induction false} RateBound(b: Bucket, calls: seq<Call>, s: int, t: int)
    requires b.Valid() && Timed(calls) && s <= t
    ensures GrantedIn(b, calls, s, t) <= b.capacity + (t - s) / b.refillPer + 1
    decreases |calls|
  {
    var p := b.refillPer;
    DivAtLeast(t - s, p, 0);
    if calls != [] {
      var c := calls[0];
      TakeValid(b, c.at, c.n);
      if c.at < s {
        RateBound(Take(b, c.at, c.n).0, calls[1..], s, t);
      } else if c.at <= t {
        var r := Refill(b, c.at);
        BudgetBound(b, c.at, t);
        SameGrants(b, c.at, calls, s, t);
        GrantedWithinBudget(r, calls, s, t);
        DivMonotone(t - c.at, t - s, p);
      } else {
        GrantedWithinBudget(b, calls, s, t);
      }
    }
  }

  lemma {:induction false} SameGrants(b: Bucket, now: int, calls: seq<Call>, s: int, t: int)
    requires b.Valid() && Timed(calls) && (calls != [] ==> now <= calls[0].at)
    ensures Refill(b, now).Valid() && GrantedIn(Refill(b, now), calls, s, t) == GrantedIn(b, calls, s, t)
    decreases |calls|
  {
    TakeValid(b, now, 0);
    if calls != [] {
      var c, r := calls[0], Refill(b, now);
      RefillTwice(b, now, c.at);
      TakeValid(b, c.at, c.n);
      if c.n <= 0 || c.n > b.capacity {
        if |calls| > 1 { assert calls[0].at <= calls[1].at; }
        SameGrants(b, now, calls[1..], s, t);
      }
    }
  }

  // The bound is reached: a full bucket of one, asked just before and at its first tick.
  lemma RateBoundTight()
    ensures var b, calls := Bucket(1, 10, 1, 0), [Call(9, 1), Call(10, 1)];
            GrantedIn(b, calls, 9, 10) == 2 == b.capacity + (10 - 9) / b.refillPer + 1
  {
    var b := Bucket(1, 10, 1, 0);
    assert Take(b, 9, 1) == (Bucket(1, 10, 0, 0), true);
    assert Take(Bucket(1, 10, 0, 0), 10, 1) == (Bucket(1, 10, 0, 10), true);
    assert [Call(9, 1), Call(10, 1)][1..] == [Call(10, 1)];
    assert GrantedIn(Bucket(1, 10, 0, 10), [], 9, 10) == 0;
    assert GrantedIn(Bucket(1, 10, 0, 0), [Call(10, 1)], 9, 10) == 1;
  }

  // ----- Waiting -----

  // How long WaitN sleeps after it found the bucket short of n.
  function Sleep(b: Bucket, n: int): int {
    var waitFor := (n - b.tokens) * b.refillPer;
    if waitFor < MILLISECOND then MILLISECOND else waitFor
  }

  // A bucket short of n tokens can serve them from one moment on, and no earlier.
  lemma ServesFrom(b: Bucket, n: int, t: int)
    requires b.Valid() && b.tokens < n <= b.capacity
    ensures Take(b, t, n).1 <==> b.last + (n - b.tokens) * b.refillPer <= t
  {
    var need := n - b.tokens;
    DivAtLeast(t - b.last, b.refillPer, need);
    DivAtLeast(t - b.last, b.refillPer, 1);
    assert need * b.refillPer > 0;
  }

  // The sleep is long enough if nobody else takes tokens meanwhile, and too long by less than
  // one period, or by the floor of one millisecond.
  lemma SleepSuffices(b: Bucket, n: int, now: int, t: int)
    requires b.Valid() && b.last <= now && 0 < n <= b.capacity && !Take(b, now, n).1
    requires now + Sleep(Take(b, now, n).0, n) <= t
    ensures var r := Take(b, now, n).0; r.Valid() && Take(r, t, n).1
    ensures var r := Take(b, now, n).0;
            MILLISECOND <= Sleep(r, n) && (Sleep(r, n) > MILLISECOND ==> !Take(r, now + Sleep(r, n) - r.refillPer, n).1)
  {
    LazyIsEager(b, now);
    var r := Take(b, now, n).0;
    ServesFrom(r, n, t);
    ServesFrom(r, n, now + Sleep(r, n) - r.refillPer);
  }

  datatype Wait = Granted | Exceeds | Canceled | StillWaiting

  // WaitN with the given clock readings, one a round, the context being found cancelled in round
  // `cancelled`; StillWaiting when the readings are used up.
  function WaitRun(b: Bucket, n: int, clock: seq<int>, cancelled: nat): (Wait, Bucket)
    requires b.Valid()
    decreases |clock|
  {
    if n <= 0 then (Granted, b)
    else if cancelled == 0 then (Canceled, b)
    else if clock == [] then (StillWaiting, b)
    else if n > b.capacity then (Exceeds, b)
    else
      TakeValid(b, clock[0], n);
      var (r, ok) := Take(b, clock[0], n);
      if ok then (Granted, r) else WaitRun(r, n, clock[1..], cancelled - 1)
  }

  // Nothing is waited for if nothing is asked; else a cancellation before the first round ends the
  // wait, and so does asking for more than the bucket can ever hold.
  lemma WaitOutcome(b: Bucket, n: int, clock: seq<int>, cancelled: nat)
    requires b.Valid()
    ensures var r := WaitRun(b, n, clock, cancelled).0;
            && (n <= 0 ==> r == Granted)
            && (n > 0 && cancelled == 0 ==> r == Canceled)
            && (n > 0 && cancelled > 0 && clock != [] ==> (r == Exceeds <==> n > b.capacity))
            && (r == Granted && n > 0 ==> cancelled > 0 && clock != [])
  {
    if 0 < n <= b.capacity && cancelled > 0 && clock != [] { NeverExceeds(b, n, clock, cancelled); }
  }

  lemma {:induction false} NeverExceeds(b: Bucket, n: int, clock: seq<int>, cancelled: nat)
    requires b.Valid() && n <= b.capacity
    ensures WaitRun(b, n, clock, cancelled).0 != Exceeds
    decreases |clock|
  {
    if 0 < n && cancelled > 0 && clock != [] {
      TakeValid(b, clock[0], n);
      NeverExceeds(Take(b, clock[0], n).0, n, clock[1..], cancelled - 1);
    }
  }

  // A caller alone at the bucket waits at most once.
  lemma WaitsAtMostOnce(b: Bucket, n: int, clock: seq<int>, cancelled: nat)
    requires b.Valid() && 0 < n <= b.capacity && 2 <= |clock| && 2 <= cancelled && b.last <= clock[0]
    requires clock[0] + Sleep(Take(b, clock[0], n).0, n) <= clock[1]
    ensures WaitRun(b, n, clock, cancelled).0.Granted?
    ensures WaitRun(b, n, clock, cancelled) == WaitRun(b, n, clock[..2], cancelled)
  {
    if !Take(b, clock[0], n).1 {
      SleepSuffices(b, n, clock[0], clock[1]);
      TakeValid(b, clock[0], n);
      assert clock[1..][0] == clock[1] && clock[..2][1..][0] == clock[1];
    }
  }

  // ----- The object -----

  class TokenBucket {
    const capacity: int
    const refillPer: int
    var tokens: int
    var last: int

    function State(): Bucket
      reads this
    {
      Bucket(capacity, refillPer, tokens, last)
    }

    constructor (capacity: int, refillPer: int, now: int)
      ensures State() == Bucket(capacity, refillPer, capacity, now)
    {
      this.capacity, this.refillPer := capacity, refillPer;
      tokens, last := capacity, now;
    }

    method RefillLocked(now: int)
      requires State().Valid()
      modifies this
      ensures State() == Refill(old(State()), now)
    {
      var elapsed := now - last;
      if elapsed <= 0 { return; }
      var add := elapsed / refillPer;
      if add <= 0 { return; }
      tokens := tokens + add;
      if tokens > capacity { tokens := capacity; }
      last := last + add * refillPer;
    }

    method AllowN(n: int, now: int) returns (ok: bool)
      requires State().Valid()
      modifies this
      ensures (State(), ok) == Take(old(State()), now, n)
      ensures State().Valid()
    {
      TakeValid(State(), now, n);
      if n <= 0 { return true; }
      if n > capacity { return false; }
      RefillLocked(now);
      if tokens >= n {
        tokens := tokens - n;
        return true;
      }
      return false;
    }

    method WaitN(n: int, clock: seq<int>, cancelled: nat) returns (r: Wait)
      requires State().Valid()
      modifies this
      ensures (r, State()) == WaitRun(old(State()), n, clock, cancelled)
    {
      if n <= 0 { return Granted; }
      var round := 0;
      assert clock[0..] == clock;
      while true
        invariant round <= |clock| && round <= cancelled && State().Valid()
        invariant WaitRun(old(State()), n, clock, cancelled) == WaitRun(State(), n, clock[round..], cancelled - round)
        decreases |clock| - round
      {
        if round == cancelled { return Canceled; }
        if round == |clock| { return StillWaiting; }
        if n > capacity { return Exceeds; }
        ghost var before := State();
        RefillLocked(clock[round]);
        TakeValid(before, clock[round], n);
        assert clock[round..][1..] == clock[round + 1..];
        if tokens >= n {
          tokens := tokens - n;
          return Granted;
        }
        round := round + 1;
      }
    }

    method Tokens(now: int) returns (k: int)
      requires State().Valid()
      modifies this
      ensures State() == Refill(old(State()), now) && k == State().tokens
    {
      RefillLocked(now);
      return tokens;
    }
  }

  // Rates are real numbers here, where the program has floats.
  method NewTokenBucket(ratePerSec: real, capacity: int, now: int) returns (r: Result<TokenBucket, string>)
    ensures r.Err? <==> ratePerSec <= 0.0
    ensures r.Ok? ==>
              && fresh(r.value) && r.value.State().Valid()
              && r.value.tokens == r.value.capacity >= 1 && r.value.last == now
              && (capacity > 0 ==> r.value.capacity == capacity)
              && (capacity <= 0 ==> r.value.capacity as real - 1.0 <= ratePerSec < r.value.capacity as real)
              && (r.value.refillPer > 1 ==> r.value.refillPer as real * ratePerSec <= SECOND as real)
              && (r.value.refillPer + 1) as real * ratePerSec > SECOND as real
  {
    if ratePerSec <= 0.0 { return Err("ratelimit: ratePerSec must be > 0"); }
    var period := SECOND as real / ratePerSec;
    assert period * ratePerSec == SECOND as real;
    var refillPer := period.Floor;
    if refillPer <= 0 { refillPer := 1; }
    var cap := capacity;
    if cap <= 0 { cap := ratePerSec.Floor + 1; }
    ProductMonotone(period, (refillPer + 1) as real, ratePerSec);
    if refillPer > 1 { ProductMonotone(refillPer as real, period, ratePerSec); }
    var b := new TokenBucket(cap, refillPer, now);
    return Ok(b);
  }

  lemma ProductMonotone(x: real, y: real, z: real)
    requires 0.0 < z
    ensures x <= y ==> x * z <= y * z
    ensures x < y ==> x * z < y * z
  {
  }
}
