/**
 The rolling window of pkg/rollingwindow/rolling.go: a ring of buckets, each holding the samples of
 one stretch of time. Values are real numbers here, where the program has floats; the start times
 kept in the buckets for display are left out.
 */
module RollingWindow {
  import opened Wrappers
  import opened Quotients

  datatype Bucket = Bucket(sum: real, count: int)

  const EMPTY := Bucket(0.0, 0)

  function Plus(a: Bucket, b: Bucket): Bucket {
    Bucket(a.sum + b.sum, a.count + b.count)
  }

  function Total(bs: seq<Bucket>): Bucket {
    if bs == [] then EMPTY
    else
      var front, last := Total(bs[..|bs| - 1]), bs[|bs| - 1];
      Bucket(front.sum + last.sum, front.count + last.count)
  }

  // ----- What the window stands for -----

  // n samples of value v, added at one moment.
  datatype Sample = Sample(at: int, v: real, n: int)

  // What a sample is worth, and the epoch it is filed under.
  datatype Filed = Filed(epoch: int, worth: Bucket)

  // How many bucket lengths the window has moved on since the first sample.
  function Latest(log: seq<Filed>): int {
    if log == [] then 0 else log[|log| - 1].epoch
  }

  // How a sample is filed after those in the log, the first of them being at `first`: under the
  // whole bucket lengths since then, and never under an earlier epoch than the one before it.
  function File(log: seq<Filed>, first: int, s: Sample, dur: int): Filed
    requires 0 < dur
  {
    var now := (s.at - first) / dur;
    Filed(if now > Latest(log) then now else Latest(log), Bucket(s.v * s.n as real, s.n))
  }

  // The very first sample is stored, not multiplied.
  function Log(ss: seq<Sample>, dur: int): (log: seq<Filed>)
    requires 0 < dur
    ensures |log| == |ss|
  {
    if ss == [] then []
    else
      var before, s := Log(ss[..|ss| - 1], dur), ss[|ss| - 1];
      if before == [] then [Filed(0, Bucket(s.v, s.n))] else before + [File(before, ss[0].at, s, dur)]
  }

  // Every sample is filed for what it is, n times v; but the first for a single v.
  lemma {:induction false} WorthIs(ss: seq<Sample>, dur: int, i: nat)
    requires 0 < dur && i < |ss|
    ensures Log(ss, dur)[i].worth.count == ss[i].n
    ensures Log(ss, dur)[i].worth.sum == if i == 0 then ss[i].v else ss[i].v * ss[i].n as real
  {
    var front := ss[..|ss| - 1];
    if i < |front| {
      WorthIs(front, dur, i);
      assert Log(ss, dur)[i] == Log(front, dur)[i];
    }
  }

  ghost predicate Ordered(log: seq<Filed>) {
    forall i :: 0 <= i < |log| ==> 0 <= log[i].epoch <= Latest(log)
  }

  lemma {:induction false} LogOrdered(ss: seq<Sample>, dur: int)
    requires 0 < dur
    ensures Ordered(Log(ss, dur))
  {
    if ss != [] {
      var before := Log(ss[..|ss| - 1], dur);
      LogOrdered(ss[..|ss| - 1], dur);
      assert forall i :: 0 <= i < |before| ==> Log(ss, dur)[i] == before[i];
    }
  }

  // Everything filed from epoch lo up to and including epoch hi.
  function Within(log: seq<Filed>, lo: int, hi: int): Bucket {
    if log == [] then EMPTY
    else
      var front, last := Within(log[..|log| - 1], lo, hi), log[|log| - 1];
      if lo <= last.epoch <= hi then Bucket(front.sum + last.worth.sum, front.count + last.worth.count) else front
  }

  lemma {:induction false} NothingThere(log: seq<Filed>, lo: int, hi: int)
    requires forall i :: 0 <= i < |log| ==> !(lo <= log[i].epoch <= hi)
    ensures Within(log, lo, hi) == EMPTY
  {
    if log != [] { NothingThere(log[..|log| - 1], lo, hi); }
  }

  lemma {:induction false} WithinSplits(log: seq<Filed>, lo: int, mid: int, hi: int)
    requires lo <= mid + 1 && mid <= hi
    ensures Within(log, lo, hi) == Plus(Within(log, lo, mid), Within(log, mid + 1, hi))
  {
    if log != [] { WithinSplits(log[..|log| - 1], lo, mid, hi); }
  }

  lemma WithinAppend(log: seq<Filed>, x: Filed, lo: int, hi: int)
    ensures Within(log + [x], lo, hi)
         == if lo <= x.epoch <= hi then Plus(Within(log, lo, hi), x.worth) else Within(log, lo, hi)
  {
    assert (log + [x])[..|log|] == log;
  }

  lemma EpochMoves(at: int, first: int, e: int, dur: int)
    requires 0 < dur
    ensures var front, now := first + e * dur, (at - first) / dur;
            (if now > e then now else e) == e + if at >= front then (at - front) / dur else 0
  {
    DivShift(at - first - e * dur, dur, e);
    DivAtLeast(at - first, dur, e);
    DivAtLeast(at - first, dur, e + 1);
    DivAtLeast(at - first - e * dur, dur, 0);
  }

  // A further sample moves the window by the whole bucket lengths since its front.
  lemma LogAppend(ss: seq<Sample>, s: Sample, dur: int)
    requires 0 < dur && ss != []
    ensures var e := Latest(Log(ss, dur));
            var front := ss[0].at + e * dur;
            var x := File(Log(ss, dur), ss[0].at, s, dur);
            && Log(ss + [s], dur) == Log(ss, dur) + [x]
            && x.epoch == e + (if s.at >= front then (s.at - front) / dur else 0)
  {
    EpochMoves(s.at, ss[0].at, Latest(Log(ss, dur)), dur);
    assert (ss + [s])[..|ss|] == ss && (ss + [s])[0] == ss[0];
  }

  // How the next sample is filed, the window being at `front` so far.
  lemma NextFiled(ss: seq<Sample>, s: Sample, dur: int, front: int) returns (x: Filed)
    requires 0 < dur && ss != [] && front == ss[0].at + Latest(Log(ss, dur)) * dur
    ensures var advance := if s.at >= front then (s.at - front) / dur else 0;
            && Log(ss + [s], dur) == Log(ss, dur) + [x] && Ordered(Log(ss, dur) + [x])
            && x == Filed(Latest(Log(ss, dur)) + advance, Bucket(s.v * s.n as real, s.n))
            && front + advance * dur == ss[0].at + x.epoch * dur
  {
    LogAppend(ss, s, dur);
    LogOrdered(ss + [s], dur);
    x := File(Log(ss, dur), ss[0].at, s, dur);
    Distribute(Latest(Log(ss, dur)), if s.at >= front then (s.at - front) / dur else 0, dur);
  }

  // ----- The ring -----

  // How many places slot k of a ring of n lies behind the head.
  function Behind(head: nat, k: nat, n: nat): int {
    if k <= head then head - k else head - k + n
  }

  function Wrap(i: nat, n: nat): int {
    if i < n then i else i - n
  }

  lemma WrapIsMod(i: nat, n: nat)
    requires 0 < n && i < 2 * n
    ensures i % n == Wrap(i, n)
  {
    if i >= n { assert i == n + (i - n); }
  }

  // The slot j places behind the head holds exactly what was filed j epochs ago.
  ghost predicate Rings(bs: seq<Bucket>, head: nat, log: seq<Filed>, epoch: int) {
    forall k :: 0 <= k < |bs| ==>
      bs[k] == Within(log, epoch - Behind(head, k, |bs|), epoch - Behind(head, k, |bs|))
  }

  // Emptying the slots that the head passes over moves the ring on.
  lemma Skipped(bs: seq<Bucket>, head: nat, log: seq<Filed>, advance: nat, bs': seq<Bucket>)
    requires 0 < |bs| == |bs'| && head < |bs| && Ordered(log) && Rings(bs, head, log, Latest(log))
    requires var steps := if advance > |bs| then |bs| else advance;
             forall k :: 0 <= k < |bs| ==>
               bs'[k] == if Behind(Wrap(head + steps, |bs|), k, |bs|) < steps then EMPTY else bs[k]
    ensures var steps := if advance > |bs| then |bs| else advance;
            Rings(bs', Wrap(head + steps, |bs|), log, Latest(log) + advance)
  {
    var n, steps := |bs|, if advance > |bs| then |bs| else advance;
    var head' := Wrap(head + steps, n);
    forall k | 0 <= k < n
      ensures bs'[k]
           == Within(log, Latest(log) + advance - Behind(head', k, n), Latest(log) + advance - Behind(head', k, n))
    {
      if Behind(head', k, n) < steps {
        NothingThere(log, Latest(log) + advance - Behind(head', k, n), Latest(log) + advance - Behind(head', k, n));
      } else {
        assert advance - Behind(head', k, n) == 0 - Behind(head, k, n);
      }
    }
  }

  // Adding to the bucket at the head files a sample under the current epoch.
  lemma Added(bs: seq<Bucket>, head: nat, log: seq<Filed>, x: Filed)
    requires head < |bs| && Rings(bs, head, log, x.epoch)
    ensures Rings(bs[head := Plus(bs[head], x.worth)], head, log + [x], x.epoch)
  {
    forall k | 0 <= k < |bs|
      ensures bs[head := Plus(bs[head], x.worth)][k]
           == Within(log + [x], x.epoch - Behind(head, k, |bs|), x.epoch - Behind(head, k, |bs|))
    {
      WithinAppend(log, x, x.epoch - Behind(head, k, |bs|), x.epoch - Behind(head, k, |bs|));
    }
  }

  lemma {:induction false} TotalAppend(bs: seq<Bucket>, cs: seq<Bucket>)
    ensures Total(bs + cs) == Plus(Total(bs), Total(cs))
  {
    if cs == [] {
      assert bs + cs == bs;
    } else {
      assert (bs + cs)[..|bs + cs| - 1] == bs + cs[..|cs| - 1];
      TotalAppend(bs, cs[..|cs| - 1]);
    }
  }

  // Buckets for consecutive epochs, from epoch lo on.
  ghost predicate Consecutive(bs: seq<Bucket>, log: seq<Filed>, lo: int) {
    forall k :: 0 <= k < |bs| ==> bs[k] == Within(log, lo + k, lo + k)
  }

  // They hold together what was filed in those epochs.
  lemma {:induction false} TotalOfEpochs(bs: seq<Bucket>, log: seq<Filed>, lo: int)
    requires Consecutive(bs, log, lo)
    ensures Total(bs) == Within(log, lo, lo + |bs| - 1)
  {
    if bs == [] {
      NothingThere(log, lo, lo - 1);
    } else {
      var m := |bs| - 1;
      assert Consecutive(bs[..m], log, lo);
      TotalOfEpochs(bs[..m], log, lo);
      OneMoreEpoch(bs, log, lo);
    }
  }

  lemma OneMoreEpoch(bs: seq<Bucket>, log: seq<Filed>, lo: int)
    requires bs != []
    requires var m := |bs| - 1;
             Total(bs[..m]) == Within(log, lo, lo + m - 1) && bs[m] == Within(log, lo + m, lo + m)
    ensures Total(bs) == Within(log, lo, lo + |bs| - 1)
  {
    var m := |bs| - 1;
    WithinSplits(log, lo, lo + m - 1, lo + m);
    TotalLast(bs);
  }

  lemma TotalLast(bs: seq<Bucket>)
    requires bs != []
    ensures Total(bs) == Plus(Total(bs[..|bs| - 1]), bs[|bs| - 1])
  {
  }

  // The slots of a ring, wherever its head is, hold together what was filed in the last n epochs.
  lemma TotalOfRing(bs: seq<Bucket>, head: nat, log: seq<Filed>, e: int)
    requires head < |bs| && Rings(bs, head, log, e)
    ensures Total(bs) == Within(log, e - |bs| + 1, e)
  {
    var newer, older := bs[..head + 1], bs[head + 1..];
    RingSplits(bs, head, log, e);
    TotalOfEpochs(newer, log, e - head);
    TotalOfEpochs(older, log, e - |bs| + 1);
    TotalOfTwo(bs, head + 1);
    WithinSplits(log, e - |bs| + 1, e - head - 1, e);
  }

  lemma TotalOfTwo(bs: seq<Bucket>, k: nat)
    requires k <= |bs|
    ensures Total(bs) == Plus(Total(bs[k..]), Total(bs[..k]))
  {
    assert bs == bs[..k] + bs[k..];
    TotalAppend(bs[..k], bs[k..]);
    PlusCommutes(Total(bs[..k]), Total(bs[k..]));
  }

  lemma PlusCommutes(a: Bucket, b: Bucket)
    ensures Plus(a, b) == Plus(b, a)
  {
  }

  lemma RingSplits(bs: seq<Bucket>, head: nat, log: seq<Filed>, e: int)
    requires head < |bs| && Rings(bs, head, log, e)
    ensures Consecutive(bs[..head + 1], log, e - head)
    ensures Consecutive(bs[head + 1..], log, e - |bs| + 1)
  {
    var n := |bs|;
    var newer, older := bs[..head + 1], bs[head + 1..];
    forall k | 0 <= k < |newer| ensures newer[k] == Within(log, e - head + k, e - head + k) {
      assert e - Behind(head, k, n) == e - head + k;
    }
    forall k | 0 <= k < |older| ensures older[k] == Within(log, e - n + 1 + k, e - n + 1 + k) {
      assert e - Behind(head, head + 1 + k, n) == e - n + 1 + k;
    }
  }

  // ----- What the last n epochs mean in time -----

  predicate Timed(ss: seq<Sample>) {
    forall i, j :: 0 <= i < j < |ss| ==> ss[i].at <= ss[j].at
  }

  lemma {:induction false} EpochIs(ss: seq<Sample>, dur: int, i: nat)
    requires 0 < dur && Timed(ss) && i < |ss|
    ensures Log(ss, dur)[i].epoch == (ss[i].at - ss[0].at) / dur
  {
    var m := |ss| - 1;
    if i < m {
      EpochIs(ss[..m], dur, i);
    } else if 0 < m {
      EpochIs(ss[..m], dur, m - 1);
      DivMonotone(ss[m - 1].at - ss[0].at, ss[m].at - ss[0].at, dur);
    }
  }

  // While time runs forward, a sample at most n - 1 bucket lengths older than the newest is still
  // in the window, and one n bucket lengths older or more has left it.
  lemma WindowInTime(ss: seq<Sample>, dur: int, n: int, i: nat)
    requires 0 < dur && Timed(ss) && i < |ss|
    ensures var age := ss[|ss| - 1].at - ss[i].at;
            var log := Log(ss, dur);
            && (age <= (n - 1) * dur ==> Latest(log) - n + 1 <= log[i].epoch)
            && (age >= n * dur ==> log[i].epoch < Latest(log) - n + 1)
  {
    var x, last := ss[i].at - ss[0].at, ss[|ss| - 1].at - ss[0].at;
    EpochIs(ss, dur, i);
    EpochIs(ss, dur, |ss| - 1);
    DivShift(x, dur, n - 1);
    DivShift(x, dur, n);
    if last <= x + (n - 1) * dur { DivMonotone(last, x + (n - 1) * dur, dur); }
    if last >= x + n * dur { DivMonotone(x + n * dur, last, dur); }
  }

  // ----- The first sample -----

  // The log with every sample counted as often as it was added, the first one too.
  function TrueLog(ss: seq<Sample>, dur: int): (log: seq<Filed>)
    requires 0 < dur
    ensures |log| == |ss|
  {
    if ss == [] then []
    else
      var before := TrueLog(ss[..|ss| - 1], dur);
      before + [File(before, ss[0].at, ss[|ss| - 1], dur)]
  }

  lemma {:induction false} LogsDiffer(ss: seq<Sample>, dur: int)
    requires 0 < dur && ss != []
    ensures TrueLog(ss, dur) == Log(ss, dur)[0 := File([], ss[0].at, ss[0], dur)]
    ensures File([], ss[0].at, ss[0], dur).epoch == 0 == Log(ss, dur)[0].epoch
    ensures Log(ss, dur)[0].worth.sum == ss[0].v
  {
    var front := ss[..|ss| - 1];
    assert (ss[0].at - ss[0].at) / dur == 0;
    if front != [] {
      LogsDiffer(front, dur);
      assert Latest(TrueLog(front, dur)) == Latest(Log(front, dur));
    }
  }

  lemma {:induction false} WithinReplaced(log: seq<Filed>, x: Filed, lo: int, hi: int)
    requires log != [] && x.epoch == log[0].epoch
    ensures Within(log, lo, hi).sum - Within(log[0 := x], lo, hi).sum
         == if lo <= x.epoch <= hi then log[0].worth.sum - x.worth.sum else 0.0
  {
    var n := |log| - 1;
    if n > 0 {
      WithinReplaced(log[..n], x, lo, hi);
      assert log[0 := x][..n] == log[..n][0 := x];
    } else {
      assert log[0 := x][..n] == log[..n] == [];
    }
  }

  // The sum kept is the true one exactly if the first sample is outside, single, or zero.
  lemma SumExactly(ss: seq<Sample>, dur: int, lo: int, hi: int)
    requires 0 < dur && ss != []
    ensures Within(Log(ss, dur), lo, hi).sum == Within(TrueLog(ss, dur), lo, hi).sum
       <==> !(lo <= 0 <= hi) || ss[0].n == 1 || ss[0].v == 0.0
  {
    LogsDiffer(ss, dur);
    WithinReplaced(Log(ss, dur), File([], ss[0].at, ss[0], dur), lo, hi);
    ProductIs(ss[0].v, ss[0].n as real);
  }

  lemma ProductIs(v: real, n: real)
    ensures v == v * n <==> v == 0.0 || n == 1.0
  {
    assert v * n - v == v * (n - 1.0);
  }

  // ----- The object -----

  class RollingWindow {
    const n: nat
    const bucketDur: int
    const buckets: array<Bucket>
    var head: nat
    var lastTs: Option<int>
    ghost var samples: seq<Sample>    // everything added since the last reset
    ghost var log: seq<Filed>

    ghost predicate Shape()
      reads this
    {
      && 0 < n == buckets.Length && 0 < bucketDur && head < n
      && log == Log(samples, bucketDur) && Ordered(log)
      && lastTs == if samples == [] then None else Some(samples[0].at + Latest(log) * bucketDur)
    }

    ghost predicate Valid()
      reads this, buckets
    {
      Shape() && Rings(buckets[..], head, log, Latest(log))
    }

    constructor (n: nat, bucketDur: int)
      requires 0 < n && 0 < bucketDur
      ensures Valid() && fresh(buckets) && samples == [] && this.n == n && this.bucketDur == bucketDur
    {
      this.n, this.bucketDur := n, bucketDur;
      head, lastTs, samples, log := 0, None, [], [];
      buckets := new Bucket[n](_ => EMPTY);
    }

    // Move the head forward over `steps` slots and empty them.
    method Skip(steps: nat)
      requires 0 < n == buckets.Length && head < n && steps <= n
      modifies this`head, buckets
      ensures head == Wrap(old(head) + steps, n)
      ensures forall k :: 0 <= k < n ==>
                buckets[k] == if Behind(head, k, n) < steps then EMPTY else old(buckets[k])
    {
      for i := 1 to steps + 1
        invariant head == old(head)
        invariant forall k :: 0 <= k < n ==>
                    buckets[k] == if Behind(Wrap(head + i - 1, n), k, n) < i - 1 then EMPTY else old(buckets[k])
      {
        WrapIsMod(head + i, n);
        var idx := (head + i) % n;
        buckets[idx] := EMPTY;
      }
      WrapIsMod(head + steps, n);
      head := (head + steps) % n;
    }

    // The ring after the window has moved on.
    method Advance(advance: nat)
      requires Valid()
      modifies this`head, buckets
      ensures head < n && Rings(buckets[..], head, log, Latest(log) + advance)
    {
      if advance > 0 {
        var steps := if advance > n then n else advance;
        ghost var bs := buckets[..];
        Skip(steps);
        Skipped(bs, old(head), log, advance, buckets[..]);
      }
    }

    method AddToHead(v: real, count: int, ghost x: Filed)
      requires head < n == buckets.Length && Rings(buckets[..], head, log, x.epoch)
      requires x.worth == Bucket(v * count as real, count)
      modifies buckets
      ensures Rings(buckets[..], head, log + [x], x.epoch)
    {
      Added(buckets[..], head, log, x);
      var b := buckets[head];
      buckets[head] := Bucket(b.sum + v * count as real, b.count + count);
      assert buckets[..] == old(buckets[..])[head := Plus(b, x.worth)];
    }

    method AddAt(at: int, v: real, count: int)
      requires Valid()
      modifies this`head, this`lastTs, this`samples, this`log, buckets
      ensures Valid() && samples == old(samples) + [Sample(at, v, count)]
    {
      if lastTs.None? {
        FirstAt(at, v, count);
      } else {
        NextAt(at, v, count);
      }
    }

    // By how many buckets the window moves on to reach a moment.
    method StepsTo(at: int) returns (advance: nat)
      requires lastTs.Some? && 0 < bucketDur
      ensures advance == if at >= lastTs.value then (at - lastTs.value) / bucketDur else 0
    {
      var elapsed := at - lastTs.value;
      advance := 0;
      if elapsed >= 0 {
        DivAtLeast(elapsed, bucketDur, 0);
        advance := elapsed / bucketDur;
      }
    }

    method NextAt(at: int, v: real, count: int)
      requires Valid() && lastTs.Some?
      modifies this`head, this`lastTs, this`samples, this`log, buckets
      ensures Valid() && samples == old(samples) + [Sample(at, v, count)]
    {
      ghost var s := Sample(at, v, count);
      ghost var x := NextFiled(samples, s, bucketDur, lastTs.value);
      var advance := StepsTo(at);
      Advance(advance);
      AddToHead(v, count, x);
      lastTs := Some(lastTs.value + advance * bucketDur);
      samples, log := samples + [s], log + [x];
    }

    method FirstAt(at: int, v: real, count: int)
      requires Valid() && lastTs.None?
      modifies this`head, this`lastTs, this`samples, this`log, buckets
      ensures Valid() && samples == [Sample(at, v, count)]
    {
      ghost var x := Filed(0, Bucket(v, count));
      assert forall k :: 0 <= k < n ==> buckets[k] == buckets[..][k] == EMPTY;
      head := 0;
      buckets[head] := Bucket(v, count);
      lastTs := Some(at);
      samples, log := [Sample(at, v, count)], [x];
      assert [x][..0] == [];
      assert Log(samples, bucketDur) == log;
    }

    method AddN(at: int, v: real, count: int)
      requires Valid()
      modifies this`head, this`lastTs, this`samples, this`log, buckets
      ensures Valid() && samples == if count <= 0 then old(samples) else old(samples) + [Sample(at, v, count)]
    {
      if count > 0 { AddAt(at, v, count); }
    }

    // All samples filed in the last n epochs.
    method Count() returns (c: int)
      requires Valid()
      ensures c == Within(log, Latest(log) - n + 1, Latest(log)).count
    {
      c := 0;
      for i := 0 to n
        invariant c == Total(buckets[..i]).count
      {
        assert buckets[..i + 1][..i] == buckets[..i];
        c := c + buckets[i].count;
      }
      assert buckets[..n] == buckets[..];
      TotalOfRing(buckets[..], head, log, Latest(log));
    }

    method Sum() returns (s: real)
      requires Valid()
      ensures s == Within(log, Latest(log) - n + 1, Latest(log)).sum
    {
      s := 0.0;
      for i := 0 to n
        invariant s == Total(buckets[..i]).sum
      {
        assert buckets[..i + 1][..i] == buckets[..i];
        s := s + buckets[i].sum;
      }
      assert buckets[..n] == buckets[..];
      TotalOfRing(buckets[..], head, log, Latest(log));
    }

    method Reset()
      requires Valid()
      modifies this`head, this`lastTs, this`samples, this`log, buckets
      ensures Valid() && samples == []
    {
      for i := 0 to n
        invariant forall k :: 0 <= k < i ==> buckets[k] == EMPTY
      {
        buckets[i] := EMPTY;
      }
      head, lastTs := 0, None;
      samples, log := [], [];
    }
  }

  // A window of `window` nanoseconds in `buckets` buckets.
  method New(window: int, buckets: int) returns (r: Result<RollingWindow, string>)
    ensures r.Err? <==> window <= 0 || buckets <= 0
    ensures r.Ok? ==> fresh(r.value) && fresh(r.value.buckets) && r.value.Valid()
                      && r.value.samples == [] && r.value.n == buckets
                      && r.value.bucketDur == if window / buckets > 0 then window / buckets else 1_000_000
  {
    if window <= 0 { return Err("rollingwindow: window must be > 0"); }
    if buckets <= 0 { return Err("rollingwindow: buckets must be > 0"); }
    var bucketDur := window / buckets;
    if bucketDur <= 0 { bucketDur := 1_000_000; }
    var rw := new RollingWindow(buckets, bucketDur);
    return Ok(rw);
  }
}
