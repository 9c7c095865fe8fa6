/**
 What the rate limiter of internal/rate/rate_service.go does: one global token bucket, and behind it a
 bounded map of token buckets, one an address. A request reads the clock once, in nanoseconds.
 */
module LimiterModel {
  import opened Wrappers
  import opened TokenBucket
  import opened Quotients

  // Where the scan for the oldest entry starts from.
  const NEVER: int := 0x4000_0000_0000_0000

  datatype Ip = Ip(bucket: Bucket, lastHit: int)

  datatype Limiter = Limiter(global: Bucket, perIP: map<string, Ip>, max: int, burst: int, period: int) {
    ghost predicate Valid() {
      && global.Valid() && 0 < max && 1 <= burst && 0 < period
      && forall ip :: ip in perIP ==>
           && perIP[ip].bucket.Valid()
           && perIP[ip].bucket.capacity == burst && perIP[ip].bucket.refillPer == period
    }

    ghost predicate Bounded() {
      |perIP| <= max && forall ip :: ip in perIP ==> perIP[ip].lastHit < NEVER
    }
  }

  // The entry an eviction may remove: any with the least last hit, or none ("" stands for it)
  // when no entry was hit before the end of time.
  ghost predicate Oldest(perIP: map<string, Ip>, victim: string) {
    if victim in perIP && perIP[victim].lastHit < NEVER
    then forall ip :: ip in perIP ==> perIP[victim].lastHit <= perIP[ip].lastHit
    else victim == "" && forall ip :: ip in perIP ==> perIP[ip].lastHit >= NEVER
  }

  // The map after the bucket of ip was looked up or made.
  function Acquire(l: Limiter, ip: string, now: int, victim: string): map<string, Ip> {
    if ip in l.perIP then l.perIP[ip := l.perIP[ip].(lastHit := now / SECOND)]
    else
      var rest := if |l.perIP| >= l.max then l.perIP - {victim} else l.perIP;
      rest[ip := Ip(Bucket(l.burst, l.period, l.burst, now), now / SECOND)]
  }

  datatype Reply = Allowed | GlobalExceeded | PerIpExceeded

  datatype Request = Request(at: int, ip: string, victim: string)

  function Allow(l: Limiter, r: Request): (Limiter, Reply)
    requires l.Valid()
  {
    var (global, ok) := Take(l.global, r.at, 1);
    var l' := l.(global := global);
    if !ok then (l', GlobalExceeded)
    else if r.ip == "" then (l', Allowed)
    else
      var perIP := Acquire(l, r.ip, r.at, r.victim);
      var (bucket, admitted) := Take(perIP[r.ip].bucket, r.at, 1);
      (l'.(perIP := perIP[r.ip := perIP[r.ip].(bucket := bucket)]), if admitted then Allowed else PerIpExceeded)
  }

  // Whether the request gets past the global bucket, and to the bucket of its address.
  predicate Reaches(l: Limiter, r: Request)
    requires l.Valid()
  {
    Take(l.global, r.at, 1).1 && r.ip != ""
  }

  // Whether it makes room for its address.
  predicate Scans(l: Limiter, r: Request)
    requires l.Valid()
  {
    Reaches(l, r) && r.ip !in l.perIP && |l.perIP| >= l.max
  }

  lemma AllowValid(l: Limiter, r: Request)
    requires l.Valid()
    ensures var l' := Allow(l, r).0;
            && l'.Valid() && l'.max == l.max && l'.burst == l.burst && l'.period == l.period
            && l'.global == Take(l.global, r.at, 1).0
            && l'.global.capacity == l.global.capacity && l'.global.refillPer == l.global.refillPer
  {
    TakeValid(l.global, r.at, 1);
    if Reaches(l, r) {
      TakeValid(Acquire(l, r.ip, r.at, r.victim)[r.ip].bucket, r.at, 1);
    }
  }

  // ----- The map of addresses stays bounded -----

  lemma RemoveShrinks(m: map<string, Ip>, k: string)
    requires k in m
    ensures |m - {k}| == |m| - 1
  {
    assert (m - {k}).Keys == m.Keys - {k};
    assert |(m - {k}).Keys| == |m - {k}| && |m.Keys| == |m|;
  }

  lemma InsertGrows(m: map<string, Ip>, k: string, x: Ip)
    ensures |m[k := x]| == if k in m then |m| else |m| + 1
  {
    assert m[k := x].Keys == m.Keys + {k};
    assert |m[k := x].Keys| == |m[k := x]| && |m.Keys| == |m|;
    if k in m { assert m.Keys + {k} == m.Keys; }
  }

  lemma AllowKeepsBounded(l: Limiter, r: Request)
    requires l.Valid() && l.Bounded() && (Scans(l, r) ==> Oldest(l.perIP, r.victim)) && r.at / SECOND < NEVER
    ensures Allow(l, r).0.Bounded()
  {
    if Reaches(l, r) {
      var newest := Ip(Bucket(l.burst, l.period, l.burst, r.at), r.at / SECOND);
      var perIP := Acquire(l, r.ip, r.at, r.victim);
      if r.ip in l.perIP {
        InsertGrows(l.perIP, r.ip, l.perIP[r.ip].(lastHit := r.at / SECOND));
      } else if |l.perIP| >= l.max {
        assert |l.perIP.Keys| == |l.perIP|;
        assert r.victim in l.perIP;
        RemoveShrinks(l.perIP, r.victim);
        InsertGrows(l.perIP - {r.victim}, r.ip, newest);
      } else {
        InsertGrows(l.perIP, r.ip, newest);
      }
      InsertGrows(perIP, r.ip, perIP[r.ip].(bucket := Take(perIP[r.ip].bucket, r.at, 1).0));
    }
  }

  // ----- Whole runs -----

  function Run(l: Limiter, rs: seq<Request>): (r: Limiter)
    requires l.Valid()
    ensures r.Valid()
    decreases |rs|
  {
    if rs == [] then l
    else
      AllowValid(l, rs[0]);
      Run(Allow(l, rs[0]).0, rs[1..])
  }

  // The victims of a run are chosen as the scan does, and the clock stays within range.
  ghost predicate Plausible(l: Limiter, rs: seq<Request>)
    requires l.Valid()
    decreases |rs|
  {
    rs == [] ||
    (AllowValid(l, rs[0]);
     && (Scans(l, rs[0]) ==> Oldest(l.perIP, rs[0].victim)) && rs[0].at / SECOND < NEVER
     && Plausible(Allow(l, rs[0]).0, rs[1..]))
  }

  lemma {:induction false} NeverTooManyAddresses(l: Limiter, rs: seq<Request>)
    requires l.Valid() && l.Bounded() && Plausible(l, rs)
    ensures Run(l, rs).Bounded()
    decreases |rs|
  {
    if rs != [] {
      AllowValid(l, rs[0]);
      AllowKeepsBounded(l, rs[0]);
      NeverTooManyAddresses(Allow(l, rs[0]).0, rs[1..]);
    }
  }

  // ----- One request -----

  // A request is refused exactly if the global bucket is empty when its time comes, or that of its
  // address is, which must have one already; and whoever gets past the global bucket has an entry
  // that was hit just now.
  lemma AllowExactly(l: Limiter, r: Request)
    requires l.Valid() && 1 <= l.global.capacity
    ensures var (l', reply) := Allow(l, r);
            && (reply.GlobalExceeded? <==> Refill(l.global, r.at).tokens == 0)
            && (reply.PerIpExceeded? <==>
                  && Refill(l.global, r.at).tokens > 0 && r.ip != "" && r.ip in l.perIP
                  && Refill(l.perIP[r.ip].bucket, r.at).tokens == 0)
            && (reply.GlobalExceeded? || r.ip == "" ==> l'.perIP == l.perIP)
            && (!reply.GlobalExceeded? && r.ip != "" ==>
                  r.ip in l'.perIP && l'.perIP[r.ip].lastHit == r.at / SECOND)
  {
    TakeValid(l.global, r.at, 1);
    if r.ip in l.perIP { TakeValid(l.perIP[r.ip].bucket, r.at, 1); }
  }

  // ----- Who is evicted -----

  // When ip was last let past the global bucket in a run, or before it.
  function LastSeen(l: Limiter, rs: seq<Request>, ip: string, before: Option<int>): Option<int>
    requires l.Valid()
    decreases |rs|
  {
    if rs == [] then before
    else
      AllowValid(l, rs[0]);
      LastSeen(Allow(l, rs[0]).0, rs[1..], ip, if Reaches(l, rs[0]) && rs[0].ip == ip then Some(rs[0].at) else before)
  }

  ghost predicate HitAt(l: Limiter, ip: string, at: Option<int>) {
    ip in l.perIP ==> at.Some? && l.perIP[ip].lastHit == at.value / SECOND
  }

  lemma {:induction false} LastHitIs(l: Limiter, rs: seq<Request>, ip: string, before: Option<int>)
    requires l.Valid() && HitAt(l, ip, before)
    ensures HitAt(Run(l, rs), ip, LastSeen(l, rs, ip, before))
    decreases |rs|
  {
    if rs != [] {
      AllowValid(l, rs[0]);
      var at := if Reaches(l, rs[0]) && rs[0].ip == ip then Some(rs[0].at) else before;
      LastHitIs(Allow(l, rs[0]).0, rs[1..], ip, at);
    }
  }

  // Main theorem: when a run from the start comes to a newcomer that there is no room for, the one
  // address that loses its bucket is one that was let past the global bucket as long ago as any, in
  // whole seconds.
  lemma EvictsLongestUnseen(l: Limiter, rs: seq<Request>, r: Request, ip: string)
    requires l.Valid() && l.perIP == map[] && Plausible(l, rs)
    requires Scans(Run(l, rs), r) && Oldest(Run(l, rs).perIP, r.victim) && ip in Run(l, rs).perIP
    ensures var now := Run(l, rs);
            var seen, other := LastSeen(l, rs, r.victim, None), LastSeen(l, rs, ip, None);
            && r.victim in now.perIP && Allow(now, r).0.perIP.Keys == now.perIP.Keys - {r.victim} + {r.ip}
            && seen.Some? && other.Some? && seen.value / SECOND <= other.value / SECOND
  {
    NeverTooManyAddresses(l, rs);
    LastHitIs(l, rs, ip, None);
    LastHitIs(l, rs, r.victim, None);
  }

  predicate Ordered(rs: seq<Request>) {
    forall i, j :: 0 <= i < j < |rs| ==> rs[i].at <= rs[j].at
  }

  // How many requests within [s, t] were let through, from any address.
  function AdmittedIn(l: Limiter, rs: seq<Request>, s: int, t: int): int
    requires l.Valid()
    decreases |rs|
  {
    if rs == [] then 0
    else
      AllowValid(l, rs[0]);
      (if s <= rs[0].at <= t && Allow(l, rs[0]).1.Allowed? then 1 else 0)
      + AdmittedIn(Allow(l, rs[0]).0, rs[1..], s, t)
  }

  // How many requests from one address within [s, t] were let through.
  function AdmittedFrom(l: Limiter, rs: seq<Request>, ip: string, s: int, t: int): int
    requires l.Valid()
    decreases |rs|
  {
    if rs == [] then 0
    else
      AllowValid(l, rs[0]);
      (if s <= rs[0].at <= t && rs[0].ip == ip && Allow(l, rs[0]).1.Allowed? then 1 else 0)
      + AdmittedFrom(Allow(l, rs[0]).0, rs[1..], ip, s, t)
  }

  function GlobalCalls(rs: seq<Request>): seq<Call> {
    if rs == [] then [] else [Call(rs[0].at, 1)] + GlobalCalls(rs[1..])
  }

  lemma {:induction false} GlobalCallsTimed(rs: seq<Request>)
    requires Ordered(rs)
    ensures |GlobalCalls(rs)| == |rs| && Timed(GlobalCalls(rs))
    ensures forall i :: 0 <= i < |rs| ==> GlobalCalls(rs)[i].at == rs[i].at
  {
    if rs != [] { GlobalCallsTimed(rs[1..]); }
  }

  lemma {:induction false} AdmittedWereGranted(l: Limiter, rs: seq<Request>, s: int, t: int)
    requires l.Valid()
    ensures AdmittedIn(l, rs, s, t) <= GrantedIn(l.global, GlobalCalls(rs), s, t)
    decreases |rs|
  {
    if rs != [] {
      AllowValid(l, rs[0]);
      AdmittedWereGranted(Allow(l, rs[0]).0, rs[1..], s, t);
      assert GlobalCalls(rs)[1..] == GlobalCalls(rs[1..]);
    }
  }

  // Requests let through in any window obey the bound of the global bucket.
  lemma GlobalRateBound(l: Limiter, rs: seq<Request>, s: int, t: int)
    requires l.Valid() && Ordered(rs) && s <= t
    ensures AdmittedIn(l, rs, s, t) <= l.global.capacity + (t - s) / l.global.refillPer + 1
  {
    AdmittedWereGranted(l, rs, s, t);
    GlobalCallsTimed(rs);
    RateBound(l.global, GlobalCalls(rs), s, t);
  }

  // ----- One address -----

  // How often within [s, t] the bucket of ip is thrown away.
  function Evictions(l: Limiter, rs: seq<Request>, ip: string, s: int, t: int): nat
    requires l.Valid()
    decreases |rs|
  {
    if rs == [] then 0
    else
      AllowValid(l, rs[0]);
      var l' := Allow(l, rs[0]).0;
      (if s <= rs[0].at <= t && ip in l.perIP && ip !in l'.perIP then 1 else 0) + Evictions(l', rs[1..], ip, s, t)
  }

  // What is left of a bucket between now and t, taking a refill in the future as one made now.
  function Left(b: Bucket, now: int, t: int): int
    requires b.Valid()
  {
    b.tokens + (t - if b.last < now then b.last else now) / b.refillPer
  }

  // A refill does not add to it, and later there is less.
  lemma LeftShrinks(b: Bucket, now: int, now': int, t: int)
    requires b.Valid() && now <= now' <= t
    ensures Refill(b, now').Valid() && Left(Refill(b, now'), now', t) <= Left(b, now, t)
  {
    if b.last <= now' {
      BudgetAfterRefill(b, now', t);
      LazyIsEager(b, now');
      DivMonotone(t - b.last, t - if b.last < now then b.last else now, b.refillPer);
    } else {
      DivMonotone(t - now', t - now, b.refillPer);
    }
  }

  // Just after a refill at s it is bounded.
  lemma LeftBound(b: Bucket, s: int, t: int)
    requires b.Valid() && s <= t
    ensures Refill(b, s).Valid() && Left(Refill(b, s), s, t) <= b.capacity + (t - s) / b.refillPer + 1
  {
    var r, p := Refill(b, s), b.refillPer;
    TakeValid(b, s, 0);
    if b.last <= s { LazyIsEager(b, s); }
    DivMonotone(t - if r.last < s then r.last else s, t - s + 1 * p, p);
    DivShift(t - s, p, 1);
  }

  // What ip can still be granted by t: from its bucket, or from the one it would get.
  function Allowance(l: Limiter, ip: string, now: int, t: int): int
    requires l.Valid()
  {
    if ip in l.perIP then
      TakeValid(l.perIP[ip].bucket, now, 0);
      Left(Refill(l.perIP[ip].bucket, now), now, t)
    else l.burst + (t - now) / l.period
  }

  // A taken token is taken off what is left.
  lemma TakeLeft(b: Bucket, now: int, now': int, t: int)
    requires b.Valid() && now <= now' <= t && 1 <= b.capacity
    ensures var (b', ok) := Take(b, now, 1);
            && b'.Valid() && Refill(b', now').Valid() && Refill(b, now).Valid()
            && Left(Refill(b', now'), now', t) + (if ok then 1 else 0) <= Left(Refill(b, now), now, t)
  {
    TakeValid(b, now, 1);
    var b' := Take(b, now, 1).0;
    LeftShrinks(b', now, now', t);
  }

  // One request: what ip is granted is taken off its allowance, and an eviction adds a burst.
  lemma AllowSpends(l: Limiter, r: Request, ip: string, now': int, t: int)
    requires l.Valid() && ip != "" && r.at <= now' <= t
    ensures var (l', reply) := Allow(l, r);
            && l'.Valid()
            && Allowance(l', ip, now', t) + (if r.ip == ip && reply.Allowed? then 1 else 0)
            <= Allowance(l, ip, r.at, t) + if ip in l.perIP && ip !in l'.perIP then l.burst else 0
  {
    AllowValid(l, r);
    var l' := Allow(l, r).0;
    DivMonotone(t - now', t - r.at, l.period);
    if r.ip == ip && Reaches(l, r) {
      var newest := Bucket(l.burst, l.period, l.burst, r.at);
      var b := if ip in l.perIP then l.perIP[ip].bucket else newest;
      TakeLeft(b, r.at, now', t);
      assert l'.perIP[ip].bucket == Take(b, r.at, 1).0;
    } else if ip in l'.perIP {
      OtherAddress(l, r, ip);
      var b := l.perIP[ip].bucket;
      TakeValid(b, r.at, 0);
      RefillTwice(b, r.at, now');
      LeftShrinks(Refill(b, r.at), r.at, now', t);
    } else if ip in l.perIP {
      LeftAtLeast(l.perIP[ip].bucket, r.at, t);
    }
  }

  lemma OtherAddress(l: Limiter, r: Request, ip: string)
    requires l.Valid() && ip in Allow(l, r).0.perIP && !(r.ip == ip && Reaches(l, r))
    ensures ip in l.perIP && Allow(l, r).0.perIP[ip].bucket == l.perIP[ip].bucket
  {
  }

  lemma LeftAtLeast(b: Bucket, now: int, t: int)
    requires b.Valid() && now <= t
    ensures Refill(b, now).Valid() && (t - now) / b.refillPer <= Left(Refill(b, now), now, t)
  {
    TakeValid(b, now, 0);
    var r := Refill(b, now);
    DivMonotone(t - now, t - if r.last < now then r.last else now, b.refillPer);
  }

  lemma {:induction false} NoneAfter(l: Limiter, rs: seq<Request>, ip: string, s: int, t: int)
    requires l.Valid() && Ordered(rs) && (rs == [] || t < rs[0].at)
    ensures AdmittedFrom(l, rs, ip, s, t) == 0
    decreases |rs|
  {
    if |rs| >= 1 {
      AllowValid(l, rs[0]);
      if |rs| >= 2 { assert rs[0].at <= rs[1].at; }
      NoneAfter(Allow(l, rs[0]).0, rs[1..], ip, s, t);
    }
  }

  // From a first request within [s, t] on.
  lemma {:induction false} AdmittedWithinAllowance(l: Limiter, rs: seq<Request>, ip: string, s: int, t: int)
    requires l.Valid() && Ordered(rs) && ip != "" && rs != [] && s <= rs[0].at <= t
    ensures AdmittedFrom(l, rs, ip, s, t) <= Allowance(l, ip, rs[0].at, t) + Evictions(l, rs, ip, s, t) * l.burst
    decreases |rs|
  {
    var r, rest := rs[0], rs[1..];
    AllowValid(l, r);
    var l' := Allow(l, r).0;
    var next := if rest != [] && rest[0].at <= t then rest[0].at else t;
    var later := Evictions(l', rest, ip, s, t);
    assert AdmittedFrom(l', rest, ip, s, t) <= Allowance(l', ip, next, t) + later * l.burst by {
      if rest != [] { assert r.at <= rs[1].at; }
      if rest != [] && rest[0].at <= t {
        AdmittedWithinAllowance(l', rest, ip, s, t);
      } else {
        NoneAfter(l', rest, ip, s, t);
        AllowanceIsNat(l', ip, next, t);
        NotNegative(later, l.burst);
      }
    }
    AllowSpends(l, r, ip, next, t);
    var gone := if ip in l.perIP && ip !in l'.perIP then 1 else 0;
    var got := if r.ip == ip && Allow(l, r).1.Allowed? then 1 else 0;
    SpendOnce(AdmittedFrom(l', rest, ip, s, t), got, Allowance(l, ip, r.at, t), Allowance(l', ip, next, t),
              gone, later, l.burst);
  }

  lemma NotNegative(k: nat, y: nat)
    ensures 0 <= k * y
  {
  }

  lemma SpendOnce(rest: int, got: int, allowance: int, allowance': int, gone: int, later: nat, burst: nat)
    requires rest <= allowance' + later * burst && 0 <= gone <= 1
    requires allowance' + got <= allowance + if gone == 1 then burst else 0
    ensures got + rest <= allowance + (gone + later) * burst
  {
    Distribute(gone, later, burst);
  }

  lemma AllowanceIsNat(l: Limiter, ip: string, now: int, t: int)
    requires l.Valid() && now <= t
    ensures 0 <= Allowance(l, ip, now, t)
  {
    DivAtLeast(t - now, l.period, 0);
    if ip in l.perIP { LeftAtLeast(l.perIP[ip].bucket, now, t); }
  }

  lemma AllowanceBound(l: Limiter, ip: string, now: int, s: int, t: int)
    requires l.Valid() && s <= now <= t
    ensures Allowance(l, ip, now, t) <= l.burst + (t - s) / l.period + 1
  {
    DivMonotone(t - now, t - s, l.period);
    if ip in l.perIP { LeftBound(l.perIP[ip].bucket, now, t); }
  }

  // A burst for the bucket an address has or gets and one more for each of k evictions, a token for
  // every whole period, and one.
  function AddressBound(l: Limiter, k: int, time: int): (n: int)
    requires 0 < l.period
    ensures k == 0 ==> n == l.burst + time / l.period + 1
  {
    (1 + k) * l.burst + time / l.period + 1
  }

  // Requests let through from one address in any window of any run.
  lemma {:induction false} AddressRateBound(l: Limiter, rs: seq<Request>, ip: string, s: int, t: int)
    requires l.Valid() && Ordered(rs) && ip != "" && s <= t
    ensures AdmittedFrom(l, rs, ip, s, t) <= AddressBound(l, Evictions(l, rs, ip, s, t), t - s)
    decreases |rs|
  {
    DivAtLeast(t - s, l.period, 0);
    Distribute(1, Evictions(l, rs, ip, s, t), l.burst);
    assert 0 <= Evictions(l, rs, ip, s, t) * l.burst;
    if rs != [] {
      AllowValid(l, rs[0]);
      if rs[0].at < s {
        AddressRateBound(Allow(l, rs[0]).0, rs[1..], ip, s, t);
      } else if rs[0].at <= t {
        AdmittedWithinAllowance(l, rs, ip, s, t);
        AllowanceBound(l, ip, rs[0].at, s, t);
      } else {
        NoneAfter(l, rs, ip, s, t);
      }
    }
  }

  // ----- How many addresses there are -----

  // The addresses that ask for a bucket.
  function Asking(rs: seq<Request>): set<string> {
    if rs == [] then {} else (if rs[0].ip == "" then {} else {rs[0].ip}) + Asking(rs[1..])
  }

  // And those that have one already.
  function Addresses(l: Limiter, rs: seq<Request>): set<string> {
    l.perIP.Keys + Asking(rs)
  }

  lemma FewAddressesStep(l: Limiter, rs: seq<Request>)
    requires l.Valid() && rs != [] && |Addresses(l, rs)| <= l.max
    ensures var l' := Allow(l, rs[0]).0;
            l.perIP.Keys <= l'.perIP.Keys && |Addresses(l', rs[1..])| <= l.max
  {
    var r, all := rs[0], Addresses(l, rs);
    var l' := Allow(l, r).0;
    if Scans(l, r) {
      assert |l.perIP.Keys| == |l.perIP|;
      Smaller(l.perIP.Keys, all, r.ip);
      assert false;
    }
    SubsetSize(Addresses(l', rs[1..]), all);
  }

  lemma SubsetSize<T>(a: set<T>, b: set<T>)
    requires a <= b
    ensures |a| <= |b|
  {
    assert b == a + (b - a);
  }

  lemma Smaller<T>(a: set<T>, b: set<T>, x: T)
    requires a <= b && x in b && x !in a
    ensures |a| < |b|
  {
    SubsetSize(a + {x}, b);
  }

  // With no more addresses about than the limiter has room for, none is ever evicted.
  lemma {:induction false} NoEvictions(l: Limiter, rs: seq<Request>, ip: string, s: int, t: int)
    requires l.Valid() && |Addresses(l, rs)| <= l.max
    ensures Evictions(l, rs, ip, s, t) == 0
    decreases |rs|
  {
    if rs != [] {
      AllowValid(l, rs[0]);
      FewAddressesStep(l, rs);
      NoEvictions(Allow(l, rs[0]).0, rs[1..], ip, s, t);
    }
  }

  // So then each address is held to the bound of its own bucket.
  lemma FewAddressesBound(l: Limiter, rs: seq<Request>, ip: string, s: int, t: int)
    requires l.Valid() && Ordered(rs) && ip != "" && s <= t && |Addresses(l, rs)| <= l.max
    ensures AdmittedFrom(l, rs, ip, s, t) <= l.burst + (t - s) / l.period + 1
  {
    NoEvictions(l, rs, ip, s, t);
    AddressRateBound(l, rs, ip, s, t);
  }

  // ----- One address too many -----

  // A limiter with room for one more address, whose buckets were last used in the first second,
  // and with cap tokens in the global bucket.
  ghost predicate Crowded(l: Limiter, cap: int) {
    && l.Valid() && l.max == |l.perIP| + 1 && l.global == Bucket(cap, 1, cap, 0)
    && "a" !in l.perIP && "b" !in l.perIP
    && forall ip :: ip in l.perIP ==> l.perIP[ip].lastHit == 0
  }

  // There is such a limiter of any size, for any burst and period.
  lemma {:induction false} CrowdOf(max: nat, burst: int, period: int, cap: int) returns (l: Limiter)
    requires 0 < max && 1 <= burst && 0 < period && 1 <= cap
    ensures Crowded(l, cap) && l.max == max && l.burst == burst && l.period == period
    ensures forall ip :: ip in l.perIP ==> 1 < |ip| <= max
  {
    if max == 1 {
      l := Limiter(Bucket(cap, 1, cap, 0), map[], 1, burst, period);
    } else {
      var before := CrowdOf(max - 1, burst, period, cap);
      var ip: string := seq(max, _ => 'c');
      var entry := Ip(Bucket(burst, period, burst, 0), 0);
      InsertGrows(before.perIP, ip, entry);
      l := before.(perIP := before.perIP[ip := entry], max := max);
    }
  }

  // One address more than there is room for is too many, whatever the room and the burst. Two that
  // ask in turn, all at one moment, evict each other and are let through every time: the first gets
  // m + 1 requests through, where its bucket alone would allow no more than burst + 1.
  lemma EvictionForgets(l: Limiter, m: nat)
    requires Crowded(l, 2 * m + 1)
    ensures var rs := [Request(5, "a", "")] + Turns("a", "b", m);
            && l.Bounded() && Ordered(rs) && Counts(l, rs, "a", m + 1, m)
            && Addresses(l, rs) <= l.perIP.Keys + {"a", "b"}
            && (m > l.burst ==> AdmittedFrom(l, rs, "a", 5, 5) > AddressBound(l, 0, 5 - 5))
  {
    TurnsOrdered(l, m);
    ForgottenCounts(l, m, 2 * m + 1);
    NothingYet(l.period);
  }

  lemma ForgottenCounts(l: Limiter, m: nat, cap: int)
    requires Crowded(l, cap) && 2 * m + 1 == cap
    ensures l.Bounded() && Counts(l, [Request(5, "a", "")] + Turns("a", "b", m), "a", m + 1, m)
  {
    TurnsCount("a", "b", l, m, cap - 1, cap);
    FirstCounts("a", "b", l, Turns("a", "b", m), cap, m, m);
  }

  lemma NothingYet(period: int)
    requires 0 < period
    ensures (5 - 5) / period == 0
  {
  }

  // Requests of two addresses in turn, each evicting the other, m of each.
  function Turns(x: string, y: string, m: nat): seq<Request> {
    if m == 0 then [] else [Request(5, y, x)] + ([Request(5, x, y)] + Turns(x, y, m - 1))
  }

  lemma {:induction false} AllAtOnce(x: string, y: string, m: nat)
    ensures forall i :: 0 <= i < |Turns(x, y, m)| ==> Turns(x, y, m)[i].at == 5
    ensures Asking(Turns(x, y, m)) <= {x, y}
  {
    if m > 0 {
      AllAtOnce(x, y, m - 1);
      var rest := [Request(5, x, y)] + Turns(x, y, m - 1);
      assert Turns(x, y, m)[1..] == rest && rest[1..] == Turns(x, y, m - 1);
    }
  }

  lemma TurnsOrdered(l: Limiter, m: nat)
    ensures var rs := [Request(5, "a", "")] + Turns("a", "b", m);
            Ordered(rs) && Addresses(l, rs) <= l.perIP.Keys + {"a", "b"}
  {
    AllAtOnce("a", "b", m);
    var rs := [Request(5, "a", "")] + Turns("a", "b", m);
    assert rs[1..] == Turns("a", "b", m);
  }

  // One of the two has a bucket, with one token taken, and g tokens are left in the global one.
  function Taken(l: Limiter, ip: string, g: int): Limiter {
    l.(global := Bucket(l.global.capacity, 1, g, 5),
       perIP := l.perIP[ip := Ip(Bucket(l.burst, l.period, l.burst - 1, 5), 0)])
  }

  predicate Pair(x: string, y: string) {
    (x == "a" && y == "b") || (x == "b" && y == "a")
  }

  lemma FirstTaken(ip: string, other: string, l: Limiter, cap: int)
    requires Crowded(l, cap) && Pair(ip, other) && 1 <= cap
    ensures l.Bounded() && Allow(l, Request(5, ip, "")) == (Taken(l, ip, cap - 1), Allowed)
  {
    var got := Ip(Bucket(l.burst, l.period, l.burst, 5), 0);
    NewBucket(l, ip, l.perIP);
    assert Take(l.global, 5, 1) == (Bucket(cap, 1, cap - 1, 5), true);
    assert Acquire(l, ip, 5, "") == l.perIP[ip := got];
  }

  lemma NewBucket(l: Limiter, ip: string, m: map<string, Ip>)
    requires l.Valid()
    ensures var full, used := Bucket(l.burst, l.period, l.burst, 5), Bucket(l.burst, l.period, l.burst - 1, 5);
            && Take(full, 5, 1) == (used, true)
            && m[ip := Ip(full, 0)][ip := Ip(used, 0)] == m[ip := Ip(used, 0)]
  {
  }

  // A newcomer takes the other's place.
  lemma TurnTaken(ip: string, victim: string, l: Limiter, g: int, cap: int)
    requires Crowded(l, cap) && Pair(ip, victim) && 1 <= g <= cap
    ensures var l1 := Taken(l, victim, g);
            && l1.Valid() && Oldest(l1.perIP, victim)
            && Allow(l1, Request(5, ip, victim)) == (Taken(l, ip, g - 1), Allowed)
  {
    var l1 := Taken(l, victim, g);
    var got := Ip(Bucket(l.burst, l.period, l.burst, 5), 0);
    InsertGrows(l.perIP, victim, l1.perIP[victim]);
    NewBucket(l, ip, l.perIP);
    assert l1.perIP - {victim} == l.perIP;
    assert Acquire(l1, ip, 5, victim) == l.perIP[ip := got];
  }

  // What becomes of ip in a run at moment 5: how many requests are let through, how many evictions.
  ghost predicate Counts(l: Limiter, rs: seq<Request>, ip: string, admitted: int, evicted: int) {
    && l.Valid() && Plausible(l, rs)
    && AdmittedFrom(l, rs, ip, 5, 5) == admitted && Evictions(l, rs, ip, 5, 5) == evicted
  }

  lemma TurnCounts(x: string, y: string, l: Limiter, rest: seq<Request>, g: int, cap: int, ip: string,
                   admitted: int, evicted: int)
    requires Crowded(l, cap) && Pair(x, y) && (ip == x || ip == y) && 1 <= g <= cap
    requires Counts(Taken(l, x, g - 1), rest, ip, admitted, evicted)
    ensures Counts(Taken(l, y, g), [Request(5, x, y)] + rest, ip,
                   admitted + (if ip == x then 1 else 0), evicted + (if ip == y then 1 else 0))
  {
    TurnTaken(x, y, l, g, cap);
    OneMore(Taken(l, y, g), Request(5, x, y), rest, Taken(l, x, g - 1), Allowed, ip);
  }

  lemma TwoCount(x: string, y: string, l: Limiter, rest: seq<Request>, g: int, cap: int, m: int)
    requires Crowded(l, cap) && Pair(x, y) && 2 <= g <= cap
    requires var before := Counts(Taken(l, x, g - 2), rest, x, m, m); before
    ensures Counts(Taken(l, x, g), [Request(5, y, x)] + ([Request(5, x, y)] + rest), x, m + 1, m + 1)
  {
    TurnCounts(x, y, l, rest, g - 1, cap, x, m, m);
    TurnCounts(y, x, l, [Request(5, x, y)] + rest, g, cap, x, m + 1, m);
  }

  lemma {:induction false} TurnsCount(x: string, y: string, l: Limiter, m: nat, g: int, cap: int)
    requires Crowded(l, cap) && Pair(x, y) && 2 * m <= g <= cap && 1 <= cap
    ensures Counts(Taken(l, x, g), Turns(x, y, m), x, m, m)
  {
    if m > 0 {
      TurnsCount(x, y, l, m - 1, g - 2, cap);
      TwoCount(x, y, l, Turns(x, y, m - 1), g, cap, m - 1);
    } else {
      NothingCounts(Taken(l, x, g), x);
    }
  }

  lemma NothingCounts(l: Limiter, ip: string)
    requires l.Valid()
    ensures Counts(l, [], ip, 0, 0)
  {
  }

  lemma FirstCounts(x: string, y: string, l: Limiter, rest: seq<Request>, cap: int, admitted: int, evicted: int)
    requires Crowded(l, cap) && Pair(x, y) && 1 <= cap && Counts(Taken(l, x, cap - 1), rest, x, admitted, evicted)
    ensures Counts(l, [Request(5, x, "")] + rest, x, admitted + 1, evicted)
  {
    FirstTaken(x, y, l, cap);
    OneMore(l, Request(5, x, ""), rest, Taken(l, x, cap - 1), Allowed, x);
  }

  // One request before the others.
  lemma OneMore(l: Limiter, r: Request, rest: seq<Request>, l': Limiter, reply: Reply, ip: string)
    requires l.Valid() && Allow(l, r) == (l', reply)
    ensures l'.Valid()
    ensures var rs := [r] + rest;
            && (Oldest(l.perIP, r.victim) && r.at / SECOND < NEVER && Plausible(l', rest) ==> Plausible(l, rs))
            && (!Scans(l, r) && r.at / SECOND < NEVER && Plausible(l', rest) ==> Plausible(l, rs))
            && AdmittedFrom(l, rs, ip, r.at, r.at)
            == AdmittedFrom(l', rest, ip, r.at, r.at) + (if r.ip == ip && reply.Allowed? then 1 else 0)
            && Evictions(l, rs, ip, r.at, r.at)
            == Evictions(l', rest, ip, r.at, r.at) + (if ip in l.perIP && ip !in l'.perIP then 1 else 0)
  {
    AllowValid(l, r);
    assert ([r] + rest)[1..] == rest;
  }
}
