/**
 The rate limiter object of internal/rate/rate_service.go, proved to take the steps of
 LimiterModel.
 */
module RateLimiter {
  import opened TokenBucket
  import opened LimiterModel

  class PerIpEntry {
    const bucket: TokenBucket
    var lastHit: int

    constructor (bucket: TokenBucket, lastHit: int)
      ensures this.bucket == bucket && this.lastHit == lastHit
    {
      this.bucket, this.lastHit := bucket, lastHit;
    }
  }

  method NewEntry(burst: int, period: int, now: int) returns (e: PerIpEntry)
    ensures fresh(e) && fresh(e.bucket)
    ensures e.lastHit == now / SECOND && e.bucket.State() == Bucket(burst, period, burst, now)
  {
    var bucket := new TokenBucket(burst, period, now);
    e := new PerIpEntry(bucket, now / SECOND);
  }

  class RateLimiter {
    const perIPMax: int
    const burst: int
    const period: int
    const global: TokenBucket
    var perIP: map<string, PerIpEntry>
    ghost var model: Limiter
    ghost var entries: set<PerIpEntry>
    ghost var buckets: set<TokenBucket>

    ghost predicate Valid()
      reads this, entries, buckets, global
    {
      && model.Valid()
      && model.global == global.State()
      && model.max == perIPMax && model.burst == burst && model.period == period
      && global !in buckets && "" !in perIP
      && perIP.Keys == model.perIP.Keys
      && (forall ip :: ip in perIP ==> Shows(perIP[ip], model.perIP[ip]))
      && (forall a, b :: a in perIP && b in perIP && a != b ==>
            perIP[a] != perIP[b] && perIP[a].bucket != perIP[b].bucket)
    }

    ghost predicate Shows(e: PerIpEntry, x: Ip)
      reads this, entries, buckets
    {
      && e in entries && e.bucket in buckets
      && e.lastHit == x.lastHit && e.bucket.State() == x.bucket
    }

    constructor (global: TokenBucket, perIPMax: int, burst: int, period: int)
      requires 0 < perIPMax && 1 <= burst && 0 < period && global.State().Valid()
      ensures Valid() && fresh(entries) && fresh(buckets) && this.global == global
      ensures model == Limiter(global.State(), map[], perIPMax, burst, period)
    {
      this.global, this.perIPMax, this.burst, this.period := global, perIPMax, burst, period;
      perIP, model := map[], Limiter(global.State(), map[], perIPMax, burst, period);
      entries, buckets := {}, {};
    }

    // The key of an entry hit least recently, or "" if there is none before the end of time.
    method FindVictim() returns (victim: string)
      requires Valid()
      ensures Oldest(model.perIP, victim)
    {
      victim := "";
      var victimTs := NEVER;
      var rest := perIP.Keys;
      while rest != {}
        invariant rest <= perIP.Keys
        invariant victimTs <= NEVER && (victimTs == NEVER ==> victim == "")
        invariant victimTs < NEVER ==> victim in perIP && victim !in rest && perIP[victim].lastHit == victimTs
        invariant forall ip :: ip in perIP && ip !in rest ==> victimTs <= perIP[ip].lastHit
        decreases rest
      {
        var k :| k in rest;
        if perIP[k].lastHit < victimTs {
          victimTs := perIP[k].lastHit;
          victim := k;
        }
        rest := rest - {k};
      }
      if victimTs < NEVER {
        assert forall ip :: ip in model.perIP ==> perIP[ip].lastHit == model.perIP[ip].lastHit;
      }
    }

    // A known address is touched.
    method Touch(ip: string, now: int) returns (bucket: TokenBucket)
      requires Valid() && ip in perIP
      modifies this`model, entries`lastHit
      ensures Valid() && bucket == perIP[ip].bucket
      ensures model == old(model).(perIP := old(model).perIP[ip := old(model).perIP[ip].(lastHit := now / SECOND)])
    {
      perIP[ip].lastHit := now / SECOND;
      model := model.(perIP := model.perIP[ip := model.perIP[ip].(lastHit := now / SECOND)]);
      return perIP[ip].bucket;
    }

    method Evict(victim: string)
      requires Valid()
      modifies this`perIP, this`model
      ensures Valid() && perIP == old(perIP) - {victim}
      ensures model == old(model).(perIP := old(model).perIP - {victim})
    {
      perIP := perIP - {victim};
      model := model.(perIP := model.perIP - {victim});
    }

    // A full map loses an address.
    method MakeRoom() returns (ghost victim: string)
      requires Valid()
      modifies this`perIP, this`model
      ensures Valid() && perIP.Keys <= old(perIP).Keys
      ensures |old(model).perIP| >= perIPMax ==> Oldest(old(model).perIP, victim)
      ensures model == if |old(model).perIP| >= perIPMax
                       then old(model).(perIP := old(model).perIP - {victim}) else old(model)
    {
      victim := "";
      assert |perIP.Keys| == |perIP| && |model.perIP.Keys| == |model.perIP|;
      if |perIP| >= perIPMax {
        var oldest := FindVictim();
        victim := oldest;
        Evict(oldest);
      }
    }

    // A new address gets a full bucket.
    method Enter(ip: string, now: int) returns (bucket: TokenBucket)
      requires Valid() && ip != "" && ip !in perIP
      modifies this`perIP, this`model, this`entries, this`buckets
      ensures Valid() && fresh(entries - old(entries)) && fresh(buckets - old(buckets))
      ensures ip in perIP && bucket == perIP[ip].bucket
      ensures model == old(model).(perIP := old(model).perIP[ip := Ip(Bucket(burst, period, burst, now), now / SECOND)])
    {
      var e := NewEntry(burst, period, now);
      bucket := e.bucket;
      perIP := perIP[ip := e];
      entries, buckets := entries + {e}, buckets + {bucket};
      model := model.(perIP := model.perIP[ip := Ip(Bucket(burst, period, burst, now), now / SECOND)]);
    }

    method AcquireIPBucket(ip: string, now: int) returns (bucket: TokenBucket, ghost victim: string)
      requires Valid() && ip != ""
      modifies this`perIP, this`model, this`entries, this`buckets, entries`lastHit
      ensures Valid() && fresh(entries - old(entries)) && fresh(buckets - old(buckets))
      ensures ip in perIP && bucket == perIP[ip].bucket
      ensures ip !in old(perIP) && |old(model).perIP| >= perIPMax ==> Oldest(old(model).perIP, victim)
      ensures model == old(model).(perIP := Acquire(old(model), ip, now, victim))
    {
      victim := "";
      if ip in perIP {
        bucket := Touch(ip, now);
        return;
      }
      victim := MakeRoom();
      bucket := Enter(ip, now);
    }

    // Take one token from the bucket of an address.
    method TakeFrom(ip: string, bucket: TokenBucket, now: int) returns (ok: bool)
      requires Valid() && ip in perIP && bucket == perIP[ip].bucket
      modifies this`model, bucket
      ensures Valid()
      ensures var (b, admitted) := Take(old(model).perIP[ip].bucket, now, 1);
              && ok == admitted
              && model == old(model).(perIP := old(model).perIP[ip := old(model).perIP[ip].(bucket := b)])
    {
      TakeValid(bucket.State(), now, 1);
      ok := bucket.AllowN(1, now);
      model := model.(perIP := model.perIP[ip := model.perIP[ip].(bucket := bucket.State())]);
    }

    method TakeGlobal(now: int) returns (ok: bool)
      requires Valid()
      modifies this`model, global
      ensures Valid()
      ensures var (b, admitted) := Take(old(model).global, now, 1);
              ok == admitted && model == old(model).(global := b)
    {
      TakeValid(global.State(), now, 1);
      ok := global.AllowN(1, now);
      model := model.(global := global.State());
    }

    // The part of Allow behind the global bucket.
    method AllowAddress(ip: string, now: int) returns (ok: bool, ghost victim: string)
      requires Valid() && ip != ""
      modifies this`perIP, this`model, this`entries, this`buckets, entries`lastHit, buckets
      ensures Valid() && fresh(entries - old(entries)) && fresh(buckets - old(buckets))
      ensures ip !in old(model).perIP && |old(model).perIP| >= perIPMax ==> Oldest(old(model).perIP, victim)
      ensures var perIP := Acquire(old(model), ip, now, victim);
              var (bucket, admitted) := Take(perIP[ip].bucket, now, 1);
              && ok == admitted
              && model == old(model).(perIP := perIP[ip := perIP[ip].(bucket := bucket)])
    {
      var bucket;
      bucket, victim := AcquireIPBucket(ip, now);
      ok := TakeFrom(ip, bucket, now);
    }

    method Allow(ip: string, now: int) returns (reply: Reply, ghost victim: string)
      requires Valid()
      modifies this`perIP, this`model, this`entries, this`buckets, entries, buckets, global
      ensures Valid() && fresh(entries - old(entries)) && fresh(buckets - old(buckets))
      ensures var r := Request(now, ip, victim);
              && (model, reply) == LimiterModel.Allow(old(model), r)
              && (Scans(old(model), r) ==> Oldest(old(model).perIP, victim))
    {
      victim := "";
      var ok := TakeGlobal(now);
      if !ok { return GlobalExceeded, victim; }
      if ip == "" { return Allowed, victim; }
      ok, victim := AllowAddress(ip, now);
      return if ok then Allowed else PerIpExceeded, victim;
    }
  }
}
