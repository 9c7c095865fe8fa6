/**
 The resolver of internal/resolver/resolver.go as it is built, over the cache, Bloom filter and
 store objects of this project. Every method is proved to take the step of its name in
 `ResolverModel`, where the run theorems are, and to keep their invariant.
 */
module Resolver {
  import opened Wrappers
  import StoreModel
  import opened UrlStore
  import opened Lru
  import opened Bloom
  import LM = LruModel
  import opened ResolverModel

  // What coherence compares.
  function Raw(u: ShortURL): string {
    u.rawURL
  }

  // The real filter never denies what was inserted, so a resolution keeps coherence and is right.
  lemma ResolveIsFaithful(s: State<ShortURL>, h: Hashes, m: nat, k: nat, code: string, now: int)
    requires 0 < m && Coherent(s, Raw)
    ensures var (s', a) := ResolverModel.Resolve(s, code, Positive(h, m, k, s.added, code), now);
            && Coherent(s', Raw) && Faithful(s, code, a, Raw)
            && HitRight(s, code, Positive(h, m, k, s.added, code), now, a.hit)
  {
    HitExactly(s, code, Positive(h, m, k, s.added, code), now);
    if code in s.added { NoFalseNegatives(h, m, k, s.added, code); }
    var positive := Positive(h, m, k, s.added, code);
    StepCoherent(s, ResolveEv(code, positive, now), Raw);
    CoherentIsFaithful(s, code, positive, now, Raw);
  }

  // Telling the resolver of a record that the store has just taken in.
  lemma CreatedIsCoherent(s: State<ShortURL>, u: ShortURL, now: int)
    requires u.code != "" && u.code in s.store && Raw(u) == Raw(s.store[u.code])
    requires Coherent(s.(added := s.added + {u.code}), Raw)
    ensures Coherent(ResolverModel.ObserveCreated(s, u.code, u, now), Raw)
  {
    SetMembers(s.cache, u.code, u, TTL, now);
  }

  // Telling it of a code that the store has just dropped.
  lemma InvalidatedIsCoherent(s: State<ShortURL>, code: string)
    requires Dropped(s, code)
    ensures Coherent(ResolverModel.ObserveInvalidated(s, code), Raw)
  {
    LM.StepValid(s.cache, LM.Delete(code));
    LM.WithoutMembers(s.cache.order, code);
    LM.WithoutAbsentIf(s.cache.order, code);
    forall e | e in LM.DoDelete(s.cache, code).order ensures e in s.cache.order && e.key != code {
      if !LM.HasKey(s.cache.order, code) { LM.MemberHasKey(s.cache.order, e); }
    }
  }

  // The store has taken in the record, and was told nothing else of late.
  ghost predicate TookIn(s: State<ShortURL>, u: ShortURL) {
    && u.code != "" && u.code in s.store && Raw(u) == Raw(s.store[u.code])
    && Coherent(s.(added := s.added + {u.code}), Raw)
  }

  // The store has dropped the code; only the cache may still have it.
  ghost predicate Dropped(s: State<ShortURL>, code: string) {
    && code != "" && code !in s.store && LM.Valid(s.cache) && "" !in s.store && s.store.Keys <= s.added
    && forall e :: e in s.cache.order && e.key != code ==> e.key in s.store && Raw(e.value) == Raw(s.store[e.key])
  }

  // What is cached is stored with the same raw URL; all that warming asks of the cache.
  ghost predicate CacheIsRight(s: State<ShortURL>) {
    && LM.Valid(s.cache) && "" !in s.store
    && forall e :: e in s.cache.order ==> e.key in s.store && Raw(e.value) == Raw(s.store[e.key])
  }

  lemma WarmIsCoherent(s: State<ShortURL>, list: seq<(string, ShortURL)>, now: int)
    requires CacheIsRight(s) && Lists(s.store, list, Raw)
    ensures Coherent(Warm(s, list, 0, now), Raw)
  {
    WarmCoherent(s, list, 0, now, Raw);
  }

  class Resolver {
    const store: URLStore
    const cache: LRU<ShortURL>
    const bloom: BloomFilter
    var counters: Counters
    var warmed: bool

    ghost predicate Valid()
      reads store, store.repr, cache, cache.order, cache.order.repr, bloom, bloom.bits
    {
      store.Valid() && cache.Valid() && bloom.Valid()
    }

    // A store that is not loaded finds nothing.
    ghost function State(): State<ShortURL>
      reads this`counters, store, cache, bloom
    {
      ResolverModel.State(if store.ready then store.urls else map[], cache.model, bloom.added, counters)
    }

    constructor (store: URLStore, cache: LRU<ShortURL>, bloom: BloomFilter)
      requires store.Valid() && cache.Valid() && bloom.Valid()
      ensures Valid() && this.store == store && this.cache == cache && this.bloom == bloom
      ensures !warmed && counters == Counters(0, 0, 0, 0)
    {
      this.store, this.cache, this.bloom := store, cache, bloom;
      counters, warmed := Counters(0, 0, 0, 0), false;
    }

    // The three collaborators' calls, each with what it leaves alone.

    method CacheGet(code: string, now: int) returns (got: Option<ShortURL>)
      requires Valid()
      modifies cache, cache.order, cache.order.repr
      ensures Valid() && cache.order.repr == old(cache.order.repr)
      ensures got == LM.DoGet(old(cache.model), code, now).1
      ensures State() == old(State()).(cache := LM.DoGet(old(cache.model), code, now).0)
    {
      got := cache.Get(code, now);
    }

    method CacheSet(code: string, u: ShortURL, now: int)
      requires Valid()
      modifies cache, cache.order, cache.order.repr
      ensures Valid() && fresh(cache.order.repr - old(cache.order.repr))
      ensures State() == old(State()).(cache := LM.DoSet(old(cache.model), code, u, TTL, now))
    {
      cache.Set(code, u, TTL, now);
    }

    method StoreGet(code: string) returns (su: Option<ShortURL>)
      requires Valid()
      ensures su == if code in State().store then Some(State().store[code]) else None
    {
      var got := store.Get(code);
      return if got.Ok? then Some(got.value) else None;
    }

    method Count(n: Counters)
      requires Valid()
      modifies this`counters
      ensures Valid() && cache.order.repr == old(cache.order.repr)
      ensures State() == old(State()).(counters := n)
    {
      counters := n;
    }

    method BloomAdd(code: string)
      requires Valid()
      modifies bloom, bloom.bits
      ensures Valid()
      ensures State() == old(State()).(added := old(bloom.added) + {code})
    {
      bloom.Add(code);
    }

    method Resolve(code: string, now: int) returns (a: Answer<ShortURL>)
      requires Valid()
      modifies this`counters, cache, cache.order, cache.order.repr
      ensures Valid() && fresh(cache.order.repr - old(cache.order.repr))
      ensures var positive := Positive(bloom.h, bloom.m, bloom.k, bloom.added, code);
              (State(), a) == ResolverModel.Resolve(old(State()), code, positive, now)
      ensures Coherent(old(State()), Raw) ==>
                && Coherent(State(), Raw) && Faithful(old(State()), code, a, Raw)
                && HitRight(old(State()), code, Positive(bloom.h, bloom.m, bloom.k, bloom.added, code), now, a.hit)
    {
      if Coherent(State(), Raw) { ResolveIsFaithful(State(), bloom.h, bloom.m, bloom.k, code, now); }
      a := AnswerFor(code, now);
    }

    method AnswerFor(code: string, now: int) returns (a: Answer<ShortURL>)
      requires Valid()
      modifies this`counters, cache, cache.order, cache.order.repr
      ensures Valid() && fresh(cache.order.repr - old(cache.order.repr))
      ensures var positive := Positive(bloom.h, bloom.m, bloom.k, bloom.added, code);
              (State(), a) == ResolverModel.Resolve(old(State()), code, positive, now)
    {
      if code == "" {
        return Answer(NotFound, None);
      }
      var maybe := bloom.MayContain(code);
      if !maybe {
        Count(counters.(bloomMiss := counters.bloomMiss + 1));
        return Answer(BloomNegative, None);
      }
      a := Lookup(code, now);
    }

    // Past the filter: the cache, then the store.
    method Lookup(code: string, now: int) returns (a: Answer<ShortURL>)
      requires Valid() && code != ""
      modifies this`counters, cache, cache.order, cache.order.repr
      ensures Valid() && fresh(cache.order.repr - old(cache.order.repr))
      ensures (State(), a) == ResolverModel.Resolve(old(State()), code, true, now)
    {
      var got := CacheGet(code, now);
      if got.Some? {
        Count(counters.(cache := counters.cache + 1));
        return Answer(CacheHit, got);
      }
      a := FromStore(code, now);
    }

    method Refill(code: string, u: ShortURL, now: int)
      requires Valid()
      modifies this`counters, cache, cache.order, cache.order.repr
      ensures Valid() && fresh(cache.order.repr - old(cache.order.repr))
      ensures State() == old(State()).(
                cache := LM.DoSet(old(cache.model), code, u, TTL, now),
                counters := old(counters).(store := old(counters).store + 1))
    {
      CacheSet(code, u, now);
      Count(counters.(store := counters.store + 1));
    }

    method FromStore(code: string, now: int) returns (a: Answer<ShortURL>)
      requires Valid()
      modifies this`counters, cache, cache.order, cache.order.repr
      ensures Valid() && fresh(cache.order.repr - old(cache.order.repr))
      ensures (State(), a) == AskStore(old(State()), code, now)
    {
      var su := StoreGet(code);
      if su == None {
        Count(counters.(notFound := counters.notFound + 1));
        return Answer(NotFound, None);
      }
      Refill(code, su.value, now);
      return Answer(StoreHit, Some(su.value));
    }

    method ObserveCreated(u: ShortURL, now: int)
      requires Valid()
      modifies bloom, bloom.bits, cache, cache.order, cache.order.repr
      ensures Valid() && fresh(cache.order.repr - old(cache.order.repr))
      ensures State() == ResolverModel.ObserveCreated(old(State()), u.code, u, now)
      ensures TookIn(old(State()), u) ==> Coherent(State(), Raw)
    {
      if TookIn(State(), u) { CreatedIsCoherent(State(), u, now); }
      if u.code == "" {
        return;
      }
      BloomAdd(u.code);
      CacheSet(u.code, u, now);
    }

    method ObserveInvalidated(code: string)
      requires Valid()
      modifies cache, cache.order, cache.order.repr
      ensures Valid() && cache.order.repr == old(cache.order.repr)
      ensures State() == ResolverModel.ObserveInvalidated(old(State()), code)
      ensures Dropped(old(State()), code) ==> Coherent(State(), Raw)
    {
      if Dropped(State(), code) { InvalidatedIsCoherent(State(), code); }
      if code == "" {
        return;
      }
      var _ := cache.Delete(code);
    }

    method WarmOne(u: ShortURL, cached: bool, now: int)
      requires Valid()
      modifies bloom, bloom.bits, cache, cache.order, cache.order.repr
      ensures Valid() && fresh(cache.order.repr - old(cache.order.repr))
      ensures State() == old(State()).(
                added := old(bloom.added) + {u.code},
                cache := if cached then LM.DoSet(old(cache.model), u.code, u, TTL, now) else old(cache.model))
    {
      BloomAdd(u.code);
      if cached {
        CacheSet(u.code, u, now);
      }
    }

    method WarmAll(list: seq<ShortURL>, now: int)
      requires Valid()
      modifies bloom, bloom.bits, cache, cache.order, cache.order.repr
      ensures Valid() && fresh(cache.order.repr - old(cache.order.repr))
      ensures State() == Warm(old(State()), Listed(list), 0, now)
    {
      ghost var s := State();
      for i := 0 to |list|
        invariant Valid() && fresh(cache.order.repr - old(cache.order.repr))
        invariant Warm(s, Listed(list), 0, now) == Warm(State(), Listed(list), i, now)
      {
        WarmOne(list[i], i < cache.cap, now);
      }
    }

    // Warm once, on the store's listing of all its records, newest first; `order` is the iteration
    // order of the store's map.
    method WarmOnce(order: seq<string>, now: int) returns (ok: bool, ghost list: seq<ShortURL>)
      requires Valid() && Covers(order, store.urls)
      modifies this`warmed, bloom, bloom.bits, cache, cache.order, cache.order.repr
      ensures Valid() && fresh(cache.order.repr - old(cache.order.repr))
      ensures warmed == ok && (ok <==> old(warmed) || store.ready)
      ensures old(warmed) || !store.ready ==> State() == old(State())
      ensures !old(warmed) && store.ready ==>
                && State() == Warm(old(State()), Listed(list), 0, now)
                && Lists(old(State()).store, Listed(list), Raw) && NewestFirst(list)
                && (CacheIsRight(old(State())) ==> Coherent(State(), Raw))
    {
      list := [];
      if warmed {
        return true, list;
      }
      if !store.ready {
        return false, list;
      }
      list := WarmFromStore(order, now);
      warmed := true;
      return true, list;
    }

    method WarmFromStore(order: seq<string>, now: int) returns (ghost list: seq<ShortURL>)
      requires Valid() && store.ready && Covers(order, store.urls)
      modifies bloom, bloom.bits, cache, cache.order, cache.order.repr
      ensures Valid() && fresh(cache.order.repr - old(cache.order.repr))
      ensures State() == Warm(old(State()), Listed(list), 0, now)
      ensures Lists(old(State()).store, Listed(list), Raw) && NewestFirst(list)
      ensures CacheIsRight(old(State())) ==> Coherent(State(), Raw)
    {
      var all := ListAll(order);
      list := all;
      if CacheIsRight(State()) { WarmIsCoherent(State(), Listed(list), now); }
      WarmAll(all, now);
    }

    method ListAll(order: seq<string>) returns (list: seq<ShortURL>)
      requires Valid() && store.ready && Covers(order, store.urls)
      ensures Lists(State().store, Listed(list), Raw) && NewestFirst(list)
    {
      var all := store.ListCodes(0, order);
      list := all.value;
      ListingIsWhole(list);
    }

    lemma ListingIsWhole(list: seq<ShortURL>)
      requires Valid() && store.ready
      requires forall i :: 0 <= i < |list| ==>
                 list[i].code in store.urls && list[i].Val() == store.urls[list[i].code].Val()
      requires forall k :: k in store.urls ==> exists i :: 0 <= i < |list| && list[i].code == k
      ensures Lists(State().store, Listed(list), Raw)
    {
      var listed := Listed(list);
      forall j | 0 <= j < |listed|
        ensures listed[j].0 in State().store && Raw(listed[j].1) == Raw(State().store[listed[j].0])
      {
        assert list[j].Val().rawURL == store.urls[list[j].code].Val().rawURL;
      }
      forall k | k in State().store ensures exists j :: 0 <= j < |listed| && listed[j].0 == k {
        var i :| 0 <= i < |list| && list[i].code == k;
        assert listed[i].0 == k;
      }
    }
  }

  function Listed(list: seq<ShortURL>): seq<(string, ShortURL)> {
    seq(|list|, i requires 0 <= i < |list| => (list[i].code, list[i]))
  }
}
