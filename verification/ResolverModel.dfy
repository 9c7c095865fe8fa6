/**
 The meaning of internal/resolver/resolver.go on values: a Bloom filter and an LRU cache in front
 of the store, and what a whole run of it answers. Cached and stored records are of any type V
 that carries a raw URL. Calls are sequential, so a singleflight call runs its function once.
 */
module ResolverModel {
  import opened Wrappers
  import L = LruModel
  import LT = LruTheorems

  datatype Hit = BloomNegative | CacheHit | StoreHit | NotFound

  datatype Answer<V> = Answer(hit: Hit, url: Option<V>)

  datatype Counters = Counters(cache: nat, store: nat, bloomMiss: nat, notFound: nat) {
    function Sum(): nat {
      cache + store + bloomMiss + notFound
    }
  }

  datatype State<V> = State(
    store: map<string, V>,
    cache: L.Cache<V>,
    added: set<string>, // what was inserted into the Bloom filter
    counters: Counters)

  const TTL := 600 // seconds an entry stays cached

  // `positive` is the Bloom filter's answer.
  function Resolve<V>(s: State<V>, code: string, positive: bool, now: int): (State<V>, Answer<V>) {
    var n := s.counters;
    if code == "" then (s, Answer(NotFound, None))
    else if !positive then (s.(counters := n.(bloomMiss := n.bloomMiss + 1)), Answer(BloomNegative, None))
    else
      var (cache, got) := L.DoGet(s.cache, code, now);
      if got.Some? then (s.(cache := cache, counters := n.(cache := n.cache + 1)), Answer(CacheHit, got))
      else AskStore(s.(cache := cache), code, now)
  }

  // The function a resolution runs through singleflight, and what is made of its result.
  function AskStore<V>(s: State<V>, code: string, now: int): (State<V>, Answer<V>) {
    var n := s.counters;
    if code !in s.store then (s.(counters := n.(notFound := n.notFound + 1)), Answer(NotFound, None))
    else
      (s.(cache := L.DoSet(s.cache, code, s.store[code], TTL, now), counters := n.(store := n.store + 1)),
       Answer(StoreHit, Some(s.store[code])))
  }

  function ObserveCreated<V>(s: State<V>, code: string, u: V, now: int): State<V> {
    if code == "" then s else s.(added := s.added + {code}, cache := L.DoSet(s.cache, code, u, TTL, now))
  }

  function ObserveInvalidated<V>(s: State<V>, code: string): State<V> {
    if code == "" then s else s.(cache := L.DoDelete(s.cache, code))
  }

  // Warming: every listed code goes into the filter, the first `cap` of them into the cache.
  function Warm<V>(s: State<V>, list: seq<(string, V)>, i: nat, now: int): State<V>
    requires i <= |list|
    decreases |list| - i
  {
    if i == |list| then s
    else
      var (code, u) := list[i];
      var cache := if i < s.cache.cap then L.DoSet(s.cache, code, u, TTL, now) else s.cache;
      Warm(s.(added := s.added + {code}, cache := cache), list, i + 1, now)
  }

  // ----- Runs -----

  // A client creating, rewriting or deleting a link also tells the resolver of creations and
  // deletions. The stored record is a copy of the observed one: same raw URL.
  datatype Event<V> =
    | CreateEv(code: string, stored: V, observed: V, now: int)
    | RewriteEv(code: string, stored: V)
    | DeleteEv(code: string)
    | ResolveEv(code: string, positive: bool, now: int)
    | PurgeEv(now: int)

  function Step<V>(s: State<V>, ev: Event<V>): State<V> {
    match ev
    case CreateEv(code, stored, observed, now) =>
      if code in s.store then s
      else ObserveCreated(s.(store := s.store[code := stored]), code, observed, now)
    case RewriteEv(code, stored) => if code in s.store then s.(store := s.store[code := stored]) else s
    case DeleteEv(code) => ObserveInvalidated(s.(store := s.store - {code}), code)
    case ResolveEv(code, positive, now) => Resolve(s, code, positive, now).0
    case PurgeEv(now) => s.(cache := L.DoPurge(s.cache, now))
  }

  function Run<V>(s: State<V>, evs: seq<Event<V>>): State<V> {
    if evs == [] then s else Step(Run(s, evs[..|evs| - 1]), evs[|evs| - 1])
  }

  // What the discipline asks of an event in a state: codes are not empty, a rewrite keeps the
  // raw URL, and the filter never denies what was inserted.
  ghost predicate Disciplined<V>(s: State<V>, ev: Event<V>, raw: V -> string) {
    match ev
    case CreateEv(code, stored, observed, _) => code != "" && raw(stored) == raw(observed)
    case RewriteEv(code, stored) => code in s.store ==> raw(stored) == raw(s.store[code])
    case DeleteEv(code) => code != ""
    case ResolveEv(code, positive, _) => code in s.added ==> positive
    case PurgeEv(_) => true
  }

  ghost predicate AllDisciplined<V>(s: State<V>, evs: seq<Event<V>>, raw: V -> string) {
    evs == [] ||
    (AllDisciplined(s, evs[..|evs| - 1], raw) && Disciplined(Run(s, evs[..|evs| - 1]), evs[|evs| - 1], raw))
  }

  // Whatever is cached is in the store with the same raw URL, and whatever is in the store was
  // inserted into the filter.
  ghost predicate Coherent<V>(s: State<V>, raw: V -> string) {
    && L.Valid(s.cache)
    && "" !in s.store
    && (forall e :: e in s.cache.order ==> e.key in s.store && raw(e.value) == raw(s.store[e.key]))
    && s.store.Keys <= s.added
  }

  // ----- The cache operations keep coherence -----

  lemma SetMembers<V>(c: L.Cache<V>, code: string, u: V, ttl: int, now: int)
    requires L.Valid(c)
    ensures L.Valid(L.DoSet(c, code, u, ttl, now)) && L.DoSet(c, code, u, ttl, now).cap == c.cap
    ensures forall e :: e in L.DoSet(c, code, u, ttl, now).order ==>
              (e.key == code && code != "" && e.value == u) || (e in c.order && (code != "" ==> e.key != code))
  {
    L.StepValid(c, L.Set(code, u, ttl, now));
    L.WithoutMembers(c.order, code);
    var c' := L.DoSet(c, code, u, ttl, now);
    forall e | e in c'.order
      ensures (e.key == code && code != "" && e.value == u) || (e in c.order && (code != "" ==> e.key != code))
    {
      if code != "" && !L.HasKey(c.order, code) && e in c.order && e.key == code {
        L.MemberHasKey(c.order, e);
      }
    }
  }

  lemma GetMembers<V>(c: L.Cache<V>, code: string, now: int)
    requires L.Valid(c)
    ensures L.Valid(L.DoGet(c, code, now).0) && L.DoGet(c, code, now).0.cap == c.cap
    ensures forall e :: e in L.DoGet(c, code, now).0.order ==> e in c.order
    ensures L.DoGet(c, code, now).1.Some? ==>
              exists e :: e in c.order && e.key == code && e.value == L.DoGet(c, code, now).1.value
  {
    L.StepValid(c, L.Get(code, now));
    L.WithoutMembers(c.order, code);
    if L.HasKey(c.order, code) {
      assert L.Find(c.order, code).value in c.order;
    }
  }

  lemma StepCoherent<V>(s: State<V>, ev: Event<V>, raw: V -> string)
    requires Coherent(s, raw) && Disciplined(s, ev, raw)
    ensures Coherent(Step(s, ev), raw)
  {
    match ev
    case CreateEv(code, stored, observed, now) =>
      SetMembers(s.cache, code, observed, TTL, now);
    case RewriteEv(code, stored) =>
    case DeleteEv(code) =>
      L.StepValid(s.cache, L.Delete(code));
      L.WithoutMembers(s.cache.order, code);
    case ResolveEv(code, positive, now) =>
      GetMembers(s.cache, code, now);
      if code in s.store {
        SetMembers(L.DoGet(s.cache, code, now).0, code, s.store[code], TTL, now);
      }
    case PurgeEv(now) =>
      L.StepValid(s.cache, L.Purge(now));
      L.LiveMembers(s.cache.order, now);
  }

  lemma {:induction false} RunCoherent<V>(s: State<V>, evs: seq<Event<V>>, raw: V -> string)
    requires Coherent(s, raw) && AllDisciplined(s, evs, raw)
    ensures Coherent(Run(s, evs), raw)
  {
    if evs != [] {
      RunCoherent(s, evs[..|evs| - 1], raw);
      StepCoherent(Run(s, evs[..|evs| - 1]), evs[|evs| - 1], raw);
    }
  }

  // Warming a fresh resolver on the whole store makes it coherent, however the listing is ordered
  // and however small the cache is.
  lemma {:induction false} WarmCoherent<V>(s: State<V>, list: seq<(string, V)>, i: nat, now: int, raw: V -> string)
    requires i <= |list|
    requires L.Valid(s.cache) && "" !in s.store
    requires forall e :: e in s.cache.order ==> e.key in s.store && raw(e.value) == raw(s.store[e.key])
    requires forall j :: 0 <= j < |list| ==> list[j].0 in s.store && raw(list[j].1) == raw(s.store[list[j].0])
    requires forall code :: code in s.store ==> code in s.added || exists j :: i <= j < |list| && list[j].0 == code
    ensures Coherent(Warm(s, list, i, now), raw) && Warm(s, list, i, now).store == s.store
    decreases |list| - i
  {
    if i < |list| {
      var (code, u) := list[i];
      SetMembers(s.cache, code, u, TTL, now);
      var cache := if i < s.cache.cap then L.DoSet(s.cache, code, u, TTL, now) else s.cache;
      var s' := s.(added := s.added + {code}, cache := cache);
      forall c | c in s'.store ensures c in s'.added || exists j :: i + 1 <= j < |list| && list[j].0 == c {
        if c !in s.added && c != code {
          var j :| i <= j < |list| && list[j].0 == c;
        }
      }
      WarmCoherent(s', list, i + 1, now, raw);
    }
  }

  // ----- The fast path equals the store -----

  // The answer tells exactly whether the store has the code, and gives the store's raw URL.
  ghost predicate Faithful<V>(s: State<V>, code: string, a: Answer<V>, raw: V -> string) {
    && (a.hit == BloomNegative || a.hit == NotFound <==> code !in s.store)
    && (code in s.store ==> a.url.Some? && raw(a.url.value) == raw(s.store[code]))
    && (code !in s.store ==> a.url == None)
  }

  lemma CoherentIsFaithful<V>(s: State<V>, code: string, positive: bool, now: int, raw: V -> string)
    requires Coherent(s, raw) && (code in s.added ==> positive)
    ensures Faithful(s, code, Resolve(s, code, positive, now).1, raw)
  {
    GetMembers(s.cache, code, now);
  }

  // Main theorem: after any disciplined run from a warmed resolver, whatever was evicted, expired
  // or purged and whatever false positives the filter gives, Resolve answers as the store would.
  lemma FastPathIsStore<V>(s: State<V>, evs: seq<Event<V>>, code: string, positive: bool, now: int, raw: V -> string)
    requires Coherent(s, raw) && AllDisciplined(s, evs, raw)
    requires code in Run(s, evs).added ==> positive
    ensures Faithful(Run(s, evs), code, Resolve(Run(s, evs), code, positive, now).1, raw)
  {
    RunCoherent(s, evs, raw);
    CoherentIsFaithful(Run(s, evs), code, positive, now, raw);
  }

  // ----- Which way an answer takes -----

  // The record is cached under the code and its time is not over.
  ghost predicate Cached<V>(s: State<V>, code: string, u: V, now: int) {
    exists e :: e in s.cache.order && e.key == code && e.value == u && (e.expireAt == None || now <= e.expireAt.value)
  }

  lemma CachedExactly<V>(s: State<V>, code: string, u: V, now: int)
    requires L.Valid(s.cache)
    ensures L.DoGet(s.cache, code, now).1 == Some(u) <==> Cached(s, code, u, now)
  {
    var c := s.cache;
    if L.HasKey(c.order, code) {
      var found := L.Find(c.order, code).value;
      assert found in c.order;
      forall e | e in c.order && e.key == code ensures e == found {
        var i :| 0 <= i < |c.order| && c.order[i] == e;
        L.FindAt(c.order, i);
      }
    } else {
      forall e | e in c.order ensures e.key != code { L.MemberHasKey(c.order, e); }
    }
    if code == "" { forall e | e in c.order ensures e.key != "" { L.MemberHasKey(c.order, e); } }
  }

  // Some record is.
  ghost predicate Kept<V>(s: State<V>, code: string, now: int) {
    exists e :: e in s.cache.order && e.key == code && (e.expireAt == None || now <= e.expireAt.value)
  }

  // Each of the four hits, by what there is before the call.
  ghost predicate HitRight<V>(s: State<V>, code: string, positive: bool, now: int, hit: Hit) {
    var cached := Kept(s, code, now);
    && (hit.BloomNegative? <==> code != "" && !positive)
    && (hit.CacheHit? <==> code != "" && positive && cached)
    && (hit.StoreHit? <==> code != "" && positive && !cached && code in s.store)
    && (hit.NotFound? <==> code == "" || (positive && !cached && code !in s.store))
  }

  // The answer is that hit, with its record, and is counted as what it is.
  lemma HitExactly<V>(s: State<V>, code: string, positive: bool, now: int)
    requires L.Valid(s.cache)
    ensures var (s', a) := Resolve(s, code, positive, now);
            var n, n' := s.counters, s'.counters;
            && HitRight(s, code, positive, now, a.hit)
            && (a.hit.CacheHit? ==> a.url.Some? && Cached(s, code, a.url.value, now))
            && (a.hit.StoreHit? ==> a.url == Some(s.store[code]))
            && (a.hit.BloomNegative? || a.hit.NotFound? ==> a.url == None)
            && n'.bloomMiss == n.bloomMiss + (if a.hit.BloomNegative? then 1 else 0)
            && n'.cache == n.cache + (if a.hit.CacheHit? then 1 else 0)
            && n'.store == n.store + (if a.hit.StoreHit? then 1 else 0)
            && n'.notFound == n.notFound + (if a.hit.NotFound? && code != "" then 1 else 0)
  {
    var got := L.DoGet(s.cache, code, now).1;
    if got.Some? { CachedExactly(s, code, got.value, now); }
    if e :| e in s.cache.order && e.key == code && (e.expireAt == None || now <= e.expireAt.value) {
      CachedExactly(s, code, e.value, now);
    }
  }

  // A hit in the store is a hit in the cache for the ten minutes to come, with the same record.
  lemma StoreHitRefills<V>(s: State<V>, code: string, positive: bool, at: int, now: int)
    requires L.Valid(s.cache) && Resolve(s, code, positive, at).1.hit.StoreHit?
    ensures var (s', a) := Resolve(s, code, positive, at);
            && s'.store == s.store
            && Resolve(s', code, true, now).1.url == a.url
            && Resolve(s', code, true, now).1.hit == if now <= at + 600 then CacheHit else StoreHit
  {
    var c := L.DoGet(s.cache, code, at).0;
    L.StepValid(s.cache, L.Get(code, at));
    LT.SetThenGet(c, code, s.store[code], TTL, at, now);
  }

  // So is a link that the resolver was told of; and one it was told is gone is looked for in the store.
  lemma ObservedIsCached<V>(s: State<V>, code: string, u: V, at: int, now: int)
    requires L.Valid(s.cache) && code != "" && now <= at + 600
    ensures var s' := ObserveCreated(s, code, u, at);
            && code in s'.added
            && Resolve(s', code, true, now).1 == Answer(CacheHit, Some(u))
  {
    LT.SetThenGet(s.cache, code, u, TTL, at, now);
  }

  lemma InvalidatedIsNotCached<V>(s: State<V>, code: string, now: int)
    requires L.Valid(s.cache) && code != ""
    ensures var s' := ObserveInvalidated(s, code);
            Resolve(s', code, true, now).1.hit == if code in s.store then StoreHit else NotFound
  {
    L.WithoutMembers(s.cache.order, code);
  }

  // ----- Accounting -----

  function Resolves<V>(evs: seq<Event<V>>): nat {
    if evs == [] then 0
    else Resolves(evs[..|evs| - 1]) + (if evs[|evs| - 1].ResolveEv? && evs[|evs| - 1].code != "" then 1 else 0)
  }

  lemma StepCounts<V>(s: State<V>, ev: Event<V>)
    ensures var n, n' := s.counters, Step(s, ev).counters;
            && n'.Sum() == n.Sum() + (if ev.ResolveEv? && ev.code != "" then 1 else 0)
            && Step(s, ev).cache.hits - s.cache.hits == n'.cache - n.cache
            && Step(s, ev).cache.misses - s.cache.misses == (n'.store - n.store) + (n'.notFound - n.notFound)
  {
  }

  // The four counters together count the resolutions of non-empty codes; the cache's own hits
  // and misses are those of the resolutions that passed the filter.
  lemma {:induction false} CountersAddUp<V>(s: State<V>, evs: seq<Event<V>>)
    ensures var n, n' := s.counters, Run(s, evs).counters;
            && n'.Sum() == n.Sum() + Resolves(evs)
            && Run(s, evs).cache.hits - s.cache.hits == n'.cache - n.cache
            && Run(s, evs).cache.misses - s.cache.misses == (n'.store - n.store) + (n'.notFound - n.notFound)
  {
    if evs != [] {
      CountersAddUp(s, evs[..|evs| - 1]);
      StepCounts(Run(s, evs[..|evs| - 1]), evs[|evs| - 1]);
    }
  }

  // ----- From boot -----

  // A resolver with nothing cached, inserted or counted yet.
  function Booted<V>(store: map<string, V>, cap: nat): State<V> {
    State(store, L.NewCache(cap), {}, Counters(0, 0, 0, 0))
  }

  // The listing is of the whole store.
  ghost predicate Lists<V>(store: map<string, V>, list: seq<(string, V)>, raw: V -> string) {
    && (forall j :: 0 <= j < |list| ==> list[j].0 in store && raw(list[j].1) == raw(store[list[j].0]))
    && (forall code :: code in store ==> exists j :: 0 <= j < |list| && list[j].0 == code)
  }

  // Main theorem: booted on any store with a cache of any size, warmed, and told of every creation
  // and deletion, the resolver answers as the store would and has counted every resolution.
  lemma FromBoot<V>(store: map<string, V>, cap: nat, list: seq<(string, V)>, boot: int,
                          evs: seq<Event<V>>, code: string, positive: bool, now: int, raw: V -> string)
    requires 0 < cap && "" !in store && Lists(store, list, raw)
    requires var s := Warm(Booted(store, cap), list, 0, boot);
             AllDisciplined(s, evs, raw) && (code in Run(s, evs).added ==> positive)
    ensures var s := Run(Warm(Booted(store, cap), list, 0, boot), evs);
            && Faithful(s, code, Resolve(s, code, positive, now).1, raw)
            && s.counters.Sum() == Resolves(evs)
  {
    var s := Warm(Booted(store, cap), list, 0, boot);
    WarmCoherent(Booted(store, cap), list, 0, boot, raw);
    WarmKeepsCounters(Booted(store, cap), list, 0, boot);
    FastPathIsStore(s, evs, code, positive, now, raw);
    CountersAddUp(s, evs);
  }

  lemma {:induction false} WarmKeepsCounters<V>(s: State<V>, list: seq<(string, V)>, i: nat, now: int)
    requires i <= |list|
    ensures Warm(s, list, i, now).counters == s.counters
    decreases |list| - i
  {
    if i < |list| {
      var (code, u) := list[i];
      var cache := if i < s.cache.cap then L.DoSet(s.cache, code, u, TTL, now) else s.cache;
      WarmKeepsCounters(s.(added := s.added + {code}, cache := cache), list, i + 1, now);
    }
  }

  // What warming leaves in the cache: the first n of the list, the last of them in front.
  function Front<V>(list: seq<(string, V)>, n: nat, now: int): (s: seq<L.Entry<V>>)
    requires n <= |list|
    ensures |s| == n
  {
    if n == 0 then [] else [L.Entry(list[n - 1].0, list[n - 1].1, Some(now + 600))] + Front(list, n - 1, now)
  }

  lemma {:induction false} FrontMembers<V>(list: seq<(string, V)>, n: nat, now: int)
    requires n <= |list|
    ensures forall e :: e in Front(list, n, now) <==>
              exists i :: 0 <= i < n && e == L.Entry(list[i].0, list[i].1, Some(now + 600))
  {
    if n > 0 { FrontMembers(list, n - 1, now); }
  }

  function Min(a: nat, b: nat): nat {
    if a < b then a else b
  }

  ghost predicate Codes<V>(list: seq<(string, V)>) {
    && (forall i :: 0 <= i < |list| ==> list[i].0 != "")
    && (forall i, j :: 0 <= i < j < |list| ==> list[i].0 != list[j].0)
  }

  lemma {:induction false} NotInFront<V>(list: seq<(string, V)>, n: nat, m: nat, now: int)
    requires m <= n < |list| && Codes(list)
    ensures !L.HasKey(Front(list, m, now), list[n].0)
  {
    if m > 0 { NotInFront(list, n, m - 1, now); }
  }

  lemma {:induction false} WarmFront<V>(s: State<V>, list: seq<(string, V)>, i: nat, now: int)
    requires i <= |list| && Codes(list) && s.cache.order == Front(list, Min(i, s.cache.cap), now)
    ensures Warm(s, list, i, now).cache.order == Front(list, Min(|list|, s.cache.cap), now)
    ensures Warm(s, list, i, now).cache.cap == s.cache.cap
    decreases |list| - i
  {
    if i < |list| {
      var (code, u) := list[i];
      var cache := if i < s.cache.cap then L.DoSet(s.cache, code, u, TTL, now) else s.cache;
      if i < s.cache.cap {
        NotInFront(list, i, i, now);
        assert s.cache.order == Front(list, i, now);
      }
      WarmFront(s.(added := s.added + {code}, cache := cache), list, i + 1, now);
    }
  }

  // A warmed resolver finds the first `cap` links of the list in the cache for the next ten minutes.
  lemma WarmCaches<V>(store: map<string, V>, cap: nat, list: seq<(string, V)>, boot: int, i: nat, u: V, now: int)
    requires 0 < cap && Codes(list) && i < |list|
    ensures Cached(Warm(Booted(store, cap), list, 0, boot), list[i].0, u, now) <==>
              i < cap && u == list[i].1 && now <= boot + 600
  {
    var s := Warm(Booted(store, cap), list, 0, boot);
    WarmFront(Booted(store, cap), list, 0, boot);
    FrontMembers(list, Min(|list|, cap), boot);
    var e := L.Entry(list[i].0, list[i].1, Some(boot + 600));
    if i < cap { assert e in s.cache.order; }
  }

  // ----- Without the discipline -----

  // cmd/server/main.go never calls the Observe hooks. After an unobserved creation the link is
  // found exactly when the filter happens to give a false positive for it.
  lemma UnobservedCreation<V>(s: State<V>, code: string, u: V, positive: bool, now: int, raw: V -> string)
    requires Coherent(s, raw) && code !in s.store && code != ""
    ensures var s' := s.(store := s.store[code := u]);
            Faithful(s', code, Resolve(s', code, positive, now).1, raw) <==> positive
  {
    GetMembers(s.cache, code, now);
  }

  // After an unobserved deletion the link is still answered exactly when it is cached and fresh.
  lemma UnobservedDeletion<V>(s: State<V>, code: string, now: int, raw: V -> string)
    requires Coherent(s, raw) && code in s.store
    ensures var s' := s.(store := s.store - {code});
            Faithful(s', code, Resolve(s', code, true, now).1, raw) <==>
              !(L.HasKey(s.cache.order, code) && !L.Expired(L.Find(s.cache.order, code).value, now))
  {
  }

  // In any state, a stored code is answered right exactly if the filter lets it through and nothing
  // else is cached for it; and a code that is not stored, unless the filter lets it through and it
  // is still cached and fresh.
  lemma FaithfulExactly<V>(s: State<V>, code: string, positive: bool, now: int, raw: V -> string)
    requires L.Valid(s.cache) && "" !in s.store
    ensures Faithful(s, code, Resolve(s, code, positive, now).1, raw) <==>
              if code in s.store
              then positive && (Alive(s, code, now) ==> raw(CachedValue(s, code)) == raw(s.store[code]))
              else !(positive && Alive(s, code, now))
  {
  }

  predicate Alive<V>(s: State<V>, code: string, now: int) {
    L.HasKey(s.cache.order, code) && !L.Expired(L.Find(s.cache.order, code).value, now)
  }

  function CachedValue<V>(s: State<V>, code: string): V
    requires L.HasKey(s.cache.order, code)
  {
    L.Find(s.cache.order, code).value.value
  }

  // What the process does: creations and deletions reach the store only.
  function StepUnhooked<V>(s: State<V>, ev: Event<V>): State<V> {
    match ev
    case CreateEv(code, stored, _, _) => if code in s.store then s else s.(store := s.store[code := stored])
    case DeleteEv(code) => s.(store := s.store - {code})
    case _ => Step(s, ev)
  }

  function RunUnhooked<V>(s: State<V>, evs: seq<Event<V>>): State<V> {
    if evs == [] then s else StepUnhooked(RunUnhooked(s, evs[..|evs| - 1]), evs[|evs| - 1])
  }

  // No code is ever given to another URL: each has its target.
  ghost predicate Steady<V>(ev: Event<V>, raw: V -> string, target: string -> string) {
    match ev
    case CreateEv(code, stored, _, _) => code != "" && raw(stored) == target(code)
    case RewriteEv(code, stored) => raw(stored) == target(code)
    case _ => true
  }

  ghost predicate OnTarget<V>(s: State<V>, raw: V -> string, target: string -> string) {
    && L.Valid(s.cache) && "" !in s.store
    && (forall code :: code in s.store ==> raw(s.store[code]) == target(code))
    && (forall e :: e in s.cache.order ==> e.key != "" && raw(e.value) == target(e.key))
  }

  lemma StepOnTarget<V>(s: State<V>, ev: Event<V>, raw: V -> string, target: string -> string)
    requires OnTarget(s, raw, target) && Steady(ev, raw, target)
    ensures OnTarget(StepUnhooked(s, ev), raw, target) && StepUnhooked(s, ev).added == s.added
  {
    match ev
    case ResolveEv(code, positive, now) =>
      GetMembers(s.cache, code, now);
      if code in s.store { SetMembers(L.DoGet(s.cache, code, now).0, code, s.store[code], TTL, now); }
    case PurgeEv(now) =>
      L.StepValid(s.cache, L.Purge(now));
      L.LiveMembers(s.cache.order, now);
    case _ =>
  }

  lemma {:induction false} RunOnTarget<V>(s: State<V>, evs: seq<Event<V>>, raw: V -> string, target: string -> string)
    requires OnTarget(s, raw, target) && forall i :: 0 <= i < |evs| ==> Steady(evs[i], raw, target)
    ensures OnTarget(RunUnhooked(s, evs), raw, target) && RunUnhooked(s, evs).added == s.added
  {
    if evs != [] {
      RunOnTarget(s, evs[..|evs| - 1], raw, target);
      StepOnTarget(RunUnhooked(s, evs[..|evs| - 1]), evs[|evs| - 1], raw, target);
    }
  }

  lemma {:induction false} WarmAdds<V>(s: State<V>, list: seq<(string, V)>, i: nat, now: int)
    requires i <= |list|
    ensures forall code :: code in Warm(s, list, i, now).added ==>
              code in s.added || exists j :: 0 <= j < |list| && list[j].0 == code
    decreases |list| - i
  {
    if i < |list| {
      var (code, u) := list[i];
      var cache := if i < s.cache.cap then L.DoSet(s.cache, code, u, TTL, now) else s.cache;
      WarmAdds(s.(added := s.added + {code}, cache := cache), list, i + 1, now);
    }
  }

  lemma OnTargetIsExact<V>(s: State<V>, code: string, positive: bool, now: int, raw: V -> string,
                           target: string -> string)
    requires OnTarget(s, raw, target)
    ensures var right := Faithful(s, code, Resolve(s, code, positive, now).1, raw);
            && (code in s.store ==> (right <==> positive))
            && (code !in s.store ==> (right <==> !(positive && Alive(s, code, now))))
  {
    FaithfulExactly(s, code, positive, now, raw);
    if L.HasKey(s.cache.order, code) { assert L.Find(s.cache.order, code).value in s.cache.order; }
  }

  lemma WarmOnTarget<V>(store: map<string, V>, cap: nat, list: seq<(string, V)>, boot: int, raw: V -> string,
                        target: string -> string)
    requires 0 < cap && "" !in store && Lists(store, list, raw)
    requires forall c :: c in store ==> raw(store[c]) == target(c)
    ensures var s := Warm(Booted(store, cap), list, 0, boot);
            OnTarget(s, raw, target) && s.added == store.Keys
  {
    var s := Warm(Booted(store, cap), list, 0, boot);
    WarmCoherent(Booted(store, cap), list, 0, boot, raw);
    WarmAdds(Booted(store, cap), list, 0, boot);
    assert s.added <= store.Keys;
  }

  // Main theorem about the process as it is: after any run from boot without the hooks, the filter
  // knows the codes there were at boot and no other; a stored code is answered right exactly if the
  // filter lets it through; and a missing one, unless it does and the link is still cached and fresh.
  lemma WithoutHooks<V>(store: map<string, V>, cap: nat, list: seq<(string, V)>, boot: int, evs: seq<Event<V>>,
                        code: string, positive: bool, now: int, raw: V -> string, target: string -> string)
    requires 0 < cap && "" !in store && Lists(store, list, raw)
    requires forall c :: c in store ==> raw(store[c]) == target(c)
    requires forall i :: 0 <= i < |evs| ==> Steady(evs[i], raw, target)
    ensures var s := RunUnhooked(Warm(Booted(store, cap), list, 0, boot), evs);
            var right := Faithful(s, code, Resolve(s, code, positive, now).1, raw);
            && s.added == store.Keys
            && (code in s.store ==> (right <==> positive))
            && (code !in s.store ==> (right <==> !(positive && Alive(s, code, now))))
  {
    var warm := Warm(Booted(store, cap), list, 0, boot);
    WarmOnTarget(store, cap, list, boot, raw, target);
    RunOnTarget(warm, evs, raw, target);
    OnTargetIsExact(RunUnhooked(warm, evs), code, positive, now, raw, target);
  }
}
