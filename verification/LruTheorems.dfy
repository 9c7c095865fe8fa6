/**
 What whole runs of the cache guarantee: inclusion between capacities, agreement with an
 unbounded expiring map, and recency order of the sequence (so the tail is the least recently
 used entry).
 */
module LruTheorems {
  import opened Wrappers
  import opened LruModel

  // ----- Subsequences -----

  ghost predicate Sub<V>(a: seq<Entry<V>>, b: seq<Entry<V>>)
    decreases |b|
  {
    a == [] || (b != [] && ((a[0] == b[0] && Sub(a[1..], b[1..])) || Sub(a, b[1..])))
  }

  lemma {:induction false} SubMembers<V>(a: seq<Entry<V>>, b: seq<Entry<V>>)
    requires Sub(a, b)
    ensures |a| <= |b|
    ensures forall e :: e in a ==> e in b
    decreases |b|
  {
    if a != [] {
      if a[0] == b[0] && Sub(a[1..], b[1..]) {
        SubMembers(a[1..], b[1..]);
        assert a == [a[0]] + a[1..];
      } else {
        SubMembers(a, b[1..]);
      }
    }
  }

  lemma {:induction false} SubWithout<V>(a: seq<Entry<V>>, b: seq<Entry<V>>, key: string)
    requires Sub(a, b)
    ensures Sub(Without(a, key), Without(b, key))
    decreases |b|
  {
    if a != [] {
      if a[0] == b[0] && Sub(a[1..], b[1..]) {
        SubWithout(a[1..], b[1..], key);
      } else {
        SubWithout(a, b[1..], key);
        SubSkip(Without(a, key), Without(b[1..], key), b[0]);
      }
    }
  }

  lemma SubSkip<V>(a: seq<Entry<V>>, b: seq<Entry<V>>, e: Entry<V>)
    requires Sub(a, b)
    ensures Sub(a, [e] + b)
  {
    assert ([e] + b)[1..] == b;
  }

  lemma SubPush<V>(a: seq<Entry<V>>, b: seq<Entry<V>>, e: Entry<V>)
    requires Sub(a, b)
    ensures Sub([e] + a, [e] + b)
  {
    assert ([e] + b)[1..] == b && ([e] + a)[1..] == a;
  }

  lemma {:induction false} SubLive<V>(a: seq<Entry<V>>, b: seq<Entry<V>>, now: int)
    requires Sub(a, b)
    ensures Sub(Live(a, now), Live(b, now))
    ensures |Live(b, now)| - |Live(a, now)| <= |b| - |a|
    decreases |b|
  {
    if a != [] {
      if a[0] == b[0] && Sub(a[1..], b[1..]) {
        SubLive(a[1..], b[1..], now);
      } else {
        SubLive(a, b[1..], now);
        SubSkip(Live(a, now), Live(b[1..], now), b[0]);
      }
    } else {
      LiveShrinks(b, now);
    }
  }

  // Dropping the tail of the shorter side, or of both sides, keeps the relation.
  lemma {:induction false} SubDropTail<V>(a: seq<Entry<V>>, b: seq<Entry<V>>)
    requires Sub(a, b) && a != []
    ensures b != [] && Sub(a[..|a| - 1], b) && Sub(a[..|a| - 1], b[..|b| - 1])
    decreases |b|
  {
    var a', b' := a[..|a| - 1], b[..|b| - 1];
    if a[0] == b[0] && Sub(a[1..], b[1..]) {
      if |a| > 1 {
        SubDropTail(a[1..], b[1..]);
        assert a'[1..] == a[1..][..|a[1..]| - 1];
        assert b'[1..] == b[1..][..|b[1..]| - 1];
      }
    } else {
      SubDropTail(a, b[1..]);
      assert b'[1..] == b[1..][..|b[1..]| - 1];
    }
  }

  // ----- LRU inclusion -----

  // The smaller cache's entries are a subsequence of the larger's (same values, same deadlines,
  // same relative recency), and what only the larger holds fits in the capacity difference.
  ghost predicate Included<V>(small: Cache<V>, large: Cache<V>) {
    && Valid(small) && Valid(large)
    && small.cap <= large.cap
    && Sub(small.order, large.order)
    && |large.order| - |small.order| <= large.cap - small.cap
    && small.hits <= large.hits
    && small.hits + small.misses == large.hits + large.misses
  }

  lemma SubFind<V>(a: seq<Entry<V>>, b: seq<Entry<V>>, key: string)
    requires Sub(a, b) && Distinct(b)
    ensures HasKey(a, key) ==> HasKey(b, key) && Find(a, key) == Find(b, key)
  {
    SubMembers(a, b);
    if HasKey(a, key) {
      FindMember(b, Find(a, key).value);
    }
  }

  lemma SetKeepsInclusion<V>(small: Cache<V>, large: Cache<V>, k: string, v: V, ttl: int, now: int)
    requires Included(small, large)
    ensures Included(DoSet(small, k, v, ttl, now), DoSet(large, k, v, ttl, now))
  {
    var a, b := small.order, large.order;
    var e := Entry(k, v, Deadline(ttl, now));
    StepValid(small, Set(k, v, ttl, now));
    StepValid(large, Set(k, v, ttl, now));
    SubFind(a, b, k);
    WithoutOk(a, k);
    WithoutOk(b, k);
    WithoutAbsentIf(a, k);
    WithoutAbsentIf(b, k);
    SubWithout(a, b, k);
    SubPush(Without(a, k), Without(b, k), e);
    if !HasKey(a, k) {
      var a1, b1 := [e] + a, [e] + Without(b, k);
      SubDropTail(a1, b1);
      assert a1[..|a1| - 1] == a1[..|a|];
      assert b1[..|b1| - 1] == b1[..|Without(b, k)|];
    }
  }

  lemma GetKeepsInclusion<V>(small: Cache<V>, large: Cache<V>, k: string, now: int)
    requires Included(small, large)
    ensures Included(DoGet(small, k, now).0, DoGet(large, k, now).0)
    ensures DoGet(small, k, now).1.Some? ==> DoGet(large, k, now).1 == DoGet(small, k, now).1
  {
    var a, b := small.order, large.order;
    StepValid(small, Get(k, now));
    StepValid(large, Get(k, now));
    SubFind(a, b, k);
    WithoutOk(a, k);
    WithoutOk(b, k);
    WithoutAbsentIf(a, k);
    SubWithout(a, b, k);
    if HasKey(b, k) {
      var e := Find(b, k).value;
      SubPush(Without(a, k), Without(b, k), e);
      SubSkip(Without(a, k), Without(b, k), e);
    }
  }

  lemma StepKeepsInclusion<V>(small: Cache<V>, large: Cache<V>, op: Op<V>)
    requires Included(small, large)
    ensures Included(Step(small, op), Step(large, op))
  {
    match op
    case Set(k, v, ttl, now) => SetKeepsInclusion(small, large, k, v, ttl, now);
    case Get(k, now) => GetKeepsInclusion(small, large, k, now);
    case Delete(k) =>
      StepValid(small, op);
      StepValid(large, op);
      SubFind(small.order, large.order, k);
      SubWithout(small.order, large.order, k);
      WithoutOk(small.order, k);
      WithoutOk(large.order, k);
    case Purge(now) =>
      StepValid(small, op);
      StepValid(large, op);
      SubLive(small.order, large.order, now);
  }

  // Main theorem: the same calls with the same clock readings on two capacities.
  lemma {:induction false} Inclusion<V>(c1: nat, c2: nat, ops: seq<Op<V>>)
    requires 0 < c1 <= c2
    ensures Included(Run(NewCache(c1), ops), Run(NewCache(c2), ops))
  {
    if ops != [] {
      Inclusion(c1, c2, ops[..|ops| - 1]);
      StepKeepsInclusion(Run(NewCache(c1), ops[..|ops| - 1]), Run(NewCache(c2), ops[..|ops| - 1]), ops[|ops| - 1]);
    }
  }

  // Every hit of the smaller cache is a hit of the larger one, with the same value.
  lemma InclusionOfHits<V>(c1: nat, c2: nat, ops: seq<Op<V>>, key: string, now: int)
    requires 0 < c1 <= c2
    ensures var r := DoGet(Run(NewCache(c1), ops), key, now).1;
            r.Some? ==> DoGet(Run(NewCache(c2), ops), key, now).1 == r
  {
    Inclusion(c1, c2, ops);
    GetKeepsInclusion(Run(NewCache(c1), ops), Run(NewCache(c2), ops), key, now);
  }

  // ----- Agreement with an unbounded expiring map -----

  // What is read back is what was set, up to and including the moment its time to live is over, or
  // for ever if it has none.
  lemma SetThenGet<V>(c: Cache<V>, key: string, value: V, ttl: int, at: int, now: int)
    requires Valid(c) && key != ""
    ensures DoGet(DoSet(c, key, value, ttl, at), key, now).1
         == if ttl <= 0 || now <= at + ttl then Some(value) else None
  {
    var e := Entry(key, value, Deadline(ttl, at));
    assert DoSet(c, key, value, ttl, at).order[0] == e;
    StepValid(c, Set(key, value, ttl, at));
    FindAt(DoSet(c, key, value, ttl, at).order, 0);
  }

  // The cache a caller would wish for: a plain map of what was last set, when, and for how long, in
  // which entries expire and are never evicted.
  datatype Written<V> = Written(value: V, at: int, ttl: int)

  predicate Lasts<V>(w: Written<V>, now: int) {
    w.ttl <= 0 || now <= w.at + w.ttl
  }

  function IdealStep<V>(m: map<string, Written<V>>, op: Op<V>): map<string, Written<V>> {
    match op
    case Set(k, v, ttl, now) => if k == "" then m else m[k := Written(v, now, ttl)]
    case Get(k, now) => if k in m && !Lasts(m[k], now) then m - {k} else m
    case Delete(k) => m - {k}
    case Purge(now) => map k | k in m && Lasts(m[k], now) :: m[k]
  }

  function Ideal<V>(ops: seq<Op<V>>): map<string, Written<V>> {
    if ops == [] then map[] else IdealStep(Ideal(ops[..|ops| - 1]), ops[|ops| - 1])
  }

  function IdealGet<V>(m: map<string, Written<V>>, key: string, now: int): Option<V> {
    if key in m && Lasts(m[key], now) then Some(m[key].value) else None
  }

  ghost function KeysSet<V>(ops: seq<Op<V>>): set<string> {
    set op | op in ops && op.Set? :: op.key
  }

  // The entry of the cache for what was written under key.
  function EntryOf<V>(key: string, w: Written<V>): Entry<V> {
    Entry(key, w.value, Deadline(w.ttl, w.at))
  }

  // Everything cached is what the ideal map holds.
  ghost predicate Sound<V>(order: seq<Entry<V>>, m: map<string, Written<V>>) {
    forall e :: e in order ==> e.key in m && e == EntryOf(e.key, m[e.key])
  }

  ghost predicate Complete<V>(order: seq<Entry<V>>, m: map<string, Written<V>>) {
    forall k :: k in m ==> EntryOf(k, m[k]) in order
  }

  lemma StepSound<V>(c: Cache<V>, m: map<string, Written<V>>, op: Op<V>)
    requires Valid(c) && "" !in m && Sound(c.order, m)
    ensures Sound(Step(c, op).order, IdealStep(m, op)) && "" !in IdealStep(m, op)
  {
    match op
    case Set(k, v, ttl, now) =>
      WithoutMembers(c.order, k);
      var e := Entry(k, v, Deadline(ttl, now));
      forall x | x in Step(c, op).order
        ensures x.key in IdealStep(m, op) && x == EntryOf(x.key, IdealStep(m, op)[x.key])
      {
        if k != "" && x != e && x.key == k {
          MemberHasKey(c.order, x);
        }
      }
    case Get(k, now) =>
      WithoutMembers(c.order, k);
      SubsetNoKey([], c.order, "");
      forall x | x in c.order ensures x.key != "" {
        MemberHasKey(c.order, x);
      }
      forall x | x in Step(c, op).order && x.key == k ensures !Expired(x, now) {
        FindMember(c.order, x);
      }
    case Delete(k) =>
      WithoutMembers(c.order, k);
      forall x | x in c.order ensures x.key != "" {
        MemberHasKey(c.order, x);
      }
    case Purge(now) =>
      LiveMembers(c.order, now);
  }

  lemma FindMember<V>(s: seq<Entry<V>>, x: Entry<V>)
    requires Distinct(s) && x in s
    ensures HasKey(s, x.key) && Find(s, x.key) == Some(x)
  {
    MemberHasKey(s, x);
    var i :| 0 <= i < |s| && s[i] == x;
    FindAt(s, i);
  }

  // The keys of a distinct sequence are as many as its entries.
  ghost function Keys<V>(s: seq<Entry<V>>): set<string> {
    set e | e in s :: e.key
  }

  lemma {:induction false} KeysSize<V>(s: seq<Entry<V>>)
    requires Distinct(s)
    ensures |Keys(s)| == |s|
  {
    if s != [] {
      DistinctTail(s);
      KeysSize(s[1..]);
      assert s == [s[0]] + s[1..];
      assert Keys(s) == Keys(s[1..]) + {s[0].key};
      assert s[0].key !in Keys(s[1..]);
    } else {
      assert Keys(s) == {};
    }
  }

  lemma SubsetSize<T>(a: set<T>, b: set<T>)
    requires a <= b
    ensures |a| <= |b|
  {
    assert b == a + (b - a);
  }

  lemma StepComplete<V>(c: Cache<V>, m: map<string, Written<V>>, op: Op<V>, keys: set<string>)
    requires Valid(c) && "" !in m && Sound(c.order, m) && Complete(c.order, m)
    requires m.Keys <= keys && |keys| <= c.cap
    requires op.Set? ==> op.key in keys || op.key == ""
    ensures Complete(Step(c, op).order, IdealStep(m, op)) && IdealStep(m, op).Keys <= keys
  {
    match op
    case Set(k, v, ttl, now) =>
      WithoutMembers(c.order, k);
      if k != "" && !HasKey(c.order, k) {
        KeysSize(c.order);
        forall x | x in c.order ensures x.key != k { if x.key == k { MemberHasKey(c.order, x); } }
        assert k !in Keys(c.order) && Keys(c.order) + {k} <= keys;
        SubsetSize(Keys(c.order) + {k}, keys);
      }
    case Get(k, now) =>
      WithoutMembers(c.order, k);
      if k in m { FindMember(c.order, EntryOf(k, m[k])); }
      if HasKey(c.order, k) { assert Find(c.order, k).value in c.order; }
    case Delete(k) =>
      WithoutMembers(c.order, k);
    case Purge(now) =>
      LiveMembers(c.order, now);
  }

  lemma {:induction false} RunSound<V>(cap: nat, ops: seq<Op<V>>)
    requires 0 < cap
    ensures "" !in Ideal(ops) && Sound(Run(NewCache(cap), ops).order, Ideal(ops))
  {
    if ops != [] {
      var before := ops[..|ops| - 1];
      RunSound(cap, before);
      RunValid(NewCache<V>(cap), before);
      StepSound(Run(NewCache(cap), before), Ideal(before), ops[|ops| - 1]);
    }
  }

  lemma {:induction false} RunComplete<V>(cap: nat, ops: seq<Op<V>>, keys: set<string>)
    requires 0 < cap && KeysSet(ops) <= keys && |keys| <= cap
    ensures Complete(Run(NewCache(cap), ops).order, Ideal(ops)) && Ideal(ops).Keys <= keys
  {
    if ops != [] {
      var before, last := ops[..|ops| - 1], ops[|ops| - 1];
      assert forall op :: op in before ==> op in ops;
      assert KeysSet(before) <= KeysSet(ops);
      RunComplete(cap, before, keys);
      RunSound<V>(cap, before);
      RunValid(NewCache<V>(cap), before);
      assert last in ops;
      assert last.Set? ==> last.key in KeysSet(ops);
      StepComplete(Run(NewCache(cap), before), Ideal(before), last, keys);
    }
  }

  // Main theorem: a hit always returns what an unbounded expiring map would return (the value of
  // the last Set of that key, not deleted and not expired since); and a cache at least as large
  // as the number of keys ever set returns exactly that, misses included.
  lemma AgreesWithIdeal<V>(cap: nat, ops: seq<Op<V>>, key: string, now: int)
    requires 0 < cap
    ensures var r := DoGet(Run(NewCache(cap), ops), key, now).1;
            && (r.Some? ==> r == IdealGet(Ideal(ops), key, now))
            && (|KeysSet(ops)| <= cap ==> r == IdealGet(Ideal(ops), key, now))
  {
    var c := Run(NewCache(cap), ops);
    RunSound<V>(cap, ops);
    RunValid(NewCache<V>(cap), ops);
    if |KeysSet(ops)| <= cap {
      RunComplete(cap, ops, KeysSet(ops));
      if key in Ideal(ops) { FindMember(c.order, EntryOf(key, Ideal(ops)[key])); }
    }
    if HasKey(c.order, key) {
      assert Find(c.order, key).value in c.order;
    }
  }

  // ----- The order is recency order -----

  // Position in the run of the last call that used `key`: a Set of it, or a Get that hit it.
  function LastUse<V>(cap: nat, ops: seq<Op<V>>, key: string): (r: int)
    ensures -1 <= r < |ops|
  {
    if ops == [] then -1
    else
      var before, last := ops[..|ops| - 1], ops[|ops| - 1];
      if last.Set? && last.key == key then |before|
      else if last.Get? && last.key == key && DoGet(Run(NewCache(cap), before), key, last.now).1.Some? then |before|
      else LastUse(cap, before, key)
  }

  ghost predicate ByRecency<V>(cap: nat, ops: seq<Op<V>>, s: seq<Entry<V>>) {
    forall i, j :: 0 <= i < j < |s| ==> LastUse(cap, ops, s[i].key) > LastUse(cap, ops, s[j].key)
  }

  lemma {:induction false} WithoutKeepsRecency<V>(cap: nat, ops: seq<Op<V>>, s: seq<Entry<V>>, key: string)
    requires ByRecency(cap, ops, s)
    ensures ByRecency(cap, ops, Without(s, key))
  {
    if s != [] {
      assert ByRecency(cap, ops, s[1..]);
      WithoutKeepsRecency(cap, ops, s[1..], key);
      WithoutMembers(s[1..], key);
      RecencyCons(cap, ops, s[0], s[1..], Without(s[1..], key));
    }
  }

  lemma RecencyCons<V>(cap: nat, ops: seq<Op<V>>, x: Entry<V>, s: seq<Entry<V>>, w: seq<Entry<V>>)
    requires ByRecency(cap, ops, [x] + s) && ByRecency(cap, ops, w) && forall e :: e in w ==> e in s
    ensures ByRecency(cap, ops, [x] + w)
  {
    var t := [x] + w;
    forall i, j | 0 <= i < j < |t| ensures LastUse(cap, ops, t[i].key) > LastUse(cap, ops, t[j].key) {
      assert t[j] == w[j - 1] && w[j - 1] in w;
      if i == 0 {
        var p :| 0 <= p < |s| && s[p] == w[j - 1];
        assert ([x] + s)[p + 1] == s[p] && ([x] + s)[0] == x;
      } else {
        assert t[i] == w[i - 1];
      }
    }
  }

  lemma {:induction false} LiveKeepsRecency<V>(cap: nat, ops: seq<Op<V>>, s: seq<Entry<V>>, now: int)
    requires ByRecency(cap, ops, s)
    ensures ByRecency(cap, ops, Live(s, now))
  {
    if s != [] {
      assert ByRecency(cap, ops, s[1..]);
      LiveKeepsRecency(cap, ops, s[1..], now);
      LiveMembers(s[1..], now);
      RecencyCons(cap, ops, s[0], s[1..], Live(s[1..], now));
    }
  }

  // A call that touches no key of `s` leaves its recency order alone.
  lemma RecencyFrame<V>(cap: nat, ops: seq<Op<V>>, s: seq<Entry<V>>)
    requires ops != [] && ByRecency(cap, ops[..|ops| - 1], s)
    requires forall e :: e in s ==> LastUse(cap, ops, e.key) == LastUse(cap, ops[..|ops| - 1], e.key)
    ensures ByRecency(cap, ops, s)
  {
    forall i, j | 0 <= i < j < |s| ensures LastUse(cap, ops, s[i].key) > LastUse(cap, ops, s[j].key) {
      assert s[i] in s && s[j] in s;
    }
  }

  // A used key goes in front of everything untouched.
  lemma RecencyPush<V>(cap: nat, ops: seq<Op<V>>, x: Entry<V>, w: seq<Entry<V>>)
    requires ByRecency(cap, ops, w) && ops != [] && LastUse(cap, ops, x.key) == |ops| - 1
    requires forall e :: e in w ==> LastUse(cap, ops, e.key) < |ops| - 1
    ensures ByRecency(cap, ops, [x] + w)
  {
    var t := [x] + w;
    forall i, j | 0 <= i < j < |t| ensures LastUse(cap, ops, t[i].key) > LastUse(cap, ops, t[j].key) {
      assert t[j] == w[j - 1] && w[j - 1] in w;
      if i > 0 { assert t[i] == w[i - 1]; }
    }
  }

  // Main theorem: in every run the order is strictly by last use, so the entry a full cache
  // evicts is the one whose last use is the oldest.
  lemma {:induction false} OrderIsRecency<V>(cap: nat, ops: seq<Op<V>>)
    requires 0 < cap
    ensures ByRecency(cap, ops, Run(NewCache(cap), ops).order)
  {
    if ops != [] {
      var before, last := ops[..|ops| - 1], ops[|ops| - 1];
      OrderIsRecency(cap, before);
      RunValid(NewCache<V>(cap), before);
      match last
      case Set(_, _, _, _) => SetKeepsRecency(cap, ops);
      case Get(_, _) => GetKeepsRecency(cap, ops);
      case Delete(k) =>
        var c := Run(NewCache(cap), before);
        WithoutKeepsRecency(cap, before, c.order, k);
        RecencyFrame(cap, ops, Step(c, last).order);
      case Purge(now) =>
        var c := Run(NewCache(cap), before);
        LiveKeepsRecency(cap, before, c.order, now);
        RecencyFrame(cap, ops, Step(c, last).order);
    }
  }

  // The last call of a run, after which the order before it is by recency.
  ghost predicate Recent<V>(cap: nat, ops: seq<Op<V>>) {
    ops != [] &&
    var c := Run(NewCache(cap), ops[..|ops| - 1]);
    Valid(c) && ByRecency(cap, ops[..|ops| - 1], c.order)
  }

  lemma RecencyPrefix<V>(cap: nat, ops: seq<Op<V>>, s: seq<Entry<V>>, n: nat)
    requires ByRecency(cap, ops, s) && n <= |s|
    ensures ByRecency(cap, ops, s[..n])
  {
  }

  lemma SetKeepsRecency<V>(cap: nat, ops: seq<Op<V>>)
    requires Recent(cap, ops) && ops[|ops| - 1].Set?
    ensures ByRecency(cap, ops, Run(NewCache(cap), ops).order)
  {
    var before, last := ops[..|ops| - 1], ops[|ops| - 1];
    var c, k := Run(NewCache(cap), before), last.key;
    if k != "" {
      var w := Without(c.order, k);
      WithoutKeepsRecency(cap, before, c.order, k);
      WithoutOk(c.order, k);
      RecencyFrame(cap, ops, w);
      var e := Entry(k, last.value, Deadline(last.ttl, last.now));
      RecencyPush(cap, ops, e, w);
      WithoutAbsentIf(c.order, k);
      RecencyPrefix(cap, ops, [e] + w, |c.order|);
    } else {
      NoEmptyKey(c);
      RecencyFrame(cap, ops, c.order);
    }
  }

  lemma GetKeepsRecency<V>(cap: nat, ops: seq<Op<V>>)
    requires Recent(cap, ops) && ops[|ops| - 1].Get?
    ensures ByRecency(cap, ops, Run(NewCache(cap), ops).order)
  {
    var before, last := ops[..|ops| - 1], ops[|ops| - 1];
    var c, k := Run(NewCache(cap), before), last.key;
    if HasKey(c.order, k) && k != "" {
      var w := Without(c.order, k);
      WithoutKeepsRecency(cap, before, c.order, k);
      WithoutOk(c.order, k);
      RecencyFrame(cap, ops, w);
      if DoGet(c, k, last.now).1.Some? {
        RecencyPush(cap, ops, Find(c.order, k).value, w);
      }
    } else {
      RecencyFrame(cap, ops, c.order);
    }
  }

  lemma NoEmptyKey<V>(c: Cache<V>)
    requires Valid(c)
    ensures forall e :: e in c.order ==> e.key != ""
  {
    forall e | e in c.order ensures e.key != "" { MemberHasKey(c.order, e); }
  }

  // Eviction spelled out: a Set of an absent key on a full cache drops the least recently used
  // key and nothing else.
  lemma EvictsLeastRecentlyUsed<V>(cap: nat, ops: seq<Op<V>>, key: string, value: V, ttl: int, now: int)
    requires 0 < cap && key != ""
    requires var c := Run(NewCache<V>(cap), ops); |c.order| == cap && !HasKey(c.order, key)
    ensures var c := Run(NewCache<V>(cap), ops);
            var c' := DoSet(c, key, value, ttl, now);
            exists victim :: victim in c.order
              && (forall e :: e in c.order && e != victim ==> LastUse(cap, ops, victim.key) < LastUse(cap, ops, e.key))
              && (forall e :: e in c'.order <==>
                    e == Entry(key, value, Deadline(ttl, now)) || (e in c.order && e != victim))
  {
    var c := Run(NewCache<V>(cap), ops);
    OrderIsRecency<V>(cap, ops);
    RunValid(NewCache<V>(cap), ops);
    var n := |c.order|;
    var victim := c.order[n - 1];
    var e0 := Entry(key, value, Deadline(ttl, now));
    var c' := DoSet(c, key, value, ttl, now);
    assert c'.order == [e0] + c.order[..n - 1];
    assert c.order == c.order[..n - 1] + [victim];
    assert victim !in c.order[..n - 1];
    forall e | e in c.order ensures e != e0 { MemberHasKey(c.order, e); }
    forall e | e in c.order && e != victim ensures LastUse(cap, ops, victim.key) < LastUse(cap, ops, e.key) {
      var i :| 0 <= i < n && c.order[i] == e;
    }
    assert victim in c.order;
  }

  // ----- The statistics -----

  // What a run did: Gets with and without an answer, entries that came in, were pushed out of a full
  // cache, and were deleted.
  datatype Tally = Tally(found: nat, missed: nat, entered: nat, pushed: nat, deleted: nat)

  function Tallied<V>(cap: nat, ops: seq<Op<V>>): Tally {
    if ops == [] then Tally(0, 0, 0, 0, 0)
    else
      var before := ops[..|ops| - 1];
      var n, c := Tallied(cap, before), Run(NewCache(cap), before);
      match ops[|ops| - 1]
      case Set(k, _, _, _) =>
        if k == "" || HasKey(c.order, k) then n
        else n.(entered := n.entered + 1, pushed := n.pushed + if |c.order| >= cap then 1 else 0)
      case Get(k, now) =>
        if k == "" then n
        else if DoGet(c, k, now).1.Some? then n.(found := n.found + 1)
        else n.(missed := n.missed + 1)
      case Delete(k) => if HasKey(c.order, k) then n.(deleted := n.deleted + 1) else n
      case Purge(_) => n
  }

  // The counters say so, and an entry that came in is still there or was pushed out, deleted, or
  // counted as expired.
  lemma {:induction false} StatisticsExactly<V>(cap: nat, ops: seq<Op<V>>)
    requires 0 < cap
    ensures var n, c := Tallied(cap, ops), Run(NewCache(cap), ops);
            && c.hits == n.found && c.misses == n.missed && c.evicted == n.pushed
            && n.entered == |c.order| + c.evicted + c.expired + n.deleted
  {
    if ops != [] {
      var before, last := ops[..|ops| - 1], ops[|ops| - 1];
      StatisticsExactly(cap, before);
      RunValid(NewCache<V>(cap), before);
      var c := Run(NewCache(cap), before);
      if !last.Purge? { WithoutOk(c.order, last.key); }
    }
  }

  // ----- PurgeExpired -----

  // Purging removes exactly the expired entries; the rest keep their order.
  lemma PurgeRemovesExactlyExpired<V>(c: Cache<V>, now: int)
    requires Valid(c)
    ensures var c' := DoPurge(c, now);
            && Sub(c'.order, c.order)
            && (forall e :: e in c'.order <==> e in c.order && !Expired(e, now))
            && c'.expired - c.expired == |c.order| - |c'.order|
            && (forall k :: DoGet(c', k, now).1 == DoGet(c, k, now).1)
  {
    LiveMembers(c.order, now);
    LiveDistinct(c.order, now);
    LiveIsSub(c.order, now);
    var c' := DoPurge(c, now);
    forall k ensures DoGet(c', k, now).1 == DoGet(c, k, now).1 {
      if HasKey(c.order, k) {
        var e := Find(c.order, k).value;
        if !Expired(e, now) {
          FindMember(c'.order, e);
        } else if HasKey(c'.order, k) {
          FindMember(c.order, Find(c'.order, k).value);
        }
      } else {
        SubsetNoKey(c'.order, c.order, k);
      }
    }
  }

  lemma {:induction false} LiveIsSub<V>(s: seq<Entry<V>>, now: int)
    ensures Sub(Live(s, now), s)
  {
    if s != [] {
      LiveIsSub(s[1..], now);
      SubSkip(Live(s[1..], now), s[1..], s[0]);
      assert [s[0]] + s[1..] == s;
    }
  }

  // PurgeExpired as it stands steps back over two entries at a time and dereferences the
  // neighbour of the one it is on. Result: what is left of `s`, and whether the walk hit nil.
  function PurgeAsWritten<V>(s: seq<Entry<V>>, now: int): (seq<Entry<V>>, bool) {
    var n := |s|;
    if n == 0 then ([], false)
    else if n == 1 then (s, true)
    else
      var r := PurgeAsWritten(s[..n - 2], now);
      (r.0 + [s[n - 2]] + (if Expired(s[n - 1], now) then [] else [s[n - 1]]), r.1)
  }

  lemma {:induction false} SkippedSurvive<V>(s: seq<Entry<V>>, now: int, i: nat)
    requires |s| % 2 == 0 && i < |s| && i % 2 == 0
    ensures s[i] in PurgeAsWritten(s, now).0
    decreases |s|
  {
    var n := |s|;
    if i < n - 2 {
      SkippedSurvive(s[..n - 2], now, i);
      assert s[..n - 2][i] == s[i];
    } else {
      assert i == n - 2;
    }
  }

  lemma {:induction false} WrittenPurgesOdd<V>(s: seq<Entry<V>>, now: int)
    requires |s| % 2 == 0 && forall i :: 0 <= i < |s| && i % 2 == 0 ==> !Expired(s[i], now)
    ensures PurgeAsWritten(s, now).0 == Live(s, now)
    decreases |s|
  {
    var n := |s|;
    if n > 0 {
      WrittenPurgesOdd(s[..n - 2], now);
      LiveOfPair(s, now);
    }
  }

  lemma LiveOfPair<V>(s: seq<Entry<V>>, now: int)
    requires |s| >= 2 && !Expired(s[|s| - 2], now)
    ensures var n := |s|;
            Live(s, now) == Live(s[..n - 2], now) + [s[n - 2]] + if Expired(s[n - 1], now) then [] else [s[n - 1]]
  {
    var n := |s|;
    var front, x, y := s[..n - 2], s[n - 2], s[n - 1];
    assert s == front + ([x] + [y]);
    LiveConcat(front, [x] + [y], now);
    LiveConcat([x], [y], now);
    assert Live([x], now) == [x];
  }

  lemma {:induction false} WrittenFaultsOdd<V>(s: seq<Entry<V>>, now: int)
    ensures PurgeAsWritten(s, now).1 <==> |s| % 2 == 1
    decreases |s|
  {
    if |s| > 1 { WrittenFaultsOdd(s[..|s| - 2], now); }
  }

  // It fails exactly on an odd number of entries, and otherwise purges what it should exactly
  // when no expired entry sits at an even distance from the front.
  lemma PurgeAsWrittenExactly<V>(s: seq<Entry<V>>, now: int)
    ensures var (kept, fault) := PurgeAsWritten(s, now);
            && (fault <==> |s| % 2 == 1)
            && (!fault ==> (kept == Live(s, now) <==> forall i :: 0 <= i < |s| && i % 2 == 0 ==> !Expired(s[i], now)))
  {
    WrittenFaultsOdd(s, now);
    LiveMembers(s, now);
    if |s| % 2 == 0 {
      if i :| 0 <= i < |s| && i % 2 == 0 && Expired(s[i], now) {
        SkippedSurvive(s, now, i);
        assert s[i] !in Live(s, now);
      } else {
        WrittenPurgesOdd(s, now);
      }
    }
  }
}
