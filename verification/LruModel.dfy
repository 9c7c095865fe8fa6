/**
 The value-level meaning of the TTL cache in pkg/cache/lru.go: a sequence of entries, most
 recently used first, with the four statistics counters. `Lru.dfy` proves that the linked
 structure refines it; `LruTheorems.dfy` proves what a whole run of it guarantees.
 */
module LruModel {
  import opened Wrappers

  // `expireAt == None` is the zero time, which never expires.
  datatype Entry<V> = Entry(key: string, value: V, expireAt: Option<int>)

  // now.After(expireAt): the entry is still alive at its very deadline.
  predicate Expired<V>(e: Entry<V>, now: int) {
    e.expireAt.Some? && now > e.expireAt.value
  }

  datatype Cache<V> = Cache(cap: nat, order: seq<Entry<V>>, hits: nat, misses: nat, evicted: nat, expired: nat)

  function NewCache<V>(cap: nat): Cache<V> {
    Cache(cap, [], 0, 0, 0, 0)
  }

  predicate HasKey<V>(s: seq<Entry<V>>, key: string) {
    exists i :: 0 <= i < |s| && s[i].key == key
  }

  ghost predicate Distinct<V>(s: seq<Entry<V>>) {
    forall i, j :: 0 <= i < j < |s| ==> s[i].key != s[j].key
  }

  // The entry filed under `key`.
  function Find<V>(s: seq<Entry<V>>, key: string): (r: Option<Entry<V>>)
    ensures r.Some? <==> HasKey(s, key)
    ensures r.Some? ==> r.value in s && r.value.key == key
  {
    if s == [] then None
    else if s[0].key == key then assert HasKey(s, key); Some(s[0])
    else
      var r := Find(s[1..], key);
      assert HasKey(s, key) ==> HasKey(s[1..], key) by {
        if HasKey(s, key) {
          var i :| 0 <= i < |s| && s[i].key == key;
          assert s[1..][i - 1].key == key;
        }
      }
      r
  }

  function Without<V>(s: seq<Entry<V>>, key: string): seq<Entry<V>> {
    if s == [] then []
    else if s[0].key == key then Without(s[1..], key)
    else [s[0]] + Without(s[1..], key)
  }

  function Live<V>(s: seq<Entry<V>>, now: int): seq<Entry<V>> {
    if s == [] then []
    else if Expired(s[0], now) then Live(s[1..], now)
    else [s[0]] + Live(s[1..], now)
  }

  ghost predicate Valid<V>(c: Cache<V>) {
    && 0 < c.cap
    && |c.order| <= c.cap
    && Distinct(c.order)
    && !HasKey(c.order, "")
  }

  function Deadline(ttl: int, now: int): Option<int> {
    if ttl > 0 then Some(now + ttl) else None
  }

  function DoSet<V>(c: Cache<V>, key: string, value: V, ttl: int, now: int): Cache<V> {
    if key == "" then c
    else
      var e := Entry(key, value, Deadline(ttl, now));
      if HasKey(c.order, key) then c.(order := [e] + Without(c.order, key))
      else if |c.order| + 1 > c.cap then c.(order := ([e] + c.order)[..|c.order|], evicted := c.evicted + 1)
      else c.(order := [e] + c.order)
  }

  function DoGet<V>(c: Cache<V>, key: string, now: int): (Cache<V>, Option<V>) {
    if key == "" then (c, None)
    else
      match Find(c.order, key)
      case None => (c.(misses := c.misses + 1), None)
      case Some(e) =>
        if Expired(e, now)
        then (c.(order := Without(c.order, key), misses := c.misses + 1, expired := c.expired + 1), None)
        else (c.(order := [e] + Without(c.order, key), hits := c.hits + 1), Some(e.value))
  }

  function DoDelete<V>(c: Cache<V>, key: string): Cache<V> {
    if key == "" then c else c.(order := Without(c.order, key))
  }

  function DoPurge<V>(c: Cache<V>, now: int): Cache<V> {
    var live := Live(c.order, now);
    LiveShrinks(c.order, now);
    c.(order := live, expired := c.expired + (|c.order| - |live|))
  }

  lemma LiveShrinks<V>(s: seq<Entry<V>>, now: int)
    ensures |Live(s, now)| <= |s|
  {
  }

  // One call on the cache, carrying the clock reading it made.
  datatype Op<V> =
    | Set(key: string, value: V, ttl: int, now: int)
    | Get(key: string, now: int)
    | Delete(key: string)
    | Purge(now: int)

  function Step<V>(c: Cache<V>, op: Op<V>): Cache<V> {
    match op
    case Set(k, v, ttl, now) => DoSet(c, k, v, ttl, now)
    case Get(k, now) => DoGet(c, k, now).0
    case Delete(k) => DoDelete(c, k)
    case Purge(now) => DoPurge(c, now)
  }

  function Run<V>(c: Cache<V>, ops: seq<Op<V>>): Cache<V> {
    if ops == [] then c else Step(Run(c, ops[..|ops| - 1]), ops[|ops| - 1])
  }

  // ----- Facts about Without and Live -----

  lemma {:induction false} WithoutMembers<V>(s: seq<Entry<V>>, key: string)
    ensures forall e :: e in Without(s, key) ==> e in s && e.key != key
    ensures forall e :: e in s && e.key != key ==> e in Without(s, key)
    ensures !HasKey(Without(s, key), key)
    ensures |Without(s, key)| <= |s|
  {
    if s != [] {
      WithoutMembers(s[1..], key);
      assert s == [s[0]] + s[1..];
      assert forall i :: 0 <= i < |Without(s, key)| ==> Without(s, key)[i] in Without(s, key);
    }
  }

  lemma DistinctTail<V>(s: seq<Entry<V>>)
    requires Distinct(s) && s != []
    ensures Distinct(s[1..])
    ensures forall e :: e in s[1..] ==> e.key != s[0].key
  {
    forall e | e in s[1..] ensures e.key != s[0].key {
      var i :| 0 <= i < |s[1..]| && s[1..][i] == e;
      assert s[i + 1] == e;
    }
  }

  lemma DistinctCons<V>(x: Entry<V>, w: seq<Entry<V>>)
    requires Distinct(w) && forall e :: e in w ==> e.key != x.key
    ensures Distinct([x] + w)
  {
    var s := [x] + w;
    forall i, j | 0 <= i < j < |s| ensures s[i].key != s[j].key {
      assert s[j] == w[j - 1] && w[j - 1] in w;
      if i > 0 { assert s[i] == w[i - 1]; }
    }
  }

  lemma {:induction false} WithoutDistinct<V>(s: seq<Entry<V>>, key: string)
    requires Distinct(s)
    ensures Distinct(Without(s, key))
  {
    if s != [] {
      DistinctTail(s);
      WithoutDistinct(s[1..], key);
      WithoutMembers(s[1..], key);
      DistinctCons(s[0], Without(s[1..], key));
    }
  }

  lemma {:induction false} WithoutAbsent<V>(s: seq<Entry<V>>, key: string)
    requires !HasKey(s, key)
    ensures Without(s, key) == s
  {
    if s != [] {
      forall i | 0 <= i < |s[1..]| ensures s[1..][i].key != key {
        assert s[1..][i] == s[i + 1];
      }
      WithoutAbsent(s[1..], key);
    }
  }

  // `s` with position `i` taken out.
  ghost function Cut<T>(s: seq<T>, i: nat): (r: seq<T>)
    requires i < |s|
    ensures |r| == |s| - 1
    ensures forall j :: 0 <= j < |r| ==> r[j] == if j < i then s[j] else s[j + 1]
  {
    seq(|s| - 1, j requires 0 <= j < |s| - 1 => if j < i then s[j] else s[j + 1])
  }

  // In a sequence of distinct keys, Without cuts out exactly one position.
  lemma {:induction false} WithoutAt<V>(s: seq<Entry<V>>, i: nat)
    requires Distinct(s) && i < |s|
    ensures Without(s, s[i].key) == Cut(s, i)
  {
    var key := s[i].key;
    if i == 0 {
      assert !HasKey(s[1..], key);
      WithoutAbsent(s[1..], key);
    } else {
      assert Distinct(s[1..]);
      WithoutAt(s[1..], i - 1);
      assert Cut(s, i) == [s[0]] + Cut(s[1..], i - 1);
    }
  }

  lemma {:induction false} FindAt<V>(s: seq<Entry<V>>, i: nat)
    requires Distinct(s) && i < |s|
    ensures Find(s, s[i].key) == Some(s[i])
  {
    assert s[i].key == s[i].key && HasKey(s, s[i].key);
    var e := Find(s, s[i].key).value;
    var j :| 0 <= j < |s| && s[j] == e;
  }

  lemma {:induction false} LiveMembers<V>(s: seq<Entry<V>>, now: int)
    ensures forall e :: e in Live(s, now) ==> e in s && !Expired(e, now)
    ensures forall e :: e in s && !Expired(e, now) ==> e in Live(s, now)
    ensures |Live(s, now)| <= |s|
  {
    if s != [] {
      LiveMembers(s[1..], now);
      assert s == [s[0]] + s[1..];
    }
  }

  lemma {:induction false} LiveDistinct<V>(s: seq<Entry<V>>, now: int)
    requires Distinct(s)
    ensures Distinct(Live(s, now))
  {
    if s != [] {
      DistinctTail(s);
      LiveDistinct(s[1..], now);
      LiveMembers(s[1..], now);
      DistinctCons(s[0], Live(s[1..], now));
    }
  }

  lemma {:induction false} LiveConcat<V>(a: seq<Entry<V>>, b: seq<Entry<V>>, now: int)
    ensures Live(a + b, now) == Live(a, now) + Live(b, now)
  {
    if a == [] {
      assert a + b == b;
    } else {
      assert (a + b)[1..] == a[1..] + b;
      LiveConcat(a[1..], b, now);
    }
  }

  lemma MemberHasKey<V>(s: seq<Entry<V>>, e: Entry<V>)
    requires e in s
    ensures HasKey(s, e.key)
  {
    var i :| 0 <= i < |s| && s[i] == e;
  }

  // ----- Every operation keeps the cache well formed -----

  // The order after taking the entry under `key` out keeps every property it had, and the
  // entry leaves a free place behind when it was there.
  lemma WithoutOk<V>(s: seq<Entry<V>>, key: string)
    requires Distinct(s) && !HasKey(s, "")
    ensures Distinct(Without(s, key)) && !HasKey(Without(s, key), "")
    ensures |Without(s, key)| == |s| - (if HasKey(s, key) then 1 else 0)
    ensures forall e :: e in Without(s, key) ==> e.key != key
  {
    WithoutDistinct(s, key);
    WithoutMembers(s, key);
    SubsetNoKey(Without(s, key), s, "");
    if HasKey(s, key) {
      var i :| 0 <= i < |s| && s[i].key == key;
      WithoutAt(s, i);
    } else {
      WithoutAbsent(s, key);
    }
  }

  lemma SubsetNoKey<V>(w: seq<Entry<V>>, s: seq<Entry<V>>, key: string)
    requires !HasKey(s, key) && forall e :: e in w ==> e in s
    ensures !HasKey(w, key)
  {
    if HasKey(w, key) {
      var i :| 0 <= i < |w| && w[i].key == key;
      assert w[i] in w;
      MemberHasKey(s, w[i]);
    }
  }

  lemma ConsOk<V>(x: Entry<V>, w: seq<Entry<V>>)
    requires Distinct(w) && !HasKey(w, "") && x.key != "" && !HasKey(w, x.key)
    ensures Distinct([x] + w) && !HasKey([x] + w, "")
  {
    forall e | e in w ensures e.key != x.key {
      if e.key == x.key { MemberHasKey(w, e); }
    }
    DistinctCons(x, w);
    var s := [x] + w;
    forall i | 0 <= i < |s| ensures s[i].key != "" {
      if i > 0 { assert s[i] == w[i - 1]; }
    }
  }

  lemma StepValid<V>(c: Cache<V>, op: Op<V>)
    requires Valid(c)
    ensures Valid(Step(c, op)) && Step(c, op).cap == c.cap
  {
    match op
    case Set(k, v, ttl, now) =>
      WithoutOk(c.order, k);
      WithoutMembers(c.order, k);
      if k != "" {
        ConsOk(Entry(k, v, Deadline(ttl, now)), Without(c.order, k));
        WithoutAbsentIf(c.order, k);
      }
    case Get(k, now) =>
      WithoutOk(c.order, k);
      WithoutMembers(c.order, k);
      if HasKey(c.order, k) {
        ConsOk(Find(c.order, k).value, Without(c.order, k));
      }
    case Delete(k) =>
      WithoutOk(c.order, k);
    case Purge(now) =>
      LiveMembers(c.order, now);
      LiveDistinct(c.order, now);
      SubsetNoKey(Live(c.order, now), c.order, "");
  }

  lemma WithoutAbsentIf<V>(s: seq<Entry<V>>, key: string)
    ensures !HasKey(s, key) ==> Without(s, key) == s
  {
    if !HasKey(s, key) { WithoutAbsent(s, key); }
  }

  lemma {:induction false} RunValid<V>(c: Cache<V>, ops: seq<Op<V>>)
    requires Valid(c)
    ensures Valid(Run(c, ops)) && Run(c, ops).cap == c.cap
  {
    if ops != [] {
      RunValid(c, ops[..|ops| - 1]);
      StepValid(Run(c, ops[..|ops| - 1]), ops[|ops| - 1]);
    }
  }
}
