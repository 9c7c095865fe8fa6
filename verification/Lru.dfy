/**
 The cache of pkg/cache/lru.go as it is built: a map from key to list element plus a doubly
 linked recency list, updated in place. Every method is proved to have the effect `LruModel`
 gives to the same call. The clock reading is a parameter, and calls on a nil cache are not
 modelled.
 */
module Lru {
  import opened Wrappers
  import opened LruModel
  import opened RecencyList

  // The map that files each element of the list under its own key.
  ghost function IndexOf<V>(nodes: seq<Element<V>>): map<string, Element<V>> {
    if nodes == [] then map[] else IndexOf(nodes[1..])[nodes[0].key := nodes[0]]
  }

  ghost predicate KeysDistinct<V>(nodes: seq<Element<V>>) {
    forall i, j :: 0 <= i < j < |nodes| ==> nodes[i].key != nodes[j].key
  }

  // The map and the list hold the same elements.
  ghost predicate Indexed<V>(items: map<string, Element<V>>, nodes: seq<Element<V>>) {
    items == IndexOf(nodes) && KeysDistinct(nodes) && "" !in items
  }

  lemma {:induction false} IndexOfAt<V>(nodes: seq<Element<V>>, i: nat)
    requires KeysDistinct(nodes) && i < |nodes|
    ensures nodes[i].key in IndexOf(nodes) && IndexOf(nodes)[nodes[i].key] == nodes[i]
  {
    if i > 0 {
      IndexOfAt(nodes[1..], i - 1);
      assert nodes[0].key != nodes[i].key;
    }
  }

  lemma {:induction false} IndexOfKey<V>(nodes: seq<Element<V>>, key: string) returns (i: nat)
    requires key in IndexOf(nodes)
    ensures i < |nodes| && nodes[i].key == key
  {
    if nodes[0].key == key {
      i := 0;
    } else {
      i := IndexOfKey(nodes[1..], key);
      i := i + 1;
    }
  }

  lemma CutIndexed<V>(items: map<string, Element<V>>, nodes: seq<Element<V>>, i: nat)
    requires Indexed(items, nodes) && i < |nodes|
    ensures Indexed(items - {nodes[i].key}, Cut(nodes, i))
  {
    CutIndex(nodes, i);
  }

  lemma {:induction false} CutIndex<V>(nodes: seq<Element<V>>, i: nat)
    requires KeysDistinct(nodes) && i < |nodes|
    ensures IndexOf(Cut(nodes, i)) == IndexOf(nodes) - {nodes[i].key} && KeysDistinct(Cut(nodes, i))
  {
    var key, rest := nodes[i].key, nodes[1..];
    if i == 0 {
      assert Cut(nodes, 0) == rest;
      if key in IndexOf(rest) {
        var p := IndexOfKey(rest, key);
        assert false;
      }
    } else {
      CutIndex(rest, i - 1);
      assert Cut(nodes, i)[1..] == Cut(rest, i - 1);
      assert Cut(nodes, i)[0] == nodes[0] && nodes[0].key != key;
    }
  }

  lemma FrontIndexed<V>(items: map<string, Element<V>>, nodes: seq<Element<V>>, i: nat)
    requires Indexed(items, nodes) && i < |nodes|
    ensures Indexed(items, [nodes[i]] + Cut(nodes, i))
  {
    CutIndex(nodes, i);
    IndexOfAt(nodes, i);
    PushIndex(nodes[i], Cut(nodes, i));
  }

  lemma PushIndex<V>(e: Element<V>, nodes: seq<Element<V>>)
    requires KeysDistinct(nodes) && e.key !in IndexOf(nodes)
    ensures IndexOf([e] + nodes) == IndexOf(nodes)[e.key := e] && KeysDistinct([e] + nodes)
  {
    var s := [e] + nodes;
    assert s[1..] == nodes;
    forall i, j | 0 <= i < j < |s| ensures s[i].key != s[j].key {
      IndexOfAt(nodes, j - 1);
      if i > 0 { assert nodes[i - 1].key != nodes[j - 1].key; }
    }
  }

  // What a tail-to-head walk leaves of `was` once it has passed every position from `i` on.
  ghost function Purged<V>(was: seq<Entry<V>>, i: nat, now: int): (r: seq<Entry<V>>)
    requires i <= |was|
    ensures i <= |r| <= |was|
    ensures forall j :: 0 <= j < i ==> r[j] == was[j]
    decreases |was| - i
  {
    if i == |was| then was
    else
      var r := Purged(was, i + 1, now);
      if Expired(was[i], now) then Cut(r, i) else r
  }

  lemma {:induction false} PurgedIsLive<V>(was: seq<Entry<V>>, i: nat, now: int)
    requires i <= |was|
    ensures Purged(was, i, now) == was[..i] + Live(was[i..], now)
    decreases |was| - i
  {
    if i < |was| {
      PurgedIsLive(was, i + 1, now);
      var s, front, behind := was[i..], was[..i], Live(was[i + 1..], now);
      assert s[0] == was[i] && s[1..] == was[i + 1..];
      assert was[..i + 1] == front + [was[i]];
      CutMiddle(front, was[i], behind);
    } else {
      assert was[..i] == was;
    }
  }

  lemma CutMiddle<T>(a: seq<T>, x: T, b: seq<T>)
    ensures Cut(a + [x] + b, |a|) == a + b
    ensures a + [x] + b == a + ([x] + b)
  {
  }

  class LRU<V> {
    const cap: nat
    var items: map<string, Element<V>>
    const order: List<V>
    var hits: nat
    var misses: nat
    var evicted: nat
    var expired: nat
    // What the cache stands for.
    ghost var model: Cache<V>

    ghost predicate Valid()
      reads this, order, order.repr
    {
      && 0 < cap && order.Valid() && order.len <= cap && Indexed(items, order.nodes)
      && model == Cache(cap, order.entries, hits, misses, evicted, expired)
    }

    constructor (capacity: nat)
      requires 0 < capacity
      ensures Valid() && fresh(order) && order.repr == {} && cap == capacity
      ensures model == NewCache(capacity)
    {
      cap := capacity;
      items := map[];
      order := new List();
      hits, misses, evicted, expired := 0, 0, 0, 0;
      model := NewCache(capacity);
    }

    // A key is in the map exactly when the model holds it, and its element then sits at one
    // position of the list.
    lemma Locate(key: string) returns (i: nat)
      requires order.Valid() && Indexed(items, order.nodes)
      ensures key in items <==> HasKey(order.entries, key)
      ensures key in items ==>
                && i < order.len && order.nodes[i] == items[key]
                && Find(order.entries, key) == Some(order.entries[i])
                && Without(order.entries, key) == Cut(order.entries, i)
    {
      var s, nodes := order.entries, order.nodes;
      i := 0;
      if HasKey(s, key) {
        var p :| 0 <= p < |s| && s[p].key == key;
        IndexOfAt(nodes, p);
      }
      if key in items {
        i := IndexOfKey(nodes, key);
        IndexOfAt(nodes, i);
        FindAt(s, i);
        WithoutAt(s, i);
      }
    }

    method RemoveLocked(e: Element<V>, ghost i: nat)
      requires order.Valid() && Indexed(items, order.nodes) && i < |order.nodes| && order.nodes[i] == e
      modifies this`items, order, order.repr`prev, order.repr`next
      ensures order.Valid() && Indexed(items, order.nodes) && order.repr == old(order.repr)
      ensures order.nodes == Cut(old(order.nodes), i) && order.entries == Cut(old(order.entries), i)
    {
      CutIndexed(items, order.nodes, i);
      items := items - {e.key};
      order.Remove(e, i);
    }

    method EvictTailLocked()
      requires order.Valid() && Indexed(items, order.nodes)
      modifies this`items, this`evicted, order, order.repr`prev, order.repr`next
      ensures order.Valid() && Indexed(items, order.nodes) && order.repr == old(order.repr)
      ensures old(order.len) == 0 ==> order.entries == old(order.entries) && evicted == old(evicted)
      ensures old(order.len) > 0 ==>
                order.entries == old(order.entries[..order.len - 1]) && evicted == old(evicted) + 1
    {
      if order.back == null {
        return;
      }
      evicted := evicted + 1;
      RemoveLocked(order.back, order.len - 1);
    }

    method TouchLocked(e: Element<V>, ghost i: nat)
      requires order.Valid() && Indexed(items, order.nodes) && i < |order.nodes| && order.nodes[i] == e
      modifies order, order.repr`prev, order.repr`next
      ensures order.Valid() && Indexed(items, order.nodes) && order.repr == old(order.repr)
      ensures order.entries == [old(order.entries[i])] + Cut(old(order.entries), i)
    {
      FrontIndexed(items, order.nodes, i);
      order.MoveToFront(e, i);
    }

    method RefreshLocked(e: Element<V>, ghost i: nat, value: V, expireAt: Option<int>)
      requires order.Valid() && Indexed(items, order.nodes) && i < |order.nodes| && order.nodes[i] == e
      modifies order, order.repr
      ensures order.Valid() && Indexed(items, order.nodes) && order.repr == old(order.repr)
      ensures order.entries == [Entry(e.key, value, expireAt)] + Cut(old(order.entries), i)
    {
      order.Overwrite(e, i, value, expireAt);
      assert Cut(order.entries, i) == Cut(old(order.entries), i);
      TouchLocked(e, i);
    }

    method InsertLocked(key: string, value: V, expireAt: Option<int>)
      requires order.Valid() && Indexed(items, order.nodes) && key !in items && key != ""
      modifies this`items, order, order.repr`prev
      ensures order.Valid() && Indexed(items, order.nodes) && fresh(order.repr - old(order.repr))
      ensures order.entries == [Entry(key, value, expireAt)] + old(order.entries)
    {
      var ele := new Element(key, value, expireAt);
      PushIndex(ele, order.nodes);
      items := items[key := ele];
      order.PushFront(ele);
    }

    method Set(key: string, value: V, ttl: int, now: int)
      requires Valid()
      modifies this, order, order.repr
      ensures Valid() && fresh(order.repr - old(order.repr))
      ensures model == DoSet(old(model), key, value, ttl, now)
      ensures key != "" ==>
                model.order != [] && model.order[0] == Entry(key, value, if ttl > 0 then Some(now + ttl) else None)
    {
      if key == "" {
        return;
      }
      var expireAt := if ttl > 0 then Some(now + ttl) else None;
      ghost var i := Locate(key);
      model := DoSet(model, key, value, ttl, now);
      if key in items {
        RefreshLocked(items[key], i, value, expireAt);
        return;
      }
      InsertLocked(key, value, expireAt);
      if order.len > cap {
        EvictTailLocked();
      }
    }

    // The part of Get that has found an element: drop it if it has expired, else use it.
    method UseLocked(ele: Element<V>, ghost i: nat, now: int) returns (r: Option<V>)
      requires Valid() && i < |order.nodes| && order.nodes[i] == ele
      modifies this, order, order.repr`prev, order.repr`next
      ensures Valid() && order.repr == old(order.repr)
      ensures var c, e := old(model), old(order.entries[i]);
              (model, r) ==
                if Expired(e, now)
                then (c.(order := Cut(c.order, i), misses := c.misses + 1, expired := c.expired + 1), None)
                else (c.(order := [e] + Cut(c.order, i), hits := c.hits + 1), Some(e.value))
    {
      if ele.expireAt.Some? && now > ele.expireAt.value {
        expired := expired + 1;
        misses := misses + 1;
        RemoveLocked(ele, i);
        r := None;
      } else {
        hits := hits + 1;
        r := Some(ele.value);
        TouchLocked(ele, i);
      }
      model := Cache(cap, order.entries, hits, misses, evicted, expired);
    }

    method Get(key: string, now: int) returns (r: Option<V>)
      requires Valid()
      modifies this, order, order.repr
      ensures Valid() && order.repr == old(order.repr)
      ensures model == DoGet(old(model), key, now).0
      ensures r == DoGet(old(model), key, now).1
    {
      if key == "" {
        return None;
      }
      ghost var i := Locate(key);
      if key in items {
        r := UseLocked(items[key], i, now);
      } else {
        r := None;
        CountMiss();
      }
    }

    method CountMiss()
      requires Valid()
      modifies this`misses, this`model
      ensures Valid() && model == old(model).(misses := old(model).misses + 1)
    {
      misses := misses + 1;
      model := model.(misses := misses);
    }

    method Delete(key: string) returns (found: bool)
      requires Valid()
      modifies this, order, order.repr
      ensures Valid() && order.repr == old(order.repr)
      ensures model == DoDelete(old(model), key)
      ensures found <==> HasKey(old(model).order, key)
    {
      ghost var i := Locate(key);
      model := DoDelete(model, key);
      if key == "" {
        return false;
      }
      if key !in items {
        WithoutAbsent(order.entries, key);
        return false;
      }
      RemoveLocked(items[key], i);
      return true;
    }

    // One stop of the purge walk: note the next element, then drop this one if it has expired.
    method PurgeOne(e: Element<V>, ghost i: nat, now: int) returns (removed: bool, next: Element?<V>)
      requires order.Valid() && Indexed(items, order.nodes) && i < |order.nodes| && order.nodes[i] == e
      modifies this`items, this`expired, order, order.repr`prev, order.repr`next
      ensures order.Valid() && Indexed(items, order.nodes) && order.repr == old(order.repr)
      ensures removed == Expired(old(order.entries[i]), now)
      ensures order.entries == if removed then Cut(old(order.entries), i) else old(order.entries)
      ensures expired == old(expired) + if removed then 1 else 0
      ensures i <= order.len && if i == 0 then next == null else next == order.nodes[i - 1]
    {
      assert i > 0 ==> order.nodes[i].prev == order.nodes[i - 1];
      next := e.prev;
      removed := e.expireAt.Some? && now > e.expireAt.value;
      if removed {
        expired := expired + 1;
        RemoveLocked(e, i);
      }
    }

    // The walk the source documents: from the tail towards the head, one entry at a time.
    method PurgeWalk(now: int) returns (n: nat)
      requires order.Valid() && Indexed(items, order.nodes)
      modifies this`items, this`expired, order, order.repr`prev, order.repr`next
      ensures order.Valid() && Indexed(items, order.nodes) && order.repr == old(order.repr)
      ensures order.entries == Purged(old(order.entries), 0, now)
      ensures n == |old(order.entries)| - |order.entries| && expired == old(expired) + n
    {
      n := 0;
      var e := order.back;
      ghost var was, i := order.entries, order.len;
      while e != null
        invariant order.Valid() && Indexed(items, order.nodes) && order.repr == old(order.repr)
        invariant 0 <= i <= order.len && i <= |was|
        invariant if i == 0 then e == null else e == order.nodes[i - 1]
        invariant order.entries == Purged(was, i, now)
        invariant expired == old(expired) + n && n == |was| - |order.entries|
        decreases i
      {
        i := i - 1;
        var removed, next := PurgeOne(e, i, now);
        n := n + if removed then 1 else 0;
        e := next;
      }
    }

    method PurgeExpired(now: int) returns (n: nat)
      requires Valid()
      modifies this, order, order.repr
      ensures Valid() && order.repr == old(order.repr)
      ensures model == DoPurge(old(model), now)
      ensures n == |old(model).order| - |model.order|
    {
      PurgedIsLive(order.entries, 0, now);
      assert order.entries[0..] == order.entries;
      model := DoPurge(model, now);
      n := PurgeWalk(now);
    }

    // Clear drops every entry and keeps the statistics.
    method Clear()
      requires Valid()
      modifies this, order
      ensures Valid() && order.repr == old(order.repr)
      ensures model == old(model).(order := [])
    {
      items := map[];
      order.Init();
      model := model.(order := []);
    }
  }

  // A capacity that is not positive is an error: no cache is returned.
  method NewLRU<V>(capacity: int) returns (c: LRU?<V>)
    ensures c == null <==> capacity <= 0
    ensures c != null ==> c.Valid() && fresh(c) && fresh(c.order) && c.order.repr == {} && c.model == NewCache(capacity)
  {
    if capacity <= 0 {
      return null;
    }
    c := new LRU<V>(capacity);
  }
}
