/**
 One sweep of internal/service/janitor_service.go: walk the records in the map's iteration
 order, examine at most `batch` that are not yet disabled, and save those that are expired or
 over their limit as disabled.
 */
module Janitor {
  import opened Wrappers
  import opened Link
  import opened StoreModel
  import opened UrlStore
  import Lifecycle

  // The codes a sweep picks, in order.
  function Victims(urls: Image, order: seq<string>, batch: nat, now: int): (v: seq<string>)
    requires forall i :: 0 <= i < |order| ==> order[i] in urls
  {
    if order == [] || batch == 0 then []
    else
      var u, rest := urls[order[0]], order[1..];
      if u.disabled then Victims(urls, rest, batch, now)
      else if u.IsInvalid(now) then [order[0]] + Victims(urls, rest, batch - 1, now)
      else Victims(urls, rest, batch - 1, now)
  }

  ghost predicate Distinct(s: seq<string>) {
    forall i, j :: 0 <= i < j < |s| ==> s[i] != s[j]
  }

  lemma VictimsNext(urls: Image, order: seq<string>, i: nat, batch: nat, now: int)
    requires i < |order| && 0 < batch && forall j :: 0 <= j < |order| ==> order[j] in urls
    ensures var u, rest := urls[order[i]], order[i + 1..];
            Victims(urls, order[i..], batch, now) ==
              (if !u.disabled && u.IsInvalid(now) then [order[i]] else [])
              + Victims(urls, rest, if u.disabled then batch else batch - 1, now)
  {
    assert order[i..][0] == order[i] && order[i..][1..] == order[i + 1..];
  }

  // How many of the first n codes of the order are not disabled: what a sweep has examined by then.
  function Examined(urls: Image, order: seq<string>, n: nat): nat
    requires n <= |order| && forall i :: 0 <= i < |order| ==> order[i] in urls
  {
    if n == 0 then 0 else Examined(urls, order, n - 1) + if urls[order[n - 1]].disabled then 0 else 1
  }

  lemma {:induction false} ExaminedFrom(urls: Image, order: seq<string>, n: nat)
    requires 0 < n <= |order| && forall i :: 0 <= i < |order| ==> order[i] in urls
    ensures Examined(urls, order, n)
         == (if urls[order[0]].disabled then 0 else 1) + Examined(urls, order[1..], n - 1)
  {
    if n > 1 {
      ExaminedFrom(urls, order, n - 1);
      assert order[1..][n - 2] == order[n - 1];
    }
  }

  // Past its deadline, or visited as often as its limit allows.
  ghost predicate Ripe(u: Link, now: int) {
    !u.disabled && ((exists end :: u.expireAt == Some(end) && end < now) || 0 < u.maxVisits <= u.visits)
  }

  // The i-th code of the order is a victim: examined, and found expired or over its limit.
  ghost predicate Victim(urls: Image, order: seq<string>, batch: nat, now: int, i: nat)
    requires i < |order| && forall j :: 0 <= j < |order| ==> order[j] in urls
  {
    Ripe(urls[order[i]], now) && Examined(urls, order, i) < batch
  }

  // A sweep picks exactly the records that are not disabled but expired or over their limit and have
  // fewer than batch others that are not disabled before them; each once, and at most batch.
  lemma {:induction false} VictimsExactly(urls: Image, order: seq<string>, batch: nat, now: int)
    requires Distinct(order) && forall i :: 0 <= i < |order| ==> order[i] in urls
    ensures var v := Victims(urls, order, batch, now);
            && |v| <= batch && Distinct(v)
            && (forall k :: k in v ==> k in order && Ripe(urls[k], now))
            && (forall i :: 0 <= i < |order| ==> (order[i] in v <==> Victim(urls, order, batch, now, i)))
  {
    if order != [] && batch > 0 {
      var rest := order[1..];
      assert forall k :: k in order <==> k == order[0] || k in rest;
      assert order[0] !in rest;
      var left := if urls[order[0]].disabled then batch else batch - 1;
      VictimsExactly(urls, rest, left, now);
      var v, w := Victims(urls, rest, left, now), Victims(urls, order, batch, now);
      assert w == if Ripe(urls[order[0]], now) then [order[0]] + v else v;
      forall i | 0 <= i < |order| ensures order[i] in w <==> Victim(urls, order, batch, now, i) {
        if i > 0 {
          assert rest[i - 1] == order[i];
          ExaminedFrom(urls, order, i);
        }
      }
      ConsDistinct(order[0], v);
    }
  }

  lemma ConsDistinct(k: string, v: seq<string>)
    requires Distinct(v) && k !in v
    ensures Distinct([k] + v)
  {
  }

  // The first n victims disabled.
  function Disabled(urls: Image, victims: seq<string>, n: nat): Image
    requires n <= |victims|
  {
    map k | k in urls :: if k in victims[..n] then urls[k].(disabled := true) else urls[k]
  }

  class JanitorService {
    const store: URLStore

    constructor (store: URLStore)
      ensures this.store == store
    {
      this.store := store;
    }

    // First phase, under the read lock: collect the records to disable.
    method Collect(batch: nat, order: seq<string>, now: int) returns (candidates: seq<ShortURL>)
      requires store.Valid()
      requires forall i :: 0 <= i < |order| ==> order[i] in store.urls
      ensures var v := Victims(store.model, order, batch, now);
              && |candidates| == |v|
              && forall i :: 0 <= i < |v| ==> v[i] in store.urls && candidates[i] == store.urls[v[i]]
    {
      candidates := [];
      var processed := 0;
      ghost var v := Victims(store.model, order, batch, now);
      ghost var found: seq<string> := [];
      var i := 0;
      assert order[0..] == order;
      while i < |order| && processed < batch
        invariant 0 <= i <= |order| && 0 <= processed <= batch
        invariant |found| == |candidates|
        invariant forall j :: 0 <= j < |found| ==> found[j] in store.urls && candidates[j] == store.urls[found[j]]
        invariant v == found + Victims(store.model, order[i..], batch - processed, now)
      {
        var code := order[i];
        var u := store.urls[code];
        assert store.model[code] == u.Val();
        VictimsNext(store.model, order, i, batch - processed, now);
        if !u.disabled {
          if u.Val().IsExpired(now) || u.Val().ExceedsMaxVisits() {
            candidates := candidates + [u];
            found := found + [code];
          }
          processed := processed + 1;
        }
        i := i + 1;
      }
      assert v == found;
    }

    // The candidates from position i on are still the stored records of their codes.
    ghost predicate Pending(candidates: seq<ShortURL>, v: seq<string>, i: nat)
      reads store
    {
      |candidates| == |v| && forall j :: i <= j < |v| ==> v[j] in store.urls && candidates[j] == store.urls[v[j]]
    }

    method DisableNth(candidates: seq<ShortURL>, i: nat, writeOk: bool, ghost m: Image, ghost v: seq<string>)
      returns (saved: bool)
      requires store.Valid() && store.ready && i < |candidates| && Distinct(v) && Pending(candidates, v, i)
      requires store.model == Disabled(m, v, i)
      modifies store, store.repr
      ensures store.Valid() && store.ready && fresh(store.repr - old(store.repr)) && Pending(candidates, v, i + 1)
      ensures store.model == Disabled(m, v, i + 1)
      ensures !store.flushOn ==> saved
    {
      var u := candidates[i];
      assert store.model[v[i]].code == v[i] == u.code;
      DisabledNext(m, v, i);
      var r := store.Rewrite(u, true, u.remark, writeOk);
      saved := r.Ok?;
    }

    // Second phase: disable and save the candidates one by one; a failing write is skipped over.
    method MarkAll(candidates: seq<ShortURL>, writes: seq<bool>, ghost v: seq<string>) returns (updated: nat)
      requires store.Valid() && store.ready && Distinct(v) && Pending(candidates, v, 0) && |v| <= |writes|
      modifies store, store.repr
      ensures store.Valid() && fresh(store.repr - old(store.repr))
      ensures store.model == Disabled(old(store.model), v, |v|)
      ensures updated <= |v| && (!store.flushOn ==> updated == |v|)
    {
      ghost var m := store.model;
      updated := 0;
      assert Disabled(m, v, 0) == m;
      for i := 0 to |candidates|
        invariant store.Valid() && store.ready && fresh(store.repr - old(store.repr))
        invariant store.model == Disabled(m, v, i) && Pending(candidates, v, i)
        invariant updated <= i && (!store.flushOn ==> updated == i)
      {
        var saved := DisableNth(candidates, i, writes[i], m, v);
        updated := updated + if saved then 1 else 0;
      }
    }

    // `batch` sizes a slice, so a negative one panics: None. `writes` are the outcomes of the file
    // writes, used only with flush-on-write.
    method RunOnce(batch: int, order: seq<string>, now: int, writes: seq<bool>) returns (updated: Option<nat>)
      requires store.Valid()
      requires Distinct(order) && forall k :: k in order <==> k in store.urls
      requires |writes| == |order|
      modifies store, store.repr
      ensures store.Valid() && fresh(store.repr - old(store.repr))
      ensures updated.None? <==> batch < 0
      ensures batch < 0 || !old(store.ready) ==> updated.GetOr(0) == 0 && store.State() == old(store.State())
      ensures batch >= 0 && old(store.ready) ==>
              var v := Victims(old(store.model), order, batch, now);
              && store.model == Lifecycle.Step(old(store.model), Lifecycle.Sweep((set k | k in v), now))
              && updated.Some? && updated.value <= |v| <= batch
              && (!store.flushOn ==> updated.value == |v|)
              && Swept(old(store.model), store.model, order, batch, now)
    {
      if batch < 0 {
        return None;
      }
      if !store.ready {
        return Some(0);
      }
      var n := Sweep(batch, order, now, writes);
      return Some(n);
    }

    method Sweep(batch: nat, order: seq<string>, now: int, writes: seq<bool>) returns (updated: nat)
      requires store.Valid() && store.ready
      requires Distinct(order) && forall k :: k in order <==> k in store.urls
      requires |writes| == |order|
      modifies store, store.repr
      ensures store.Valid() && fresh(store.repr - old(store.repr))
      ensures var v := Victims(old(store.model), order, batch, now);
              && store.model == Lifecycle.Step(old(store.model), Lifecycle.Sweep((set k | k in v), now))
              && updated <= |v| <= batch
              && (!store.flushOn ==> updated == |v|)
              && Swept(old(store.model), store.model, order, batch, now)
    {
      ghost var m, v := store.model, Victims(store.model, order, batch, now);
      SweepIs(m, order, batch, now);
      var candidates := Collect(batch, order, now);
      updated := MarkAll(candidates, writes, v);
    }
  }

  lemma DisabledIsSweep(m: Image, order: seq<string>, batch: nat, now: int)
    requires Distinct(order) && forall i :: 0 <= i < |order| ==> order[i] in m
    ensures var v := Victims(m, order, batch, now);
            Disabled(m, v, |v|) == Lifecycle.Marked(m, (set k | k in v), now)
  {
    var v := Victims(m, order, batch, now);
    VictimsExactly(m, order, batch, now);
    assert v[..|v|] == v;
  }

  // What the sweep step comes to: exactly the victims are disabled, and nothing else changes.
  ghost predicate Swept(m: Image, m': Image, order: seq<string>, batch: nat, now: int)
    requires forall i :: 0 <= i < |order| ==> order[i] in m
  {
    && m'.Keys == m.Keys
    && forall i :: 0 <= i < |order| ==>
         m'[order[i]] == if Victim(m, order, batch, now, i) then m[order[i]].(disabled := true) else m[order[i]]
  }

  lemma SweepIs(m: Image, order: seq<string>, batch: nat, now: int)
    requires Distinct(order) && forall i :: 0 <= i < |order| ==> order[i] in m
    ensures var v := Victims(m, order, batch, now);
            && Distinct(v) && |v| <= batch && |v| <= |order|
            && Disabled(m, v, |v|) == Lifecycle.Step(m, Lifecycle.Sweep((set k | k in v), now))
            && Swept(m, Disabled(m, v, |v|), order, batch, now)
  {
    VictimsExactly(m, order, batch, now);
    VictimsFit(m, order, batch, now);
    DisabledIsSweep(m, order, batch, now);
  }

  lemma {:induction false} VictimsFit(urls: Image, order: seq<string>, batch: nat, now: int)
    requires forall i :: 0 <= i < |order| ==> order[i] in urls
    ensures |Victims(urls, order, batch, now)| <= |order|
  {
    if order != [] && batch > 0 {
      VictimsFit(urls, order[1..], batch, now);
      VictimsFit(urls, order[1..], batch - 1, now);
    }
  }

  lemma DisabledNext(m: Image, v: seq<string>, i: nat)
    requires i < |v| && Distinct(v) && v[i] in m
    ensures v[i] in Disabled(m, v, i) && Disabled(m, v, i)[v[i]] == m[v[i]]
    ensures Disabled(m, v, i + 1) == Disabled(m, v, i)[v[i] := m[v[i]].(disabled := true)]
    ensures m[v[i]].(disabled := true) == m[v[i]].(disabled := true, remark := m[v[i]].remark)
  {
    assert v[..i + 1] == v[..i] + [v[i]];
    assert v[i] !in v[..i];
  }
}
