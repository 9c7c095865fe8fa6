/**
 internal/store/url_store.go as it is built: a map of record objects that Get hands out and
 IncrementVisits updates in place, with ready and dirty flags and a file. The ghost field
 `model` holds the value the store stands for; every method is proved to change it as `StoreModel`
 says. Locks are not modelled: each call is one step.
 */
module UrlStore {
  import opened Wrappers
  import opened Link
  import opened StoreModel

  class ShortURL {
    const code: string
    const rawURL: string
    const createdAt: int
    const expireAt: Option<int>
    const maxVisits: int
    var visits: int
    const custom: bool
    var disabled: bool
    var remark: string

    constructor (u: Link)
      ensures Val() == u
    {
      code, rawURL, createdAt, expireAt, maxVisits := u.code, u.rawURL, u.createdAt, u.expireAt, u.maxVisits;
      visits, custom, disabled, remark := u.visits, u.custom, u.disabled, u.remark;
    }

    // The record's fixed fields with the given changeable ones.
    function With(visits: int, disabled: bool, remark: string): Link {
      Link(code, rawURL, createdAt, expireAt, maxVisits, visits, custom, disabled, remark)
    }

    function Val(): Link
      reads this
    {
      With(visits, disabled, remark)
    }
  }

  lemma UpdateTwice<K, V>(m: map<K, V>, k: K, v: V)
    ensures m[k := v][k := v] == m[k := v]
  {
  }

  class URLStore {
    var urls: map<string, ShortURL>
    var ready: bool
    var dirty: bool
    var disk: Option<Image>
    const flushOn: bool
    const syncInt: int
    var syncing: bool
    // The records as values.
    ghost var model: Image
    // Every record object the store ever owned.
    ghost var repr: set<ShortURL>

    ghost predicate Valid()
      reads this, repr
    {
      && model.Keys == urls.Keys
      && (forall k :: k in urls ==> urls[k] in repr)
      && Keyed(model) && Keyed(disk.GetOr(map[]))
      && (forall k :: k in urls ==> model[k] == urls[k].With(urls[k].visits, urls[k].disabled, urls[k].remark))
    }

    ghost function State(): Store
      reads this
    {
      Store(model, ready, dirty, disk, flushOn, syncInt, syncing)
    }

    constructor (disk: Option<Image>, flushOn: bool, syncInt: int)
      requires Keyed(disk.GetOr(map[]))
      ensures Valid() && State() == NewStore(disk, flushOn, syncInt) && repr == {}
    {
      this.disk, this.flushOn, this.syncInt := disk, flushOn, syncInt;
      urls, ready, dirty, syncing, repr := map[], false, false, false, {};
      model := map[];
    }

    method Sync(writeOk: bool) returns (r: Result<(), StoreError>)
      requires Valid()
      modifies this`disk, this`dirty
      ensures Valid()
      ensures (State(), r) == StoreModel.Sync(old(State()), writeOk)
    {
      if !writeOk {
        return Err(WriteFailed);
      }
      var image: Image := map k | k in urls :: urls[k].With(urls[k].visits, urls[k].disabled, urls[k].remark);
      assert image == model;
      disk := Some(image);
      dirty := false;
      return Ok(());
    }

    method Flush(writeOk: bool) returns (r: Result<(), StoreError>)
      requires Valid()
      modifies this
      ensures Valid() && urls == old(urls) && repr == old(repr)
      ensures (State(), r) == StoreModel.Flush(old(State()), writeOk)
    {
      if !ready {
        return Err(NotReady);
      }
      r := Sync(writeOk);
    }

    method Close(finalOk: bool, writeOk: bool) returns (r: Result<(), StoreError>)
      requires Valid()
      modifies this
      ensures Valid() && urls == old(urls) && repr == old(repr)
      ensures (State(), r) == StoreModel.Close(old(State()), finalOk, writeOk)
    {
      if syncing {
        var _ := Sync(finalOk);
        syncing := false;
      }
      r := Sync(writeOk);
    }

    // After a change: write at once when so configured.
    method FlushChange(writeOk: bool) returns (r: Result<(), StoreError>)
      requires Valid()
      modifies this`disk, this`dirty
      ensures Valid()
      ensures (State(), r) == if flushOn then StoreModel.Sync(old(State()), writeOk) else (old(State()), Ok(()))
    {
      if flushOn {
        r := Sync(writeOk);
        return;
      }
      return Ok(());
    }

    method Get(code: string) returns (r: Result<ShortURL, StoreError>)
      requires Valid()
      ensures r.Ok? <==> StoreModel.Get(State(), code).Ok?
      ensures r.Ok? ==> code in urls && r.value == urls[code] && r.value.Val() == StoreModel.Get(State(), code).value
      ensures r.Err? ==> r.error == StoreModel.Get(State(), code).error
    {
      if !ready {
        return Err(NotReady);
      }
      if code !in urls {
        return Err(CodeNotFound);
      }
      return Ok(urls[code]);
    }

    method Exists(code: string) returns (r: Result<bool, StoreError>)
      requires Valid()
      ensures r == if !State().ready then Err(NotReady) else Ok(code in State().urls)
    {
      if !ready {
        return Err(NotReady);
      }
      return Ok(code in urls);
    }

    // Copies of the records, in the map's iteration order.
    method Copies(order: seq<string>) returns (out: seq<ShortURL>)
      requires Valid() && forall i :: 0 <= i < |order| ==> order[i] in urls
      ensures |out| == |order|
      ensures forall i :: 0 <= i < |out| ==>
                fresh(out[i]) && out[i].code == order[i] && out[i].Val() == urls[order[i]].Val()
    {
      out := [];
      for i := 0 to |order|
        invariant |out| == i
        invariant forall j :: 0 <= j < i ==>
                    fresh(out[j]) && out[j].code == order[j] && out[j].Val() == urls[order[j]].Val()
      {
        assert model[order[i]].code == order[i];
        var clone := new ShortURL(urls[order[i]].Val());
        out := out + [clone];
      }
    }

    method AllByCreated(order: seq<string>) returns (out: seq<ShortURL>)
      requires Valid() && Covers(order, urls)
      ensures |out| == |order| && NewestFirst(out)
      ensures forall i :: 0 <= i < |out| ==>
                fresh(out[i]) && out[i].code in urls && out[i].Val() == urls[out[i].code].Val()
      ensures forall k :: k in urls ==> exists i :: 0 <= i < |out| && out[i].code == k
    {
      var copies := Copies(order);
      SortedFacts(copies);
      out := SortedByCreated(copies);
      forall i | 0 <= i < |out|
        ensures fresh(out[i]) && out[i].code in urls && out[i].Val() == urls[out[i].code].Val()
      {
        assert out[i] in multiset(out) && out[i] in multiset(copies);
        var j :| 0 <= j < |copies| && copies[j] == out[i];
      }
      forall k | k in urls ensures exists i :: 0 <= i < |out| && out[i].code == k {
        var j :| 0 <= j < |order| && order[j] == k;
        assert copies[j] in multiset(copies) && copies[j] in multiset(out);
      }
    }

    // Copies of the newest `limit` records, or of all for a limit that is not positive, newest first.
    method ListCodes(limit: int, order: seq<string>) returns (r: Result<seq<ShortURL>, StoreError>)
      requires Valid() && Covers(order, urls)
      ensures !ready ==> r == Err(NotReady)
      ensures ready ==> r.Ok? && |r.value| == if 0 < limit < |order| then limit else |order|
      ensures r.Ok? ==> NewestFirst(r.value)
      ensures r.Ok? ==> forall i :: 0 <= i < |r.value| ==>
                fresh(r.value[i]) && r.value[i].code in urls && r.value[i].Val() == urls[r.value[i].code].Val()
      ensures r.Ok? && limit <= 0 ==> forall k :: k in urls ==> exists i :: 0 <= i < |r.value| && r.value[i].code == k
    {
      if !ready {
        return Err(NotReady);
      }
      var out := AllByCreated(order);
      if 0 < limit < |out| { out := out[..limit]; }
      return Ok(out);
    }

    // File a copy of the record under its code.
    method Put(u: ShortURL)
      requires Valid()
      modifies this`urls, this`dirty, this`model, this`repr
      ensures Valid() && fresh(repr - old(repr)) && model == old(model)[u.code := u.Val()] && dirty
      ensures u.code in urls && urls == old(urls)[u.code := urls[u.code]]
    {
      var clone := new ShortURL(u.Val());
      urls, repr, model := urls[u.code := clone], repr + {clone}, model[u.code := u.Val()];
      dirty := true;
    }

    method PutAndFlush(u: ShortURL, writeOk: bool) returns (r: Result<(), StoreError>)
      requires Valid()
      modifies this`urls, this`dirty, this`model, this`repr, this`disk
      ensures Valid() && fresh(repr - old(repr)) && model == old(model)[u.code := u.Val()]
      ensures (State(), r) == Changed(old(State()), model, writeOk)
      ensures u.code in urls && urls == old(urls)[u.code := urls[u.code]]
    {
      Put(u);
      r := FlushChange(writeOk);
    }

    method Save(u: ShortURL, overwrite: bool, writeOk: bool) returns (r: Result<(), StoreError>)
      requires Valid()
      modifies this`urls, this`dirty, this`model, this`repr, this`disk
      ensures Valid() && fresh(repr - old(repr))
      ensures (State(), r) == StoreModel.Save(old(State()), u.Val(), overwrite, writeOk)
      ensures ready && overwrite ==>
                && model == old(model)[u.code := u.Val()]
                && u.code in urls && urls == old(urls)[u.code := urls[u.code]]
    {
      if !ready {
        return Err(NotReady);
      }
      if u.code in urls && !overwrite {
        return Err(CodeConflict);
      }
      r := PutAndFlush(u, writeOk);
    }

    method Delete(code: string, writeOk: bool) returns (r: Result<(), StoreError>)
      requires Valid()
      modifies this
      ensures Valid() && repr == old(repr)
      ensures (State(), r) == StoreModel.Delete(old(State()), code, writeOk)
    {
      if !ready {
        return Err(NotReady);
      }
      if code !in urls {
        return Err(CodeNotFound);
      }
      Drop(code);
      r := FlushChange(writeOk);
    }

    method Drop(code: string)
      requires Valid()
      modifies this`urls, this`dirty, this`model
      ensures Valid() && model == old(model) - {code} && dirty
    {
      urls, model := urls - {code}, model - {code};
      dirty := true;
    }

    // Updates the stored record in place and returns a copy of it. (The second unlock the source
    // makes on every hundredth visit is left out here; Lifecycle.SurvivesExactly says when it
    // strikes.)
    method IncrementVisits(code: string) returns (r: Result<Link, StoreError>)
      requires Valid()
      modifies this`model, this`dirty, repr`visits, repr`disabled, repr`remark
      ensures Valid() && repr == old(repr)
      ensures (State(), r) == StoreModel.IncrementVisits(old(State()), code)
    {
      if !ready {
        return Err(NotReady);
      }
      if code !in urls {
        return Err(CodeNotFound);
      }
      assert model[code].code == code;
      var copy := CountLocked(urls[code]);
      return Ok(copy);
    }

    method CountLocked(u: ShortURL) returns (copy: Link)
      requires Valid() && u.code in urls && urls[u.code] == u
      modifies this`model, this`dirty, repr`visits, repr`disabled, repr`remark
      ensures Valid() && repr == old(repr)
      ensures copy == old(model[u.code]).(visits := old(model[u.code]).visits + 1)
      ensures State() == old(State()).(urls := old(model)[u.code := copy], dirty := true)
    {
      assert model[u.code].code == u.code;
      copy := u.With(u.visits + 1, u.disabled, u.remark);
      dirty := true;
      Edit(u, u.visits + 1, u.disabled, u.remark);
    }

    // A holder of the stored record writes its changeable fields: IncrementVisits under the lock,
    // the services through the pointer that Get handed out.
    method Edit(u: ShortURL, visits: int, disabled: bool, remark: string)
      requires Valid() && u.code in urls && urls[u.code] == u
      modifies this`model, repr`visits, repr`disabled, repr`remark
      ensures Valid() && u.Val() == u.With(visits, disabled, remark) && urls == old(urls) && repr == old(repr)
      ensures State() == old(State()).(urls := old(model)[u.code := u.With(visits, disabled, remark)])
    {
      model := model[u.code := u.With(visits, disabled, remark)];
      forall k | k in urls && k != u.code ensures urls[k] != u {
        assert model[k].code == k;
      }
      u.visits, u.disabled, u.remark := visits, disabled, remark;
      forall k | k in urls ensures model[k] == urls[k].With(urls[k].visits, urls[k].disabled, urls[k].remark) {
        if k != u.code { assert urls[k] != u; }
      }
    }

    // What Disable, UpdateRemark and the janitor do with a record they got: write its fields
    // through the pointer, then save the record over itself.
    method Rewrite(u: ShortURL, disabled: bool, remark: string, writeOk: bool) returns (r: Result<(), StoreError>)
      requires Valid() && ready && u.code in urls && urls[u.code] == u
      modifies this`urls, this`dirty, this`model, this`repr, this`disk, repr`visits, repr`disabled, repr`remark
      ensures Valid() && ready && fresh(repr - old(repr))
      ensures model == old(model)[u.code := old(model[u.code]).(disabled := disabled, remark := remark)]
      ensures u.code in urls && urls == old(urls)[u.code := urls[u.code]]
      ensures r == if flushOn && !writeOk then Err(WriteFailed) else Ok(())
    {
      ghost var v := model[u.code].(disabled := disabled, remark := remark);
      assert v == u.With(u.visits, disabled, remark);
      Edit(u, u.visits, disabled, remark);
      UpdateTwice(old(model), u.code, v);
      r := Save(u, true, writeOk);
    }

    method Load(fault: LoadFault) returns (r: Result<(), StoreError>)
      requires Valid()
      modifies this
      ensures Valid() && fresh(repr - old(repr))
      ensures (State(), r) == StoreModel.Load(old(State()), fault)
    {
      if fault == EmptyPath || fault == BadDir {
        return Err(LoadFailed);
      }
      if fault == ContextDone {
        return Err(Canceled);
      }
      if disk == None {
        ready := true;
        syncing := syncing || syncInt > 0;
        return Ok(());
      }
      if fault != NoFault {
        return Err(LoadFailed);
      }
      TakeOver(disk.value);
      ready := true;
      syncing := syncing || syncInt > 0;
      return Ok(());
    }

    method TakeOver(image: Image)
      requires Valid() && Keyed(image)
      modifies this`urls, this`model, this`repr
      ensures Valid() && fresh(repr - old(repr)) && model == image
    {
      urls := Unmarshal(image);
      repr := repr + set k | k in urls :: urls[k];
      model := image;
    }
  }

  // A listing of the keys of a map.
  ghost predicate Covers<V>(order: seq<string>, m: map<string, V>) {
    && (forall i :: 0 <= i < |order| ==> order[i] in m)
    && (forall k :: k in m ==> exists i :: 0 <= i < |order| && order[i] == k)
  }

  // ----- Sorting by time of creation -----

  ghost predicate NewestFirst(list: seq<ShortURL>) {
    forall i, j :: 0 <= i < j < |list| ==> list[i].createdAt >= list[j].createdAt
  }

  function InsertByCreated(list: seq<ShortURL>, u: ShortURL): seq<ShortURL> {
    if list == [] || u.createdAt >= list[0].createdAt then [u] + list
    else [list[0]] + InsertByCreated(list[1..], u)
  }

  function SortedByCreated(list: seq<ShortURL>): seq<ShortURL> {
    if list == [] then [] else InsertByCreated(SortedByCreated(list[1..]), list[0])
  }

  lemma {:induction false} InsertMembers(list: seq<ShortURL>, u: ShortURL)
    ensures multiset(InsertByCreated(list, u)) == multiset(list) + multiset{u}
  {
    if list != [] && u.createdAt < list[0].createdAt {
      InsertMembers(list[1..], u);
      assert list == [list[0]] + list[1..];
    }
  }

  lemma {:induction false} InsertSorts(list: seq<ShortURL>, u: ShortURL)
    requires NewestFirst(list)
    ensures NewestFirst(InsertByCreated(list, u))
  {
    if list != [] && u.createdAt < list[0].createdAt {
      var rest := InsertByCreated(list[1..], u);
      InsertSorts(list[1..], u);
      InsertMembers(list[1..], u);
      forall i | 0 <= i < |rest| ensures list[0].createdAt >= rest[i].createdAt {
        assert rest[i] in multiset(rest);
        assert rest[i] in multiset(list[1..]) || rest[i] == u;
      }
    }
  }

  lemma {:induction false} SortedFacts(list: seq<ShortURL>)
    ensures NewestFirst(SortedByCreated(list)) && |SortedByCreated(list)| == |list|
    ensures multiset(SortedByCreated(list)) == multiset(list)
  {
    if list != [] {
      SortedFacts(list[1..]);
      InsertMembers(SortedByCreated(list[1..]), list[0]);
      InsertSorts(SortedByCreated(list[1..]), list[0]);
      assert list == [list[0]] + list[1..];
    }
    assert |multiset(SortedByCreated(list))| == |multiset(list)|;
  }

  // One new record object per entry of the image.
  method Unmarshal(image: Image) returns (m: map<string, ShortURL>)
    ensures m.Keys == image.Keys
    ensures forall k :: k in m ==> fresh(m[k]) && image[k] == m[k].With(m[k].visits, m[k].disabled, m[k].remark)
  {
    m := map[];
    var todo := image.Keys;
    while todo != {}
      invariant todo <= image.Keys && m.Keys == image.Keys - todo
      invariant forall k :: k in m ==> fresh(m[k]) && image[k] == m[k].With(m[k].visits, m[k].disabled, m[k].remark)
      decreases todo
    {
      var k :| k in todo;
      var u := new ShortURL(image[k]);
      m := m[k := u];
      todo := todo - {k};
    }
  }
}
