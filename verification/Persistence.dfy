/**
 What the dirty flag and the disk image guarantee over whole runs of store calls, the periodic
 writer and failing writes, with every service call taken as one step.
 */
module Persistence {
  import opened Wrappers
  import opened Link
  import opened StoreModel

  datatype Event =
    | LoadEv(fault: LoadFault)
    | SaveEv(u: Link, overwrite: bool, writeOk: bool)
    | DeleteEv(code: string, writeOk: bool)
    | IncrementEv(code: string)
    // Disable and UpdateRemark set the field on the stored record, then save it over itself.
    | RewriteEv(code: string, disabled: bool, remark: string, writeOk: bool)
    | FlushEv(writeOk: bool)
    | TickEv(writeOk: bool)
    | CloseEv(finalOk: bool, writeOk: bool)

  function Step(s: Store, ev: Event): Store {
    match ev
    case LoadEv(fault) => Load(s, fault).0
    case SaveEv(u, overwrite, ok) => Save(s, u, overwrite, ok).0
    case DeleteEv(code, ok) => Delete(s, code, ok).0
    case IncrementEv(code) => IncrementVisits(s, code).0
    case RewriteEv(code, disabled, remark, ok) =>
      (match Get(s, code)
       case Err(_) => s
       case Ok(u) =>
         var u' := u.(disabled := u.disabled || disabled, remark := remark);
         Save(s.(urls := s.urls[code := u']), u', true, ok).0)
    case FlushEv(ok) => Flush(s, ok).0
    case TickEv(ok) => Tick(s, ok)
    case CloseEv(finalOk, ok) => Close(s, finalOk, ok).0
  }

  function Run(s: Store, evs: seq<Event>): Store {
    if evs == [] then s else Step(Run(s, evs[..|evs| - 1]), evs[|evs| - 1])
  }

  function OnDisk(s: Store): Image {
    s.disk.GetOr(map[])
  }

  // A loaded, clean store has its whole content on disk.
  ghost predicate Clean(s: Store) {
    && (s.ready && !s.dirty ==> OnDisk(s) == s.urls)
    && (!s.ready ==> s.urls == map[] && !s.dirty)
  }

  lemma StepClean(s: Store, ev: Event)
    requires Clean(s)
    ensures Clean(Step(s, ev))
  {
  }

  // Main theorem: whatever file the process started from, at every call boundary of every run
  // `dirty == false` on a loaded store means that the file equals memory.
  lemma {:induction false} CleanMeansSaved(disk: Option<Image>, flushOn: bool, syncInt: int, evs: seq<Event>)
    ensures Clean(Run(NewStore(disk, flushOn, syncInt), evs))
  {
    if evs != [] {
      CleanMeansSaved(disk, flushOn, syncInt, evs[..|evs| - 1]);
      StepClean(Run(NewStore(disk, flushOn, syncInt), evs[..|evs| - 1]), evs[|evs| - 1]);
    }
  }

  lemma StepWritesSnapshot(s: Store, ev: Event)
    ensures Step(s, ev).disk == s.disk || Step(s, ev).disk == Some(Step(s, ev).urls)
  {
  }

  // The file is always the one the run started with or some memory content the run went through
  // (never a mixture).
  lemma {:induction false} DiskIsSnapshot(s: Store, evs: seq<Event>)
    ensures var disk := Run(s, evs).disk;
            disk == s.disk || exists i :: 0 <= i <= |evs| && disk == Some(Run(s, evs[..i]).urls)
  {
    if evs != [] {
      var before := evs[..|evs| - 1];
      DiskIsSnapshot(s, before);
      StepWritesSnapshot(Run(s, before), evs[|evs| - 1]);
      var a, b := Run(s, before), Run(s, evs);
      assert evs[..|evs|] == evs;
      if a.disk == b.disk {
        if a.disk != s.disk {
          var i :| 0 <= i <= |before| && a.disk == Some(Run(s, before[..i]).urls);
          assert evs[..i] == before[..i];
        }
      } else {
        assert b.disk == Some(Run(s, evs[..|evs|]).urls);
      }
    }
  }

  // A Close that reports success ends with file and memory equal.
  lemma ClosedIsSaved(s: Store, finalOk: bool, writeOk: bool)
    ensures var (s', r) := Close(s, finalOk, writeOk);
            r.Ok? ==> s'.disk == Some(s.urls) && s'.urls == s.urls && !s'.dirty
  {
  }

  // But Close does not ask whether the store was ever loaded: on a store whose Load failed it
  // overwrites the file with the empty map. It leaves the file's content alone exactly when the
  // store is loaded and clean, or no write succeeds, or there was nothing in the file.
  lemma CloseKeepsFile(s: Store, finalOk: bool, writeOk: bool)
    requires Clean(s)
    ensures !s.dirty ==>
              (OnDisk(Close(s, finalOk, writeOk).0) == OnDisk(s) <==>
                 s.ready || !(writeOk || (s.syncing && finalOk)) || OnDisk(s) == map[])
  {
  }

  lemma UnloadedCloseErases(image: Image, u: Link)
    requires image == map[u.code := u]
    ensures var s := Run(NewStore(Some(image), true, 0), [LoadEv(Unparsable), CloseEv(true, true)]);
            s.disk == Some(map[]) && s.disk != Some(image)
  {
    var s0 := NewStore(Some(image), true, 0);
    var evs := [LoadEv(Unparsable), CloseEv(true, true)];
    assert evs[..1] == [LoadEv(Unparsable)];
    assert Run(s0, evs[..1]) == Step(Run(s0, []), LoadEv(Unparsable)) by {
      assert evs[..1][..0] == [];
    }
    assert u.code in image;
  }

  // ----- Flush-on-write durability -----

  // All writes of the event succeed.
  predicate WritesOk(ev: Event) {
    match ev
    case SaveEv(_, _, ok) => ok
    case DeleteEv(_, ok) => ok
    case RewriteEv(_, _, _, ok) => ok
    case FlushEv(ok) => ok
    case TickEv(ok) => ok
    case CloseEv(finalOk, ok) => finalOk && ok
    case _ => true
  }

  // Everything about the records except how often they were visited.
  function SansVisits(m: Image): Image {
    map k | k in m :: m[k].(visits := 0)
  }

  lemma StepDurable(s: Store, ev: Event)
    requires s.flushOn && WritesOk(ev)
    requires s.ready ==> SansVisits(OnDisk(s)) == SansVisits(s.urls)
    requires !s.ready ==> s.urls == map[]
    ensures var s' := Step(s, ev);
            && s'.flushOn && (s'.ready ==> SansVisits(OnDisk(s')) == SansVisits(s'.urls))
            && (!s'.ready ==> s'.urls == map[])
  {
    match ev
    case IncrementEv(code) =>
      if s.ready && code in s.urls {
        assert SansVisits(Step(s, ev).urls) == SansVisits(s.urls);
      }
    case _ =>
  }

  // Main theorem: with flush-on-write and no failing write, a crash at any call boundary loses
  // visit counts only: every record created, changed or deleted so far is so on disk.
  lemma {:induction false} FlushOnWriteDurable(disk: Option<Image>, syncInt: int, evs: seq<Event>)
    requires forall i :: 0 <= i < |evs| ==> WritesOk(evs[i])
    ensures var s := Run(NewStore(disk, true, syncInt), evs);
            && s.flushOn
            && (s.ready ==> SansVisits(OnDisk(s)) == SansVisits(s.urls))
            && (!s.ready ==> s.urls == map[])
  {
    if evs != [] {
      FlushOnWriteDurable(disk, syncInt, evs[..|evs| - 1]);
      StepDurable(Run(NewStore(disk, true, syncInt), evs[..|evs| - 1]), evs[|evs| - 1]);
    }
  }

  // ----- sync as the two steps it really is -----

  // `sync` marshals a snapshot under the read lock, writes it without the lock and then clears
  // dirty. With `between` happening meanwhile, its two halves are these.
  function SplitSync(s: Store, between: seq<Event>): Store {
    Run(s, between).(disk := Some(s.urls), dirty := false)
  }

  // A field of the record under code gets another value, or the record it is saved over, the one
  // under its own code, is a different one. (A file may hold a record under a foreign code.)
  predicate Rewrites(m: Image, code: string, disabled: bool, remark: string)
    requires code in m
  {
    var u := m[code];
    || (disabled && !u.disabled) || u.remark != remark
    || (u.code != code && (u.code !in m || m[u.code] != u))
  }

  // Whether an event changes a record of the store in memory: each guard is that of the branch
  // which does.
  predicate Changes(s: Store, ev: Event) {
    match ev
    case SaveEv(u, overwrite, _) => s.ready && if u.code in s.urls then overwrite && s.urls[u.code] != u else true
    case DeleteEv(code, _) => s.ready && code in s.urls
    case IncrementEv(code) => s.ready && code in s.urls
    case RewriteEv(code, disabled, remark, _) =>
      s.ready && code in s.urls && Rewrites(s.urls, code, disabled, remark)
    case LoadEv(fault) => Load(s, fault).1.Ok? && s.disk.Some? && s.disk.value != s.urls
    case _ => false
  }

  lemma ChangesExactly(s: Store, ev: Event)
    ensures Step(s, ev).urls != s.urls <==> Changes(s, ev)
  {
    var m := Step(s, ev).urls;
    match ev
    case SaveEv(u, _, _) => if s.ready { Rebinds(s.urls, u.code, u); }
    case DeleteEv(code, _) => if s.ready && code in s.urls { assert code !in m; }
    case IncrementEv(code) =>
      if s.ready && code in s.urls { Rebinds(s.urls, code, s.urls[code].(visits := s.urls[code].visits + 1)); }
    case RewriteEv(code, disabled, remark, _) =>
      if s.ready && code in s.urls {
        var u := s.urls[code].(disabled := s.urls[code].disabled || disabled, remark := remark);
        assert m == s.urls[code := u][u.code := u];
        RebindsBoth(s.urls, code, u.code, u);
      }
    case _ =>
  }

  lemma Rebinds(m: Image, code: string, u: Link)
    ensures m[code := u] == m <==> code in m && m[code] == u
    ensures m[code := u][code := u] == m[code := u]
  {
    assert m[code := u][code] == u;
  }

  lemma RebindsBoth(m: Image, code: string, own: string, u: Link)
    ensures m[code := u][own := u] == m <==> code in m && m[code] == u && own in m && m[own] == u
  {
    assert m[code := u][own := u][code] == u && m[code := u][own := u][own] == u;
  }

  // One event between the halves of a sync leaves the store clean exactly if it changes no record.
  lemma SplitSyncExactly(s: Store, ev: Event)
    requires Clean(s) && s.ready
    ensures Clean(SplitSync(s, [ev])) <==> !Changes(s, ev)
  {
    assert [ev][..0] == [];
    RunKeeps(s, [ev]);
    ChangesExactly(s, ev);
  }

  // Some event of the run changes a record when its turn comes.
  predicate SomeChange(s: Store, evs: seq<Event>) {
    evs != [] && (SomeChange(s, evs[..|evs| - 1]) || Changes(Run(s, evs[..|evs| - 1]), evs[|evs| - 1]))
  }

  lemma {:induction false} NoChange(s: Store, evs: seq<Event>)
    requires Clean(s) && !SomeChange(s, evs)
    ensures Run(s, evs).urls == s.urls
  {
    if evs != [] {
      NoChange(s, evs[..|evs| - 1]);
      RunKeeps(s, evs[..|evs| - 1]);
      ChangesExactly(Run(s, evs[..|evs| - 1]), evs[|evs| - 1]);
    }
  }

  // Events that only create links and count visits, or write: what they do to the records is
  // never undone by another of them.
  predicate Additive(ev: Event) {
    ev.IncrementEv? || (ev.SaveEv? && !ev.overwrite) || ev.FlushEv? || ev.TickEv? || ev.CloseEv?
  }

  ghost predicate Grows(a: Image, b: Image) {
    a.Keys <= b.Keys && forall k :: k in a ==> a[k].visits <= b[k].visits
  }

  lemma StepGrows(s: Store, ev: Event)
    requires Additive(ev)
    ensures Grows(s.urls, Step(s, ev).urls)
    ensures Changes(s, ev) ==> !Grows(Step(s, ev).urls, s.urls)
  {
    if ev.SaveEv? && Changes(s, ev) {
      assert ev.u.code in Step(s, ev).urls && ev.u.code !in s.urls;
    }
    if ev.IncrementEv? && Changes(s, ev) {
      assert Step(s, ev).urls[ev.code].visits == s.urls[ev.code].visits + 1;
    }
  }

  lemma {:induction false} RunGrows(s: Store, evs: seq<Event>)
    requires Clean(s) && forall i :: 0 <= i < |evs| ==> Additive(evs[i])
    ensures Grows(s.urls, Run(s, evs).urls)
    ensures SomeChange(s, evs) ==> !Grows(Run(s, evs).urls, s.urls)
  {
    if evs != [] {
      var before, last := evs[..|evs| - 1], evs[|evs| - 1];
      RunGrows(s, before);
      RunKeeps(s, before);
      StepGrows(Run(s, before), last);
      GrowsTransitive(s.urls, Run(s, before).urls, Run(s, evs).urls);
    }
  }

  lemma GrowsTransitive(a: Image, b: Image, c: Image)
    requires Grows(a, b) && Grows(b, c)
    ensures Grows(a, c)
    ensures Grows(c, a) ==> Grows(b, a) && Grows(c, b)
  {
  }

  // Any run between the halves leaves the store clean if none of its events changes a record; and
  // only then, if they are of a kind that cannot undo each other's changes, as visits are.
  lemma SplitSyncRun(s: Store, between: seq<Event>)
    requires Clean(s) && s.ready
    ensures !SomeChange(s, between) ==> Clean(SplitSync(s, between))
    ensures (forall i :: 0 <= i < |between| ==> Additive(between[i])) && SomeChange(s, between) ==>
              !Clean(SplitSync(s, between))
  {
    RunKeeps(s, between);
    if !SomeChange(s, between) {
      NoChange(s, between);
    } else if forall i :: 0 <= i < |between| ==> Additive(between[i]) {
      RunGrows(s, between);
    }
  }

  lemma {:induction false} RunKeeps(s: Store, evs: seq<Event>)
    requires Clean(s)
    ensures Clean(Run(s, evs)) && (s.ready ==> Run(s, evs).ready)
  {
    if evs != [] {
      RunKeeps(s, evs[..|evs| - 1]);
      StepClean(Run(s, evs[..|evs| - 1]), evs[|evs| - 1]);
    }
  }

  // A single visit in between is enough to lose the dirty mark.
  lemma SplitSyncLosesVisit(u: Link)
    ensures var s := Store(map[u.code := u], true, true, None, false, 1, true);
            var s' := SplitSync(s, [IncrementEv(u.code)]);
            && !s'.dirty && Tick(s', true) == s'
            && s'.urls == map[u.code := u.(visits := u.visits + 1)] && OnDisk(s') == map[u.code := u]
  {
    var s := Store(map[u.code := u], true, true, None, false, 1, true);
    var evs := [IncrementEv(u.code)];
    assert evs[..0] == [];
    assert Run(s, evs) == Step(s, evs[0]);
  }
}
