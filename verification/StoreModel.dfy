/**
 The value-level meaning of internal/store/url_store.go: the record map, the ready and dirty
 flags and the disk image. Every call that may write the file takes the outcome of that write;
 a failed write leaves the old file, as WriteAtomic renames a complete temporary file.
 */
module StoreModel {
  import opened Wrappers
  import opened Link

  type Image = map<string, Link>

  // Records are filed under their own code.
  ghost predicate Keyed(m: Image) {
    forall k :: k in m ==> m[k].code == k
  }

  datatype StoreError =
    | NotReady
    | CodeNotFound
    | CodeConflict
    | WriteFailed
    | LoadFailed
    | Canceled

  // What may go wrong while loading, before the image is taken over.
  datatype LoadFault = NoFault | EmptyPath | BadDir | ContextDone | Unreadable | Unparsable

  datatype Store = Store(
    urls: Image,
    ready: bool,
    dirty: bool,
    disk: Option<Image>, // None: no file
    flushOn: bool,
    syncInt: int,
    syncing: bool)       // the periodic writer has been started

  function NewStore(disk: Option<Image>, flushOn: bool, syncInt: int): Store {
    Store(map[], false, false, disk, flushOn, syncInt, false)
  }

  function Load(s: Store, fault: LoadFault): (Store, Result<(), StoreError>) {
    var loaded := s.(ready := true, syncing := s.syncing || s.syncInt > 0);
    if fault == EmptyPath || fault == BadDir then (s, Err(LoadFailed))
    else if fault == ContextDone then (s, Err(Canceled))
    else if s.disk == None then (loaded, Ok(()))
    else if fault != NoFault then (s, Err(LoadFailed))
    else (loaded.(urls := s.disk.value), Ok(()))
  }

  // One write of the whole map, taken as a single step.
  function Sync(s: Store, writeOk: bool): (Store, Result<(), StoreError>) {
    if writeOk then (s.(disk := Some(s.urls), dirty := false), Ok(())) else (s, Err(WriteFailed))
  }

  function Flush(s: Store, writeOk: bool): (Store, Result<(), StoreError>) {
    if !s.ready then (s, Err(NotReady)) else Sync(s, writeOk)
  }

  // The periodic writer skips a clean store.
  function Tick(s: Store, writeOk: bool): Store {
    if s.syncing && s.dirty then Sync(s, writeOk).0 else s
  }

  // Close first lets the periodic writer make its final write, then writes once more itself.
  function Close(s: Store, finalOk: bool, writeOk: bool): (Store, Result<(), StoreError>) {
    Sync(if s.syncing then Sync(s, finalOk).0.(syncing := false) else s, writeOk)
  }

  // Common tail of Save and Delete: mark dirty and, when configured, write at once.
  function Changed(s: Store, urls: Image, writeOk: bool): (Store, Result<(), StoreError>) {
    var s' := s.(urls := urls, dirty := true);
    if s.flushOn then Sync(s', writeOk) else (s', Ok(()))
  }

  function Save(s: Store, u: Link, overwrite: bool, writeOk: bool): (Store, Result<(), StoreError>) {
    if !s.ready then (s, Err(NotReady))
    else if u.code in s.urls && !overwrite then (s, Err(CodeConflict))
    else Changed(s, s.urls[u.code := u], writeOk)
  }

  function Delete(s: Store, code: string, writeOk: bool): (Store, Result<(), StoreError>) {
    if !s.ready then (s, Err(NotReady))
    else if code !in s.urls then (s, Err(CodeNotFound))
    else Changed(s, s.urls - {code}, writeOk)
  }

  function Get(s: Store, code: string): Result<Link, StoreError> {
    if !s.ready then Err(NotReady)
    else if code !in s.urls then Err(CodeNotFound)
    else Ok(s.urls[code])
  }

  // Marks dirty but, unlike Save and Delete, never writes at once.
  function IncrementVisits(s: Store, code: string): (Store, Result<Link, StoreError>) {
    match Get(s, code)
    case Err(e) => (s, Err(e))
    case Ok(u) =>
      var u' := u.(visits := u.visits + 1);
      (s.(urls := s.urls[code := u'], dirty := true), Ok(u'))
  }

  // ----- What a call leaves for the next -----

  // A record saved is the one found, and on disk at once if so configured; a code that is taken keeps
  // its record unless it may be overwritten.
  lemma SavedIsFound(s: Store, u: Link, overwrite: bool, writeOk: bool)
    requires s.ready
    ensures var (s', r) := Save(s, u, overwrite, writeOk);
            && (r == Err(CodeConflict) <==> u.code in s.urls && !overwrite)
            && (r == Err(CodeConflict) ==> s' == s)
            && (r != Err(CodeConflict) ==>
                  && Get(s', u.code) == Ok(u)
                  && (forall k :: k != u.code ==> Get(s', k) == Get(s, k))
                  && (r.Ok? <==> !s.flushOn || writeOk)
                  && (s.flushOn && writeOk ==> s'.disk == Some(s'.urls) && !s'.dirty)
                  && (!(s.flushOn && writeOk) ==> s'.disk == s.disk && s'.dirty))
  {
  }

  lemma DeletedIsNotFound(s: Store, code: string, writeOk: bool)
    requires s.ready
    ensures var (s', r) := Delete(s, code, writeOk);
            && Get(s', code) == Err(CodeNotFound)
            && (forall k :: k != code ==> Get(s', k) == Get(s, k))
            && (r == Err(CodeNotFound) <==> code !in s.urls)
            && (code in s.urls ==> (r.Ok? <==> !s.flushOn || writeOk))
            && (code in s.urls && s.flushOn && writeOk ==> s'.disk == Some(s'.urls) && !s'.dirty)
            && (code in s.urls && !(s.flushOn && writeOk) ==> s'.disk == s.disk && s'.dirty)
  {
  }

  // A visit adds one to the counter of that record, and to nothing else.
  lemma VisitIsCounted(s: Store, code: string)
    requires s.ready
    ensures var (s', r) := IncrementVisits(s, code);
            && (r == Err(CodeNotFound) <==> code !in s.urls)
            && (r.Ok? ==>
                  && r.value.visits == s.urls[code].visits + 1 && r.value == s.urls[code].(visits := r.value.visits)
                  && Get(s', code) == Ok(r.value) && s'.dirty && s'.disk == s.disk)
            && (forall k :: k != code ==> Get(s', k) == Get(s, k))
  {
  }

  // What was loaded is the file; a store closed without an error and loaded again is the same.
  lemma ReloadedIsSame(s: Store, finalOk: bool, writeOk: bool, flushOn: bool, syncInt: int, code: string)
    requires s.ready
    ensures var (s', r) := Close(s, finalOk, writeOk);
            var again := Load(NewStore(s'.disk, flushOn, syncInt), NoFault);
            r.Ok? ==> again.1.Ok? && Get(again.0, code) == Get(s, code)
  {
  }
}
