/**
 The services of internal/service that act on the URL store: URLService (create, disable,
 remark, delete), RedirectService and the janitor's sweep. Each call is proved to be the
 `Lifecycle` step of its name. Access logging is left out; request time, generated codes, map
 iteration order and the outcome of each file write are parameters.
 */
module Service {
  import opened Wrappers
  import opened Link
  import opened StoreModel
  import opened UrlStore
  import opened Lifecycle

  datatype ServiceError =
    | BadRequest
    | Cancelled
    | GeneratorFailed
    | CodesExhausted
    | FromStore(e: StoreError)

  function AsService<T>(r: Result<T, StoreError>): Result<T, ServiceError> {
    match r
    case Ok(v) => Ok(v)
    case Err(e) => Err(FromStore(e))
  }

  datatype CreateReq = CreateReq(
    rawURL: string, customCode: string, ttl: int, expireAt: Option<int>, maxVisits: int, remark: string)

  predicate ValidReq(req: CreateReq, rawOk: string -> bool) {
    rawOk(req.rawURL) && (req.customCode != "" ==> ValidCode(req.customCode)) && req.ttl >= 0 && req.maxVisits >= 0
  }

  // An absolute deadline wins over a relative one.
  function NewLink(req: CreateReq, code: string, now: int): Link {
    var expireAt := if req.expireAt.Some? then req.expireAt else if req.ttl > 0 then Some(now + req.ttl) else None;
    Link(code, req.rawURL, now, expireAt, req.maxVisits, 0, req.customCode != "", false, req.remark)
  }

  // The link is the one asked for: an absolute deadline, or one ttl after now, or none.
  ghost predicate AsRequested(u: Link, req: CreateReq, now: int) {
    && u.rawURL == req.rawURL && u.maxVisits == req.maxVisits && u.remark == req.remark
    && u.createdAt == now && u.visits == 0 && !u.disabled
    && (req.customCode != "" ==> u.code == req.customCode) && (u.custom <==> req.customCode != "")
    && match req.expireAt
       case Some(end) => u.expireAt == Some(end)
       case None => if req.ttl <= 0 then u.expireAt == None else u.expireAt == Some(now + req.ttl)
  }

  // The first of at most n generated codes that is not taken.
  function PickCode(urls: Image, codes: seq<Option<string>>, n: nat): Result<string, ServiceError>
    requires n <= |codes|
  {
    if n == 0 then Err(CodesExhausted)
    else if codes[0] == None then Err(GeneratorFailed)
    else if codes[0].value !in urls then Ok(codes[0].value)
    else PickCode(urls, codes[1..], n - 1)
  }

  // A picked code is free, and everything generated before it was taken; giving up means that
  // all n generated codes were taken.
  lemma {:induction false} PickCodeExactly(urls: Image, codes: seq<Option<string>>, n: nat)
    requires n <= |codes|
    ensures match PickCode(urls, codes, n)
            case Ok(c) => c !in urls && exists i :: 0 <= i < n && codes[i] == Some(c)
                                          && forall j :: 0 <= j < i ==> codes[j].Some? && codes[j].value in urls
            case Err(e) =>
              if e == CodesExhausted then forall j :: 0 <= j < n ==> codes[j].Some? && codes[j].value in urls
              else e == GeneratorFailed && exists i :: 0 <= i < n && codes[i] == None
                                             && forall j :: 0 <= j < i ==> codes[j].Some? && codes[j].value in urls
  {
    if n > 0 && codes[0].Some? && codes[0].value in urls {
      var rest := codes[1..];
      PickCodeExactly(urls, rest, n - 1);
      if !(PickCode(urls, codes, n).Err? && PickCode(urls, codes, n).error == CodesExhausted) {
        var last := if PickCode(urls, codes, n).Ok? then Some(PickCode(urls, codes, n).value) else None;
        var i :| 0 <= i < n - 1 && rest[i] == last
                 && forall j :: 0 <= j < i ==> rest[j].Some? && rest[j].value in urls;
        assert codes[i + 1] == rest[i];
        forall j | 0 <= j < i + 1 ensures codes[j].Some? && codes[j].value in urls {
          if j > 0 { assert codes[j] == rest[j - 1]; }
        }
      } else {
        forall j | 0 <= j < n ensures codes[j].Some? && codes[j].value in urls {
          if j > 0 { assert codes[j] == rest[j - 1]; }
        }
      }
    }
  }

  // The retry loop if it looked at the context before each attempt, as it should, and found it
  // cancelled before attempt `done`; with `done` not below n the context stays alive.
  function Generated(s: Store, codes: seq<Option<string>>, n: nat, done: nat): Result<string, ServiceError>
    requires n <= |codes|
  {
    if n == 0 then Err(CodesExhausted)
    else if done == 0 then Err(Cancelled)
    else if codes[0] == None then Err(GeneratorFailed)
    else if !s.ready then Err(FromStore(NotReady))
    else if codes[0].value !in s.urls then Ok(codes[0].value)
    else Generated(s, codes[1..], n - 1, done - 1)
  }

  // Attempt i is made: every earlier one generated a code that was taken.
  predicate Reached(s: Store, codes: seq<Option<string>>, n: nat, i: nat)
    requires n <= |codes|
  {
    i < n && (i == 0 || (codes[0].Some? && s.ready && codes[0].value in s.urls && Reached(s, codes[1..], n - 1, i - 1)))
  }

  // Ignoring the context makes a difference exactly when it is cancelled before an attempt that is
  // made; the call should then report the cancellation.
  lemma {:induction false} IgnoredExactly(s: Store, codes: seq<Option<string>>, n: nat, done: nat)
    requires n <= |codes|
    ensures Generated(s, codes, n, done) != Generated(s, codes, n, n) <==> Reached(s, codes, n, done)
    ensures Reached(s, codes, n, done) ==> Generated(s, codes, n, done) == Err(Cancelled)
  {
    if n > 0 {
      NeverCancelled(s, codes, n);
      if done > 0 && codes[0].Some? && s.ready && codes[0].value in s.urls {
        IgnoredExactly(s, codes[1..], n - 1, done - 1);
      }
    }
  }

  lemma {:induction false} NeverCancelled(s: Store, codes: seq<Option<string>>, n: nat)
    requires n <= |codes|
    ensures Generated(s, codes, n, n) != Err(Cancelled)
    ensures Generated(s, codes, n, n)
         == if n > 0 && codes[0].Some? && !s.ready then Err(FromStore(NotReady)) else PickCode(s.urls, codes, n)
  {
    if n > 0 { NeverCancelled(s, codes[1..], n - 1); }
  }

  // The code a link gets: the custom one if it is free, else a generated one.
  function ChosenCode(s: Store, custom: string, codes: seq<Option<string>>, retries: nat): Result<string, ServiceError>
    requires retries <= |codes|
  {
    if custom != "" then
      if !s.ready then Err(FromStore(NotReady))
      else if custom in s.urls then Err(FromStore(CodeConflict)) else Ok(custom)
    else if retries > 0 && codes[0].Some? && !s.ready then Err(FromStore(NotReady))
    else PickCode(s.urls, codes, retries)
  }

  // What Create decides before it touches the store.
  function Decide(s: Store, req: CreateReq, rawOk: string -> bool, canceled: bool, codes: seq<Option<string>>,
                  retries: nat, now: int): Result<Link, ServiceError>
    requires retries <= |codes|
  {
    if !ValidReq(req, rawOk) then Err(BadRequest)
    else if canceled then Err(Cancelled)
    else
      match ChosenCode(s, req.customCode, codes, retries)
      case Err(e) => Err(e)
      case Ok(code) =>
        var u := NewLink(req, code, now);
        if ValidLink(u, rawOk) then Ok(u) else Err(BadRequest)
  }

  lemma ChosenIsFree(s: Store, custom: string, codes: seq<Option<string>>, retries: nat)
    requires retries <= |codes| && ChosenCode(s, custom, codes, retries).Ok?
    ensures var code := ChosenCode(s, custom, codes, retries).value;
            && s.ready && code !in s.urls
            && if custom != "" then code == custom else Some(code) in codes[..retries]
  {
    if custom == "" {
      PickCodeExactly(s.urls, codes, retries);
      var c := PickCode(s.urls, codes, retries).value;
      var i :| 0 <= i < retries && codes[i] == Some(c);
      assert codes[..retries][i] == Some(c);
    }
  }

  // What Create decides on is a free code, the custom one or a generated one, and the link asked for.
  lemma DecidedAsRequested(s: Store, req: CreateReq, rawOk: string -> bool, canceled: bool,
                           codes: seq<Option<string>>, retries: nat, now: int)
    requires retries <= |codes| && Decide(s, req, rawOk, canceled, codes, retries, now).Ok?
    ensures var u := Decide(s, req, rawOk, canceled, codes, retries, now).value;
            && s.ready && u.code !in s.urls && AsRequested(u, req, now)
            && rawOk(u.rawURL) && ValidCode(u.code) && 0 <= u.maxVisits
            && (req.customCode == "" ==> Some(u.code) in codes[..retries])
  {
    var code := ChosenCode(s, req.customCode, codes, retries).value;
    ChosenIsFree(s, req.customCode, codes, retries);
    NewLinkAsRequested(req, code, now);
  }

  lemma NewLinkAsRequested(req: CreateReq, code: string, now: int)
    requires req.customCode != "" ==> code == req.customCode
    ensures AsRequested(NewLink(req, code, now), req, now)
  {
  }

  // With a custom code it is refused exactly if something about the request is wrong, the caller has
  // gone, the store is not loaded, the code is taken, or the deadline has passed already.
  lemma CustomExactly(s: Store, req: CreateReq, rawOk: string -> bool, canceled: bool,
                      codes: seq<Option<string>>, retries: nat, now: int)
    requires retries <= |codes| && req.customCode != ""
    ensures Decide(s, req, rawOk, canceled, codes, retries, now).Ok? <==>
              && rawOk(req.rawURL) && ValidCode(req.customCode) && 0 <= req.ttl && 0 <= req.maxVisits
              && !canceled && s.ready && req.customCode !in s.urls
              && !(exists end :: req.expireAt == Some(end) && end < now)
  {
  }

  class URLService {
    const store: URLStore
    const rawOk: string -> bool
    const retries: nat

    // A retry limit that is not positive is replaced by 5.
    constructor (store: URLStore, rawOk: string -> bool, maxRetries: int)
      ensures this.store == store && this.rawOk == rawOk
      ensures retries == if maxRetries <= 0 then 5 else maxRetries
    {
      this.store, this.rawOk := store, rawOk;
      retries := if maxRetries <= 0 then 5 else maxRetries;
    }

    // The context is ignored here, as in the source: the loop goes on as if it were never cancelled.
    method GenerateUnique(codes: seq<Option<string>>) returns (r: Result<string, ServiceError>)
      requires store.Valid() && retries <= |codes|
      ensures r == if retries > 0 && codes[0].Some? && !store.ready then Err(FromStore(NotReady))
                   else PickCode(store.model, codes, retries)
      ensures r == Generated(store.State(), codes, retries, retries)
    {
      NeverCancelled(store.State(), codes, retries);
      for i := 0 to retries
        invariant i > 0 ==> store.ready
        invariant PickCode(store.model, codes, retries) == PickCode(store.model, codes[i..], retries - i)
      {
        assert codes[i..][0] == codes[i] && codes[i..][1..] == codes[i + 1..];
        if codes[i] == None {
          return Err(GeneratorFailed);
        }
        var exists_ := store.Exists(codes[i].value);
        if exists_.Err? {
          return Err(FromStore(exists_.error));
        }
        if !exists_.value {
          return Ok(codes[i].value);
        }
      }
      return Err(CodesExhausted);
    }

    // Note the case the caller cannot see: with flush-on-write, a failing write is reported as
    // an error although the link has been created in memory.
    method Create(req: CreateReq, canceled: bool, codes: seq<Option<string>>, now: int, writeOk: bool)
      returns (r: Result<Link, ServiceError>)
      requires store.Valid() && retries <= |codes|
      modifies store
      ensures store.Valid() && fresh(store.repr - old(store.repr))
      ensures var d := Decide(old(store.State()), req, rawOk, canceled, codes, retries, now);
              match d
              case Err(e) => r == Err(e) && store.State() == old(store.State())
              case Ok(u) =>
                && u.code !in old(store.model)
                && store.State() == StoreModel.Save(old(store.State()), u, false, writeOk).0
                && store.model == Lifecycle.Step(old(store.model), Lifecycle.Create(u))
                && r == if store.flushOn && !writeOk then Err(FromStore(WriteFailed)) else Ok(u)
      ensures r.Ok? ==> AsRequested(r.value, req, now) && store.model == old(store.model)[r.value.code := r.value]
    {
      if !ValidReq(req, rawOk) {
        return Err(BadRequest);
      }
      if canceled {
        return Err(Cancelled);
      }
      var chosen := ChooseCode(req.customCode, codes);
      if chosen.Err? {
        return Err(chosen.error);
      }
      var link := NewLink(req, chosen.value, now);
      if !ValidLink(link, rawOk) {
        return Err(BadRequest);
      }
      r := Insert(link, writeOk);
    }

    method ChooseCode(custom: string, codes: seq<Option<string>>) returns (r: Result<string, ServiceError>)
      requires store.Valid() && retries <= |codes|
      ensures r == ChosenCode(store.State(), custom, codes, retries)
      ensures r.Ok? ==> r.value !in store.model && store.ready
    {
      if custom == "" {
        r := GenerateUnique(codes);
        PickCodeExactly(store.model, codes, retries);
        return;
      }
      var taken := store.Exists(custom);
      if taken.Err? {
        return Err(FromStore(taken.error));
      }
      return if taken.value then Err(FromStore(CodeConflict)) else Ok(custom);
    }

    method Insert(link: Link, writeOk: bool) returns (r: Result<Link, ServiceError>)
      requires store.Valid() && store.ready && link.code !in store.model
      modifies store
      ensures store.Valid() && fresh(store.repr - old(store.repr))
      ensures store.State() == StoreModel.Save(old(store.State()), link, false, writeOk).0
      ensures store.model == old(store.model)[link.code := link]
      ensures r == if store.flushOn && !writeOk then Err(FromStore(WriteFailed)) else Ok(link)
    {
      var u := new ShortURL(link);
      var saved := store.Save(u, false, writeOk);
      return if saved.Err? then Err(FromStore(saved.error)) else Ok(link);
    }

    method Disable(code: string, writeOk: bool) returns (r: Result<(), ServiceError>)
      requires store.Valid()
      modifies store, store.repr
      ensures store.Valid() && fresh(store.repr - old(store.repr))
      ensures if !ValidCode(code) then r == Err(BadRequest) && store.State() == old(store.State())
              else if !old(store.ready) then r == Err(FromStore(NotReady)) && store.State() == old(store.State())
              else
                && store.model == Lifecycle.Step(old(store.model), Lifecycle.Disable(code))
                && (code !in old(store.model) ==> r == Err(FromStore(CodeNotFound)))
                && (code in old(store.model) ==>
                      && store.model == old(store.model)[code := old(store.model)[code].(disabled := true)]
                      && r == if store.flushOn && !writeOk then Err(FromStore(WriteFailed)) else Ok(()))
    {
      if !ValidCode(code) {
        return Err(BadRequest);
      }
      var got := store.Get(code);
      if got.Err? {
        return Err(FromStore(got.error));
      }
      assert store.model[code].code == code;
      var saved := store.Rewrite(got.value, true, got.value.remark, writeOk);
      r := AsService(saved);
    }

    method UpdateRemark(code: string, remark: string, writeOk: bool) returns (r: Result<(), ServiceError>)
      requires store.Valid()
      modifies store, store.repr
      ensures store.Valid() && fresh(store.repr - old(store.repr))
      ensures if !ValidCode(code) then r == Err(BadRequest) && store.State() == old(store.State())
              else if !old(store.ready) then r == Err(FromStore(NotReady)) && store.State() == old(store.State())
              else
                && store.model == Lifecycle.Step(old(store.model), Lifecycle.Remark(code, remark))
                && (code !in old(store.model) ==> r == Err(FromStore(CodeNotFound)))
                && (code in old(store.model) ==>
                      && store.model == old(store.model)[code := old(store.model)[code].(remark := remark)]
                      && r == if store.flushOn && !writeOk then Err(FromStore(WriteFailed)) else Ok(()))
    {
      if !ValidCode(code) {
        return Err(BadRequest);
      }
      var got := store.Get(code);
      if got.Err? {
        return Err(FromStore(got.error));
      }
      assert store.model[code].code == code;
      var saved := store.Rewrite(got.value, got.value.disabled, remark, writeOk);
      r := AsService(saved);
    }

    method Delete(code: string, writeOk: bool) returns (r: Result<(), ServiceError>)
      requires store.Valid()
      modifies store
      ensures store.Valid() && store.repr == old(store.repr)
      ensures if !ValidCode(code) then r == Err(BadRequest) && store.State() == old(store.State())
              else
                && store.State() == StoreModel.Delete(old(store.State()), code, writeOk).0
                && r == AsService(StoreModel.Delete(old(store.State()), code, writeOk).1)
                && (old(store.ready) ==> store.model == Lifecycle.Step(old(store.model), Lifecycle.Delete(code)))
    {
      if !ValidCode(code) {
        return Err(BadRequest);
      }
      r := Remove(code, writeOk);
    }

    method Remove(code: string, writeOk: bool) returns (r: Result<(), ServiceError>)
      requires store.Valid()
      modifies store
      ensures store.Valid() && store.repr == old(store.repr)
      ensures store.State() == StoreModel.Delete(old(store.State()), code, writeOk).0
      ensures r == AsService(StoreModel.Delete(old(store.State()), code, writeOk).1)
      ensures old(store.ready) ==> store.model == Lifecycle.Step(old(store.model), Lifecycle.Delete(code))
    {
      var deleted := store.Delete(code, writeOk);
      r := AsService(deleted);
    }
  }

  // A redirect request on the store: the checks in the order the service makes them.
  function RedirectCall(s: Store, code: string, at: int): (Store, Result<Answer, ServiceError>) {
    if !ValidCode(code) then (s, Err(BadRequest))
    else
      match StoreModel.Get(s, code)
      case Err(e) => (s, if e == CodeNotFound then Ok(Answer(MISSING, "", false, false, false)) else Err(FromStore(e)))
      case Ok(u) =>
        if u.disabled then (s, Ok(Answer(GONE, "", true, false, false)))
        else if u.IsExpired(at) then (s, Ok(Answer(GONE, "", false, true, false)))
        else
          var (s', counted) := StoreModel.IncrementVisits(s, code);
          (s', AnswerCounted(counted))
  }

  // On a loaded store and a well-formed code it is the Redirect step, and it marks the store
  // dirty exactly when it counts a visit.
  lemma RedirectCallIsStep(s: Store, code: string, at: int)
    requires s.ready && ValidCode(code)
    ensures var (s', r) := RedirectCall(s, code, at);
            && r == Ok(Redirect(s.urls, code, at).1)
            && s' == s.(urls := Redirect(s.urls, code, at).0, dirty := s.dirty || Passes(s.urls, code, at))
  {
  }

  // A link is answered 302 to its URL, with the visit counted, exactly if it is there, not disabled,
  // not past its deadline, and below its limit with this visit counted; and 404 exactly if it is not.
  ghost predicate AnswersRight(m: Image, m': Image, code: string, at: int, r: Result<Answer, ServiceError>) {
    r.Ok? ==>
      && (r.value.status == 404 <==> code !in m)
      && (code in m ==>
            var u := m[code];
            && (r.value.status == 302 <==>
                  && !u.disabled && !(exists end :: u.expireAt == Some(end) && end < at)
                  && !(0 < u.maxVisits <= u.visits + 1))
            && (r.value.status == 302 ==>
                  && r.value.rawURL == u.rawURL
                  && m' == m[code := u.(visits := u.visits + 1)]))
  }

  lemma RedirectCallRight(s: Store, code: string, at: int)
    ensures var (s', r) := RedirectCall(s, code, at); AnswersRight(s.urls, s'.urls, code, at, r)
  {
    if s.ready && ValidCode(code) {
      RedirectCallIsStep(s, code, at);
      AnswerExactly(s.urls, code, at);
    }
  }

  class RedirectService {
    const store: URLStore

    constructor (store: URLStore)
      ensures this.store == store
    {
      this.store := store;
    }

    method HandleRedirect(code: string, at: int) returns (r: Result<Answer, ServiceError>)
      requires store.Valid()
      modifies store`model, store`dirty, store.repr`visits, store.repr`disabled, store.repr`remark
      ensures store.Valid()
      ensures (store.State(), r) == RedirectCall(old(store.State()), code, at)
      ensures AnswersRight(old(store.model), store.model, code, at, r)
    {
      RedirectCallRight(store.State(), code, at);
      r := AnswerVisit(code, at);
    }

    method AnswerVisit(code: string, at: int) returns (r: Result<Answer, ServiceError>)
      requires store.Valid()
      modifies store`model, store`dirty, store.repr`visits, store.repr`disabled, store.repr`remark
      ensures store.Valid()
      ensures (store.State(), r) == RedirectCall(old(store.State()), code, at)
    {
      if !ValidCode(code) {
        return Err(BadRequest);
      }
      var got := store.Get(code);
      if got.Err? {
        if got.error == CodeNotFound {
          return Ok(Answer(MISSING, "", false, false, false));
        }
        return Err(FromStore(got.error));
      }
      var u := got.value;
      if u.disabled {
        return Ok(Answer(GONE, "", true, false, false));
      }
      if u.expireAt.Some? && at > u.expireAt.value {
        return Ok(Answer(GONE, "", false, true, false));
      }
      r := CountVisit(code);
    }

    // Count the visit, then compare with the limit.
    method CountVisit(code: string) returns (r: Result<Answer, ServiceError>)
      requires store.Valid()
      modifies store`model, store`dirty, store.repr`visits, store.repr`disabled, store.repr`remark
      ensures store.Valid()
      ensures store.State() == StoreModel.IncrementVisits(old(store.State()), code).0
      ensures r == AnswerCounted(StoreModel.IncrementVisits(old(store.State()), code).1)
    {
      var counted := store.IncrementVisits(code);
      if counted.Err? {
        return Err(FromStore(counted.error));
      }
      var updated := counted.value;
      if updated.maxVisits > 0 && updated.visits >= updated.maxVisits {
        return Ok(Answer(GONE, "", false, false, true));
      }
      return Ok(Answer(FOUND, updated.rawURL, false, false, false));
    }
  }

  function AnswerCounted(counted: Result<Link, StoreError>): Result<Answer, ServiceError> {
    match counted
    case Err(e) => Err(FromStore(e))
    case Ok(u) =>
      Ok(if u.ExceedsMaxVisits() then Answer(GONE, "", false, false, true)
         else Answer(FOUND, u.rawURL, false, false, false))
  }
}
