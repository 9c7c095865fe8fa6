/**
 The life of a link as one state machine: creation, redirects, manual disabling, remarks,
 deletion and janitor sweeps, each service call one step on the record map of a loaded store.
 `Service.dfy` proves that the services perform these steps.
 */
module Lifecycle {
  import opened Wrappers
  import opened Link
  import opened StoreModel

  // ----- One redirect -----

  // What HandleRedirect answers: the HTTP status, the target of a 302, and which of the three
  // reasons a 410 gives.
  datatype Answer = Answer(status: int, rawURL: string, disabled: bool, expired: bool, maxVisited: bool)

  const FOUND := 302
  const MISSING := 404
  const GONE := 410

  // The checks made before the visit is counted.
  predicate Passes(urls: Image, code: string, at: int) {
    code in urls && !urls[code].disabled && !urls[code].IsExpired(at)
  }

  // Counts first, compares with the limit afterwards.
  function Redirect(urls: Image, code: string, at: int): (Image, Answer) {
    if code !in urls then (urls, Answer(MISSING, "", false, false, false))
    else if urls[code].disabled then (urls, Answer(GONE, "", true, false, false))
    else if urls[code].IsExpired(at) then (urls, Answer(GONE, "", false, true, false))
    else
      var u := urls[code].(visits := urls[code].visits + 1);
      var urls' := urls[code := u];
      if u.maxVisits > 0 && u.visits >= u.maxVisits then (urls', Answer(GONE, "", false, false, true))
      else (urls', Answer(FOUND, u.rawURL, false, false, false))
  }

  // ----- Runs -----

  datatype Event =
    | Create(u: Link)
    | Visit(code: string, at: int)
    | Disable(code: string)
    | Remark(code: string, remark: string)
    | Delete(code: string)
    // The janitor disables some of the records that are invalid at its clock reading.
    | Sweep(marked: set<string>, at: int)

  function Marked(urls: Image, marked: set<string>, at: int): Image {
    map k | k in urls :: if k in marked && urls[k].IsInvalid(at) then urls[k].(disabled := true) else urls[k]
  }

  function Step(urls: Image, ev: Event): Image {
    match ev
    case Create(u) => if u.code in urls then urls else urls[u.code := u]
    case Visit(code, at) => Redirect(urls, code, at).0
    case Disable(code) => if code in urls then urls[code := urls[code].(disabled := true)] else urls
    case Remark(code, r) => if code in urls then urls[code := urls[code].(remark := r)] else urls
    case Delete(code) => urls - {code}
    case Sweep(marked, at) => Marked(urls, marked, at)
  }

  function Run(urls: Image, evs: seq<Event>): Image
    decreases |evs|
  {
    if evs == [] then urls else Run(Step(urls, evs[0]), evs[1..])
  }

  // Clock readings do not go back, and none lies before `from`.
  ghost predicate Timed(evs: seq<Event>, from: int)
    decreases |evs|
  {
    evs == [] ||
    (match evs[0]
     case Visit(_, at) => from <= at && Timed(evs[1..], at)
     case Sweep(_, at) => from <= at && Timed(evs[1..], at)
     case _ => Timed(evs[1..], from))
  }

  // The answers of the visits of a run, in order: status and target.
  function Answers(urls: Image, evs: seq<Event>): seq<(int, string)>
    decreases |evs|
  {
    if evs == [] then []
    else
      var rest := Answers(Step(urls, evs[0]), evs[1..]);
      if evs[0].Visit? then
        var a := Redirect(urls, evs[0].code, evs[0].at).1;
        [(a.status, a.rawURL)] + rest
      else rest
  }

  // The answers to the visits of one code in a run, in order.
  function AnswersTo(urls: Image, evs: seq<Event>, code: string): seq<Answer>
    decreases |evs|
  {
    if evs == [] then []
    else
      (if evs[0].Visit? && evs[0].code == code then [Redirect(urls, code, evs[0].at).1] else [])
      + AnswersTo(Step(urls, evs[0]), evs[1..], code)
  }

  // ----- What one answer says -----

  // The reason a visit is refused for is the first that holds of: disabled before, past the deadline,
  // and at the limit with this visit counted. Only a redirect carries a target.
  lemma AnswerExactly(urls: Image, code: string, at: int)
    ensures var a := Redirect(urls, code, at).1;
            && (a.status == 404 <==> code !in urls)
            && (a.status != 302 ==> a.rawURL == "")
            && (code !in urls ==> !a.disabled && !a.expired && !a.maxVisited)
            && (code in urls ==>
                  var u := urls[code];
                  && (a.disabled <==> u.disabled)
                  && (a.expired <==> !u.disabled && exists end :: u.expireAt == Some(end) && end < at)
                  && (a.maxVisited <==> !a.disabled && !a.expired && 0 < u.maxVisits <= u.visits + 1)
                  && (a.status == 410 <==> a.disabled || a.expired || a.maxVisited)
                  && (a.status == 302 <==> a.status != 410)
                  && (a.status == 302 ==> a.rawURL == u.rawURL))
  {
  }

  // ----- What the events do to a record -----

  // Only visits, disabling and remarks touch a record, each one field of it.
  ghost predicate SameButCounts(u: Link, v: Link) {
    && v.code == u.code && v.rawURL == u.rawURL && v.createdAt == u.createdAt && v.expireAt == u.expireAt
    && v.maxVisits == u.maxVisits && v.custom == u.custom
  }

  lemma StepKeepsRecord(urls: Image, ev: Event, code: string)
    requires code in urls && ev != Delete(code)
    ensures var m := Step(urls, ev);
            && code in m && SameButCounts(urls[code], m[code])
            && (urls[code].disabled ==> m[code].disabled)
            && ((ev.Visit? && ev.code == code) || m[code].visits == urls[code].visits)
            && (ev == Disable(code) || ev.Sweep? || m[code].disabled == urls[code].disabled)
            && ((ev.Remark? && ev.code == code) || m[code].remark == urls[code].remark)
  {
  }

  // What disabling, a remark, a deletion and a sweep do, to the record and to all others.
  lemma EventsExactly(urls: Image, code: string, remark: string, marked: set<string>, at: int)
    requires code in urls
    ensures Step(urls, Disable(code)) == urls[code := urls[code].(disabled := true)]
    ensures Step(urls, Remark(code, remark)) == urls[code := urls[code].(remark := remark)]
    ensures Step(urls, Delete(code)).Keys == urls.Keys - {code}
    ensures forall k :: k in Step(urls, Delete(code)) ==> Step(urls, Delete(code))[k] == urls[k]
    ensures var m, u := Step(urls, Sweep(marked, at)), urls[code];
            var over := (exists end :: u.expireAt == Some(end) && end < at) || 0 < u.maxVisits <= u.visits;
            m.Keys == urls.Keys && m[code] == u.(disabled := u.disabled || (code in marked && over))
  {
  }

  lemma {:induction false} RunKeepsRecord(urls: Image, evs: seq<Event>, code: string)
    requires code in urls && Delete(code) !in evs
    ensures var m := Run(urls, evs);
            code in m && SameButCounts(urls[code], m[code]) && (urls[code].disabled ==> m[code].disabled)
    decreases |evs|
  {
    if evs != [] {
      assert evs[0] in evs && forall e :: e in evs[1..] ==> e in evs;
      StepKeepsRecord(urls, evs[0], code);
      RunKeepsRecord(Step(urls, evs[0]), evs[1..], code);
    }
  }

  lemma {:induction false} TargetKept(urls: Image, evs: seq<Event>, code: string)
    requires code in urls && Delete(code) !in evs
    ensures forall a :: a in AnswersTo(urls, evs, code) ==>
              a.status == 410 || (a.status == 302 && a.rawURL == urls[code].rawURL)
    decreases |evs|
  {
    if evs != [] {
      assert evs[0] in evs && forall e :: e in evs[1..] ==> e in evs;
      StepKeepsRecord(urls, evs[0], code);
      TargetKept(Step(urls, evs[0]), evs[1..], code);
    }
  }

  // Main theorem: as long as a link is not deleted, every visit of it is refused or sent to the URL
  // it was created for, whatever is disabled, remarked or swept in between.
  lemma CreatedTarget(urls: Image, u: Link, evs: seq<Event>)
    requires u.code !in urls && Delete(u.code) !in evs
    ensures forall a :: a in AnswersTo(Step(urls, Create(u)), evs, u.code) ==>
              a.status == 410 || (a.status == 302 && a.rawURL == u.rawURL)
  {
    TargetKept(Step(urls, Create(u)), evs, u.code);
  }

  lemma {:induction false} DisabledStays(urls: Image, evs: seq<Event>, code: string)
    requires code in urls && urls[code].disabled && Delete(code) !in evs
    ensures forall a :: a in AnswersTo(urls, evs, code) ==> a == Answer(410, "", true, false, false)
    decreases |evs|
  {
    if evs != [] {
      assert evs[0] in evs && forall e :: e in evs[1..] ==> e in evs;
      StepKeepsRecord(urls, evs[0], code);
      DisabledStays(Step(urls, evs[0]), evs[1..], code);
    }
  }

  // Main theorem: once disabled, a link answers 410 as disabled for ever, at whatever request times.
  lemma DisabledForever(urls: Image, code: string, evs: seq<Event>)
    requires code in urls && Delete(code) !in evs
    ensures forall a :: a in AnswersTo(Step(urls, Disable(code)), evs, code) ==>
              a == Answer(410, "", true, false, false)
  {
    DisabledStays(Step(urls, Disable(code)), evs, code);
  }

  lemma {:induction false} MissingStays(urls: Image, evs: seq<Event>, code: string)
    requires code !in urls && forall ev :: ev in evs && ev.Create? ==> ev.u.code != code
    ensures forall a :: a in AnswersTo(urls, evs, code) ==> a == Answer(404, "", false, false, false)
    decreases |evs|
  {
    if evs != [] {
      assert evs[0] in evs && forall e :: e in evs[1..] ==> e in evs;
      MissingStays(Step(urls, evs[0]), evs[1..], code);
    }
  }

  // And once deleted, 404, until it is created anew.
  lemma DeletedIsMissing(urls: Image, code: string, evs: seq<Event>)
    requires forall ev :: ev in evs && ev.Create? ==> ev.u.code != code
    ensures forall a :: a in AnswersTo(Step(urls, Delete(code)), evs, code) ==>
              a == Answer(404, "", false, false, false)
  {
    MissingStays(Step(urls, Delete(code)), evs, code);
  }

  // ----- Once gone, always gone -----

  ghost predicate Dead(urls: Image, code: string, at: int) {
    code in urls && urls[code].IsInvalid(at)
  }

  lemma StepStaysDead(urls: Image, ev: Event, code: string, from: int)
    requires Dead(urls, code, from) && ev != Delete(code)
    requires ev.Visit? ==> from <= ev.at
    ensures Dead(Step(urls, ev), code, from)
  {
  }

  lemma LaterStaysDead(urls: Image, code: string, from: int, to: int)
    requires Dead(urls, code, from) && from <= to
    ensures Dead(urls, code, to)
  {
  }

  // A record answers 410 exactly when it is invalid right after the answer.
  lemma GoneIffInvalidAfter(urls: Image, code: string, at: int)
    requires code in urls
    ensures Redirect(urls, code, at).1.status == GONE <==> Dead(Redirect(urls, code, at).0, code, at)
    ensures Dead(urls, code, at) ==> Redirect(urls, code, at).1.status == GONE
  {
  }

  ghost predicate AllGone(urls: Image, evs: seq<Event>, code: string)
    decreases |evs|
  {
    evs != [] ==>
      && (evs[0].Visit? && evs[0].code == code ==> Redirect(urls, code, evs[0].at).1.status == GONE)
      && AllGone(Step(urls, evs[0]), evs[1..], code)
  }

  lemma {:induction false} DeadForever(urls: Image, evs: seq<Event>, code: string, from: int)
    requires Dead(urls, code, from) && Timed(evs, from) && Delete(code) !in evs
    ensures AllGone(urls, evs, code)
    decreases |evs|
  {
    if evs != [] {
      var ev := evs[0];
      assert ev in evs;
      assert forall e :: e in evs[1..] ==> e in evs;
      StepStaysDead(urls, ev, code, from);
      var next := if ev.Visit? || ev.Sweep? then ev.at else from;
      LaterStaysDead(urls, code, from, next);
      LaterStaysDead(Step(urls, ev), code, from, next);
      DeadForever(Step(urls, ev), evs[1..], code, next);
    }
  }

  // Main theorem: from any state, once a visit of a code is answered 410, every later visit of
  // it is, whatever happens in between short of deleting it.
  lemma OnceGoneAlwaysGone(urls: Image, code: string, at: int, evs: seq<Event>)
    requires Redirect(urls, code, at).1.status == GONE
    requires Timed(evs, at) && Delete(code) !in evs
    ensures AllGone(Redirect(urls, code, at).0, evs, code)
  {
    GoneIffInvalidAfter(urls, code, at);
    DeadForever(Redirect(urls, code, at).0, evs, code, at);
  }

  // ----- Visit accounting -----

  // How many visits of the code passed the static checks, and how many were redirected.
  function Passed(urls: Image, evs: seq<Event>, code: string): nat
    decreases |evs|
  {
    if evs == [] then 0
    else
      (if evs[0].Visit? && evs[0].code == code && Passes(urls, code, evs[0].at) then 1 else 0)
      + Passed(Step(urls, evs[0]), evs[1..], code)
  }

  function Served(urls: Image, evs: seq<Event>, code: string): nat
    decreases |evs|
  {
    if evs == [] then 0
    else
      (if evs[0].Visit? && evs[0].code == code && Redirect(urls, code, evs[0].at).1.status == FOUND then 1 else 0)
      + Served(Step(urls, evs[0]), evs[1..], code)
  }

  function Min(a: int, b: int): int {
    if a < b then a else b
  }

  function Max(a: int, b: int): int {
    if a < b then b else a
  }

  // Main theorem: while a record is not deleted its counter grows by exactly the visits that
  // passed the static checks; without a limit all of those are redirected, and with a limit m
  // only the first m - 1 of its whole life are, because the visit is counted before the
  // comparison.
  lemma {:induction false} VisitAccounting(urls: Image, evs: seq<Event>, code: string)
    requires code in urls && Delete(code) !in evs
    ensures code in Run(urls, evs)
    ensures var v, v' := urls[code].visits, Run(urls, evs)[code].visits;
            var m, p := urls[code].maxVisits, Passed(urls, evs, code);
            && v' == v + p
            && Run(urls, evs)[code].maxVisits == m
            && Served(urls, evs, code) == if m <= 0 then p else Min(p, Max(0, m - 1 - v))
    decreases |evs|
  {
    if evs != [] {
      assert evs[0] in evs;
      assert forall e :: e in evs[1..] ==> e in evs;
      VisitAccounting(Step(urls, evs[0]), evs[1..], code);
    }
  }

  // A freshly created link with a limit of m redirects m - 1 times at most, so one with a limit
  // of 1 never does: the documented "at most m visits" is one visit short.
  lemma FreshLinkServes(urls: Image, u: Link, evs: seq<Event>)
    requires u.code !in urls && u.visits == 0 && u.maxVisits > 0 && Delete(u.code) !in evs
    ensures var urls' := Step(urls, Create(u));
            && Served(urls', evs, u.code) == Min(Passed(urls', evs, u.code), u.maxVisits - 1)
            && (u.maxVisits == 1 ==> Served(urls', evs, u.code) == 0)
  {
    VisitAccounting(Step(urls, Create(u)), evs, u.code);
  }

  // IncrementVisits as it stands unlocks twice, which ends the process, whenever the counter
  // reaches a positive multiple of 100.
  predicate Crashes(urls: Image, ev: Event) {
    ev.Visit? && Passes(urls, ev.code, ev.at) &&
    var v := urls[ev.code].visits + 1; v > 0 && v % 100 == 0
  }

  predicate SurvivesOn(urls: Image, evs: seq<Event>, code: string)
    decreases |evs|
  {
    evs == [] || (!(Crashes(urls, evs[0]) && evs[0].code == code) && SurvivesOn(Step(urls, evs[0]), evs[1..], code))
  }

  // The record's visits bring the process down exactly when they carry its counter over a
  // multiple of 100: a fresh link is good for 99 counted visits.
  lemma {:induction false} SurvivesExactly(urls: Image, evs: seq<Event>, code: string)
    requires code in urls && Delete(code) !in evs && urls[code].visits >= 0
    ensures SurvivesOn(urls, evs, code) <==>
              urls[code].visits / 100 == (urls[code].visits + Passed(urls, evs, code)) / 100
    decreases |evs|
  {
    if evs != [] {
      assert evs[0] in evs;
      assert forall e :: e in evs[1..] ==> e in evs;
      SurvivesExactly(Step(urls, evs[0]), evs[1..], code);
    }
  }

  // ----- The janitor is invisible -----

  function WithoutSweeps(evs: seq<Event>): seq<Event> {
    if evs == [] then []
    else if evs[0].Sweep? then WithoutSweeps(evs[1..])
    else [evs[0]] + WithoutSweeps(evs[1..])
  }

  // Equal up to records that are invalid on both sides.
  ghost predicate Alike(a: Image, b: Image, at: int) {
    && a.Keys == b.Keys
    && forall k :: k in a ==> a[k] == b[k] || (a[k].IsInvalid(at) && b[k].IsInvalid(at))
  }

  lemma AlikeLater(a: Image, b: Image, from: int, to: int)
    requires Alike(a, b, from) && from <= to
    ensures Alike(a, b, to)
  {
  }

  lemma SweepAlike(a: Image, b: Image, marked: set<string>, at: int)
    requires Alike(a, b, at)
    ensures Alike(Marked(a, marked, at), b, at)
  {
  }

  lemma StepAlike(a: Image, b: Image, ev: Event, at: int)
    requires Alike(a, b, at) && !ev.Sweep? && (ev.Visit? ==> ev.at == at)
    ensures Alike(Step(a, ev), Step(b, ev), at)
  {
  }

  lemma VisitAlike(a: Image, b: Image, code: string, at: int)
    requires Alike(a, b, at)
    ensures var x, y := Redirect(a, code, at).1, Redirect(b, code, at).1; x.status == y.status && x.rawURL == y.rawURL
  {
  }

  lemma {:induction false} SweepsInvisible(a: Image, b: Image, evs: seq<Event>, from: int)
    requires Alike(a, b, from) && Timed(evs, from)
    ensures Answers(a, evs) == Answers(b, WithoutSweeps(evs))
    decreases |evs|
  {
    if evs != [] {
      var ev, rest := evs[0], evs[1..];
      var now := if ev.Visit? || ev.Sweep? then ev.at else from;
      AlikeLater(a, b, from, now);
      if ev.Sweep? {
        SweepAlike(a, b, ev.marked, now);
        SweepsInvisible(Step(a, ev), b, rest, now);
      } else {
        if ev.Visit? { VisitAlike(a, b, ev.code, now); }
        StepAlike(a, b, ev, now);
        SweepsInvisible(Step(a, ev), Step(b, ev), rest, now);
        var w := WithoutSweeps(evs);
        assert w[0] == ev && w[1..] == WithoutSweeps(rest);
      }
    }
  }

  // Main theorem: drop every sweep from a run, whichever records each of them marked, and every
  // visit still gets the same status and the same target.
  lemma JanitorInvisible(urls: Image, evs: seq<Event>, from: int)
    requires Timed(evs, from)
    ensures Answers(urls, evs) == Answers(urls, WithoutSweeps(evs))
  {
    SweepsInvisible(urls, urls, evs, from);
  }
}
