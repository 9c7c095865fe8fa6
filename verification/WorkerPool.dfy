/**
 The worker pool of pkg/workerpool/pool.go as a transition system over all interleavings of
 submitters, workers, cancellation and Stop. Submit's check and its send are one step, and panics
 are captured, which is the default. A blocked SubmitWait is a submission at the moment it succeeds.
 */
module WorkerPool {
  import opened Wrappers

  // A task; `runs` is whether it has a function at all.
  datatype Task = Task(name: string, runs: bool)

  // How the function of a task ends. An error may be, or wrap, that of a cancelled context.
  datatype Outcome = Succeeded | FailedWith(error: string, ofContext: bool) | PanickedWith(message: string)

  datatype Phase = Queued | Running | Finished(outcome: Outcome)

  // An accepted task, and how often a worker took it.
  datatype Slot = Slot(task: Task, starts: nat, phase: Phase)

  datatype TaskError = TaskError(name: string, error: string)

  datatype Pool = Pool(
    workers: nat, bufSize: nat,
    running: bool,             // started, and Stop has not returned since
    stopped: bool,             // the queue is closed
    ctxDone: bool,             // the context of the workers is cancelled
    alive: nat,                // workers that have not exited
    slots: seq<Slot>,          // everything accepted, in order
    queue: seq<nat>,           // the channel: indices of slots
    errs: seq<TaskError>,
    finished: seq<nat>,        // the order in which tasks ended
    cancelled: bool)           // some context was cancelled at some time

  function New(workers: nat, bufSize: nat): Pool {
    Pool(workers, bufSize, false, false, false, 0, [], [], [], [], false)
  }

  datatype Event =
    | Start
    | Submit(task: Task)                // into the buffer
    | HandOver(task: Task)              // straight to a worker that waits for a task
    | Take                              // a worker takes the oldest task
    | Finish(i: nat, outcome: Outcome)
    | Exit                              // a worker leaves
    | CancelContext
    | CloseQueue                        // the first half of Stop
    | StopReturns

  function Busy(slots: seq<Slot>): nat {
    if slots == [] then 0
    else Busy(slots[..|slots| - 1]) + if slots[|slots| - 1].phase == Running then 1 else 0
  }

  // Workers waiting for something to do.
  function Idle(p: Pool): int {
    p.alive - Busy(p.slots)
  }

  predicate Accepting(p: Pool) {
    p.running && !p.stopped
  }

  // What recordErr gets to see of a task.
  function Recorded(task: Task, outcome: Outcome): seq<TaskError> {
    if !task.runs then []
    else match outcome
      case Succeeded => []
      case FailedWith(e, ofContext) => if ofContext then [] else [TaskError(task.name, e)]
      case PanickedWith(m) => [TaskError(task.name, "panic: " + m)]
  }

  predicate Enabled(p: Pool, ev: Event) {
    match ev
    case Start => true
    case Submit(_) => true
    case HandOver(_) => Accepting(p) && p.queue == [] && Idle(p) > 0
    case Take => p.queue != [] && p.queue[0] < |p.slots| && Idle(p) > 0
    case Finish(i, _) => i < |p.slots| && p.slots[i].phase == Running
    case Exit => Idle(p) > 0 && (p.ctxDone || (p.stopped && p.queue == []))
    case CancelContext => true
    case CloseQueue => true
    case StopReturns => p.stopped && p.alive == 0
  }

  function Next(p: Pool, ev: Event): Pool
    requires Enabled(p, ev)
  {
    match ev
    case Start =>
      if p.running then p else p.(running := true, alive := p.alive + p.workers, ctxDone := false)
    case Submit(task) =>
      if Accepting(p) && |p.queue| < p.bufSize
      then p.(slots := p.slots + [Slot(task, 0, Queued)], queue := p.queue + [|p.slots|])
      else p
    case HandOver(task) => p.(slots := p.slots + [Slot(task, 1, Running)])
    case Take =>
      var i := p.queue[0];
      p.(queue := p.queue[1..], slots := p.slots[i := p.slots[i].(starts := p.slots[i].starts + 1, phase := Running)])
    case Finish(i, outcome) =>
      var s := p.slots[i];
      p.(slots := p.slots[i := s.(phase := Finished(outcome))], errs := p.errs + Recorded(s.task, outcome),
         finished := p.finished + [i])
    case Exit => p.(alive := if p.alive > 0 then p.alive - 1 else 0)
    case CancelContext => p.(ctxDone := true, cancelled := true)
    case CloseQueue => p.(stopped := true)
    case StopReturns => p.(running := false)
  }

  function Run(workers: nat, bufSize: nat, evs: seq<Event>): Pool {
    if evs == [] then New(workers, bufSize)
    else
      var p := Run(workers, bufSize, evs[..|evs| - 1]);
      if Enabled(p, evs[|evs| - 1]) then Next(p, evs[|evs| - 1]) else p
  }

  // ----- The invariant -----

  // The queued slots, oldest first.
  function Waiting(slots: seq<Slot>): seq<nat> {
    if slots == [] then []
    else
      var i := |slots| - 1;
      if slots[i].phase == Queued then Waiting(slots[..i]) + [i] else Waiting(slots[..i])
  }

  // The errors of the given slots, in order.
  function ErrorsOf(slots: seq<Slot>, order: seq<nat>): seq<TaskError> {
    if order == [] then []
    else
      var i := order[|order| - 1];
      ErrorsOf(slots, order[..|order| - 1])
      + if i < |slots| && slots[i].phase.Finished? then Recorded(slots[i].task, slots[i].phase.outcome) else []
  }

  // The queue holds exactly the tasks no worker took; every other task was taken once.
  ghost predicate SlotsOk(p: Pool) {
    && p.queue == Waiting(p.slots) && |p.queue| <= p.bufSize
    && (forall i :: 0 <= i < |p.slots| ==> p.slots[i].starts == if p.slots[i].phase == Queued then 0 else 1)
  }

  // Tasks are taken in the order of acceptance.
  ghost predicate InOrder(slots: seq<Slot>) {
    forall i, j :: 0 <= i < |slots| && 0 <= j < |slots| && slots[i].phase != Queued && slots[j].phase == Queued ==>
      i < j
  }

  // The finished tasks are listed once each, and their errors are recorded, and nothing else.
  ghost predicate ErrorsOk(slots: seq<Slot>, finished: seq<nat>, errs: seq<TaskError>) {
    && (forall i: nat :: i in finished <==> i < |slots| && slots[i].phase.Finished?)
    && (forall k, l :: 0 <= k < l < |finished| ==> finished[k] != finished[l])
    && errs == ErrorsOf(slots, finished)
  }

  // No more tasks run than there are workers; without a cancellation workers stay until the
  // queue is closed and empty.
  ghost predicate WorkersOk(p: Pool) {
    && 0 < p.workers && Busy(p.slots) <= p.alive <= p.workers
    && (!p.running ==> p.alive == 0)
    && (p.ctxDone ==> p.cancelled)
    && (p.running && !p.stopped && !p.ctxDone ==> p.alive == p.workers)
    && (p.running && !p.cancelled ==> p.alive == p.workers || (p.stopped && p.queue == []))
    && (!p.running && !p.cancelled ==> p.queue == [])
  }

  ghost predicate Inv(p: Pool) {
    SlotsOk(p) && InOrder(p.slots) && ErrorsOk(p.slots, p.finished, p.errs) && WorkersOk(p)
  }

  // ----- Slots -----

  lemma AppendSlot(slots: seq<Slot>, s: Slot)
    ensures Busy(slots + [s]) == Busy(slots) + if s.phase == Running then 1 else 0
    ensures Waiting(slots + [s]) == if s.phase == Queued then Waiting(slots) + [|slots|] else Waiting(slots)
  {
    assert (slots + [s])[..|slots|] == slots;
  }

  lemma {:induction false} UpdateBusy(slots: seq<Slot>, i: nat, s: Slot)
    requires i < |slots|
    ensures Busy(slots[i := s]) + (if slots[i].phase == Running then 1 else 0)
         == Busy(slots) + if s.phase == Running then 1 else 0
  {
    var n, slots' := |slots| - 1, slots[i := s];
    if i < n {
      assert slots'[..n] == slots[..n][i := s];
      UpdateBusy(slots[..n], i, s);
    } else {
      assert slots'[..n] == slots[..n];
    }
  }

  lemma {:induction false} UpdateWaiting(slots: seq<Slot>, i: nat, s: Slot)
    requires i < |slots| && slots[i].phase != Queued && s.phase != Queued
    ensures Waiting(slots[i := s]) == Waiting(slots)
  {
    var n, slots' := |slots| - 1, slots[i := s];
    if i < n {
      assert slots'[..n] == slots[..n][i := s];
      UpdateWaiting(slots[..n], i, s);
    } else {
      assert slots'[..n] == slots[..n];
    }
  }

  // The queue starts with the oldest task that waits, and loses it when it is taken.
  lemma {:induction false} TakeFirst(slots: seq<Slot>, s: Slot)
    requires Waiting(slots) != [] && s.phase != Queued
    ensures var i := Waiting(slots)[0];
            && i < |slots| && slots[i].phase == Queued
            && Waiting(slots[i := s]) == Waiting(slots)[1..]
            && forall j :: 0 <= j < i ==> slots[j].phase != Queued
  {
    var n := |slots| - 1;
    if Waiting(slots[..n]) == [] {
      NoneWaiting(slots[..n]);
      assert slots[n := s][..n] == slots[..n];
    } else {
      TakeFirst(slots[..n], s);
      var i := Waiting(slots)[0];
      assert slots[i := s][..n] == slots[..n][i := s];
    }
  }

  lemma {:induction false} NoneWaiting(slots: seq<Slot>)
    ensures Waiting(slots) == [] <==> forall j :: 0 <= j < |slots| ==> slots[j].phase != Queued
  {
    if slots != [] { NoneWaiting(slots[..|slots| - 1]); }
  }

  lemma {:induction false} NoneBusy(slots: seq<Slot>)
    requires Busy(slots) == 0
    ensures forall j :: 0 <= j < |slots| ==> slots[j].phase != Running
  {
    if slots != [] { NoneBusy(slots[..|slots| - 1]); }
  }

  lemma {:induction false} SameErrors(slots: seq<Slot>, slots': seq<Slot>, order: seq<nat>)
    requires forall i :: i in order ==> i < |slots| <= |slots'| && slots'[i] == slots[i]
    ensures ErrorsOf(slots', order) == ErrorsOf(slots, order)
  {
    if order != [] {
      var front := order[..|order| - 1];
      assert order[|order| - 1] in order;
      forall i: nat | i in front ensures i < |slots| <= |slots'| && slots'[i] == slots[i] { assert i in order; }
      SameErrors(slots, slots', front);
    }
  }

  // A change to a slot that neither was finished nor is.
  lemma ErrorsKept(slots: seq<Slot>, slots': seq<Slot>, finished: seq<nat>, errs: seq<TaskError>, i: nat)
    requires ErrorsOk(slots, finished, errs) && i < |slots'| && |slots| <= |slots'| <= |slots| + 1
    requires (i < |slots| ==> !slots[i].phase.Finished?) && !slots'[i].phase.Finished?
    requires |slots'| == |slots| + 1 ==> i == |slots|
    requires forall j :: 0 <= j < |slots| && j != i ==> slots'[j] == slots[j]
    ensures ErrorsOk(slots', finished, errs)
  {
    SameErrors(slots, slots', finished);
  }

  lemma ErrorsGrow(slots: seq<Slot>, finished: seq<nat>, errs: seq<TaskError>, i: nat, s: Slot)
    requires ErrorsOk(slots, finished, errs) && i < |slots| && !slots[i].phase.Finished? && s.phase.Finished?
    ensures ErrorsOk(slots[i := s], finished + [i], errs + Recorded(s.task, s.phase.outcome))
  {
    SameErrors(slots, slots[i := s], finished);
    assert (finished + [i])[..|finished|] == finished;
  }

  lemma QueuedLast(slots: seq<Slot>, s: Slot)
    requires InOrder(slots) && s.phase == Queued
    ensures InOrder(slots + [s])
  {
  }

  // ----- The steps keep the invariant -----

  lemma SubmitKeeps(p: Pool, task: Task)
    requires Inv(p) && Accepting(p) && |p.queue| < p.bufSize
    ensures Inv(p.(slots := p.slots + [Slot(task, 0, Queued)], queue := p.queue + [|p.slots|]))
  {
    var s := Slot(task, 0, Queued);
    AppendSlot(p.slots, s);
    QueuedLast(p.slots, s);
    ErrorsKept(p.slots, p.slots + [s], p.finished, p.errs, |p.slots|);
    assert SlotsOk(p.(slots := p.slots + [s], queue := p.queue + [|p.slots|]));
  }

  lemma HandOverKeeps(p: Pool, task: Task)
    requires Inv(p) && Enabled(p, HandOver(task))
    ensures Inv(Next(p, HandOver(task)))
  {
    var s := Slot(task, 1, Running);
    AppendSlot(p.slots, s);
    NoneWaiting(p.slots);
    ErrorsKept(p.slots, p.slots + [s], p.finished, p.errs, |p.slots|);
    NoneQueued(p.slots, s);
    assert SlotsOk(p.(slots := p.slots + [s]));
  }

  lemma NoneQueued(slots: seq<Slot>, s: Slot)
    requires s.phase != Queued && forall i :: 0 <= i < |slots| ==> slots[i].phase != Queued
    ensures InOrder(slots + [s])
  {
  }

  lemma TakeKeeps(p: Pool)
    requires Inv(p) && Enabled(p, Take)
    ensures Inv(Next(p, Take))
  {
    var i, p' := p.queue[0], Next(p, Take);
    TakeFirst(p.slots, p'.slots[i]);
    UpdateBusy(p.slots, i, p'.slots[i]);
    ErrorsKept(p.slots, p'.slots, p.finished, p.errs, i);
  }

  lemma FinishKeeps(p: Pool, i: nat, outcome: Outcome)
    requires Inv(p) && Enabled(p, Finish(i, outcome))
    ensures Inv(Next(p, Finish(i, outcome)))
  {
    var p' := Next(p, Finish(i, outcome));
    UpdateBusy(p.slots, i, p'.slots[i]);
    UpdateWaiting(p.slots, i, p'.slots[i]);
    ErrorsGrow(p.slots, p.finished, p.errs, i, p'.slots[i]);
  }

  // So does every other step.
  lemma NextKeeps(p: Pool, ev: Event)
    requires Inv(p) && Enabled(p, ev) && !ev.Submit?
    ensures Inv(Next(p, ev)) && Next(p, ev).workers == p.workers && Next(p, ev).bufSize == p.bufSize
  {
    match ev
    case HandOver(task) => HandOverKeeps(p, task);
    case Take => TakeKeeps(p);
    case Finish(i, outcome) => FinishKeeps(p, i, outcome);
    case _ =>
  }

  // ----- What every run guarantees -----

  // The accepted tasks are always the queued, the running and the finished ones; none is taken
  // twice, they are taken in order, at most `workers` run and at most bufSize are queued; and the
  // errors are those of the finished tasks, in the order in which they ended.
  lemma {:induction false} Conservation(workers: nat, bufSize: nat, evs: seq<Event>)
    requires 0 < workers
    ensures var p := Run(workers, bufSize, evs); Inv(p) && p.workers == workers && p.bufSize == bufSize
  {
    if evs != [] {
      var p, ev := Run(workers, bufSize, evs[..|evs| - 1]), evs[|evs| - 1];
      Conservation(workers, bufSize, evs[..|evs| - 1]);
      if ev.Submit? {
        if Accepting(p) && |p.queue| < p.bufSize { SubmitKeeps(p, ev.task); }
      } else if Enabled(p, ev) {
        NextKeeps(p, ev);
      }
    }
  }

  lemma {:induction false} NeverCancelled(workers: nat, bufSize: nat, evs: seq<Event>)
    requires CancelContext !in evs
    ensures !Run(workers, bufSize, evs).cancelled
  {
    if evs != [] {
      assert evs[|evs| - 1] in evs && forall ev :: ev in evs[..|evs| - 1] ==> ev in evs;
      NeverCancelled(workers, bufSize, evs[..|evs| - 1]);
      var p := Run(workers, bufSize, evs[..|evs| - 1]);
      if Enabled(p, evs[|evs| - 1]) { OnlyCancelCancels(p, evs[|evs| - 1]); }
    }
  }

  lemma OnlyCancelCancels(p: Pool, ev: Event)
    requires Enabled(p, ev) && ev != CancelContext
    ensures Next(p, ev).cancelled == p.cancelled
  {
  }

  // When Stop returns, nothing runs, and every accepted task either was run exactly once, its
  // error recorded, or was dropped without being run; and none was dropped if no context was
  // ever cancelled.
  lemma StopAccounts(workers: nat, bufSize: nat, evs: seq<Event>)
    requires 0 < workers && Enabled(Run(workers, bufSize, evs), StopReturns)
    ensures var p := Run(workers, bufSize, evs);
            && (forall i :: 0 <= i < |p.slots| ==>
                  || (p.slots[i].phase.Finished? && p.slots[i].starts == 1 && i in p.finished)
                  || (p.slots[i].phase == Queued && p.slots[i].starts == 0 && i !in p.finished))
            && p.errs == ErrorsOf(p.slots, p.finished)
            && (CancelContext !in evs ==> forall i :: 0 <= i < |p.slots| ==> p.slots[i].phase.Finished?)
  {
    var p := Run(workers, bufSize, evs);
    Conservation(workers, bufSize, evs);
    NoneBusy(p.slots);
    NoneWaiting(p.slots);
    if CancelContext !in evs { NeverCancelled(workers, bufSize, evs); }
  }

  // Once the queue is closed, the workers always get further, and only so often: as long as one
  // is alive, it can take a task, end one or leave; and each such step shrinks what is left.
  function Left(p: Pool): int {
    2 * |p.queue| + Busy(p.slots) + p.alive
  }

  predicate WorkerStep(ev: Event) {
    ev.Take? || ev.Finish? || ev.Exit?
  }

  lemma StopGetsThere(p: Pool)
    requires Inv(p) && p.stopped && p.alive > 0
    ensures exists ev :: WorkerStep(ev) && Enabled(p, ev)
    ensures forall ev :: WorkerStep(ev) && Enabled(p, ev) ==> 0 <= Left(Next(p, ev)) < Left(p)
  {
    if Idle(p) > 0 {
      if p.queue == [] {
        assert Enabled(p, Exit);
      } else {
        TakeFirst(p.slots, Slot(Task("", false), 1, Running));
        assert Enabled(p, Take);
      }
    } else {
      var i := SomeBusy(p.slots);
      assert Enabled(p, Finish(i, Succeeded));
    }
    forall ev | WorkerStep(ev) && Enabled(p, ev) ensures 0 <= Left(Next(p, ev)) < Left(p) {
      match ev
      case Take =>
        TakeFirst(p.slots, Next(p, ev).slots[p.queue[0]]);
        UpdateBusy(p.slots, p.queue[0], Next(p, ev).slots[p.queue[0]]);
      case Finish(i, outcome) => UpdateBusy(p.slots, i, Next(p, ev).slots[i]);
      case _ =>
    }
  }

  lemma {:induction false} SomeBusy(slots: seq<Slot>) returns (i: nat)
    requires Busy(slots) > 0
    ensures i < |slots| && slots[i].phase == Running
  {
    var n := |slots| - 1;
    if slots[n].phase == Running { i := n; } else { i := SomeBusy(slots[..n]); }
  }

  // After a cancellation a task can be lost although it was accepted: once the last worker has
  // left, Submit still succeeds while there is room, and Stop returns with the task queued.
  lemma CancellationDrops(p: Pool, task: Task)
    requires Inv(p) && Accepting(p) && p.alive == 0 && |p.queue| < p.bufSize
    ensures var p' := Next(Next(p, Submit(task)), CloseQueue);
            && p.cancelled && Inv(p') && Enabled(p', StopReturns)
            && p'.slots == p.slots + [Slot(task, 0, Queued)] && p'.errs == p.errs
  {
    SubmitKeeps(p, task);
    NextKeeps(Next(p, Submit(task)), CloseQueue);
  }

  lemma RunMore(workers: nat, bufSize: nat, evs: seq<Event>, ev: Event)
    ensures var p := Run(workers, bufSize, evs);
            Run(workers, bufSize, evs + [ev]) == if Enabled(p, ev) then Next(p, ev) else p
  {
    assert (evs + [ev])[..|evs|] == evs;
  }

  // A run in which the context is cancelled and all workers leave, one after the other.
  function Leaving(n: nat): seq<Event> {
    if n == 0 then [Start, CancelContext] else Leaving(n - 1) + [Exit]
  }

  ghost predicate LeftBehind(p: Pool, workers: nat, n: nat) {
    p.running && !p.stopped && p.ctxDone && p.alive == workers - n && p.queue == [] && p.slots == []
  }

  lemma {:induction false} WorkersLeave(workers: nat, bufSize: nat, n: nat)
    requires n <= workers
    ensures LeftBehind(Run(workers, bufSize, Leaving(n)), workers, n)
  {
    if n == 0 {
      RunMore(workers, bufSize, [], Start);
      RunMore(workers, bufSize, [Start], CancelContext);
      assert [] + [Start] == [Start] && [Start] + [CancelContext] == Leaving(0);
    } else {
      WorkersLeave(workers, bufSize, n - 1);
      RunMore(workers, bufSize, Leaving(n - 1), Exit);
    }
  }

  // So a run gets to where a task is accepted that no worker will ever run.
  lemma AllWorkersLeave(workers: nat, bufSize: nat)
    requires 0 < workers && 0 < bufSize
    ensures var p := Run(workers, bufSize, Leaving(workers));
            Inv(p) && Accepting(p) && p.alive == 0 && |p.queue| < p.bufSize
  {
    WorkersLeave(workers, bufSize, workers);
    Conservation(workers, bufSize, Leaving(workers));
  }

  lemma StepKeepsTasks(p: Pool, ev: Event)
    requires Enabled(p, ev)
    ensures |p.slots| <= |Next(p, ev).slots|
    ensures forall i :: 0 <= i < |p.slots| ==> Next(p, ev).slots[i].task == p.slots[i].task
  {
  }

  lemma {:induction false} RunKeepsTasks(workers: nat, bufSize: nat, evs: seq<Event>, more: seq<Event>)
    ensures var p, p' := Run(workers, bufSize, evs), Run(workers, bufSize, evs + more);
            && |p.slots| <= |p'.slots|
            && forall i :: 0 <= i < |p.slots| ==> p'.slots[i].task == p.slots[i].task
    decreases |more|
  {
    if more == [] {
      assert evs + more == evs;
    } else {
      var front, ev := more[..|more| - 1], more[|more| - 1];
      var p := Run(workers, bufSize, evs + front);
      RunKeepsTasks(workers, bufSize, evs, front);
      assert (evs + front) + [ev] == evs + more;
      RunMore(workers, bufSize, evs + front, ev);
      if Enabled(p, ev) { StepKeepsTasks(p, ev); }
    }
  }

  // Without a cancellation every accepted task is run, once: in every continuation of a run, when
  // Stop returns, it has ended and its error is among those recorded.
  lemma AcceptedTasksRun(workers: nat, bufSize: nat, evs: seq<Event>, more: seq<Event>, i: nat)
    requires 0 < workers && CancelContext !in evs + more
    requires i < |Run(workers, bufSize, evs).slots| && Enabled(Run(workers, bufSize, evs + more), StopReturns)
    ensures var p, p' := Run(workers, bufSize, evs), Run(workers, bufSize, evs + more);
            && i < |p'.slots| && p'.slots[i].task == p.slots[i].task
            && p'.slots[i].phase.Finished? && p'.slots[i].starts == 1 && i in p'.finished
            && forall e :: e in Recorded(p'.slots[i].task, p'.slots[i].phase.outcome) ==> e in p'.errs
  {
    RunKeepsTasks(workers, bufSize, evs, more);
    StopAccounts(workers, bufSize, evs + more);
    var p' := Run(workers, bufSize, evs + more);
    ErrorsListed(p'.slots, p'.finished, i);
  }

  lemma {:induction false} ErrorsListed(slots: seq<Slot>, order: seq<nat>, i: nat)
    requires i in order && i < |slots| && slots[i].phase.Finished?
    ensures forall e :: e in Recorded(slots[i].task, slots[i].phase.outcome) ==> e in ErrorsOf(slots, order)
  {
    var last := |order| - 1;
    if order[last] != i {
      var k :| 0 <= k < |order| && order[k] == i;
      assert order[..last][k] == i;
      ErrorsListed(slots, order[..last], i);
    }
  }

  // ----- When an accepted task can be lost -----

  // Workers that no cancellation calls away stay until the queue is closed and empty.
  ghost predicate Staffed(p: Pool) {
    && !p.ctxDone
    && (p.running ==> p.alive == p.workers || (p.stopped && p.queue == []))
    && (!p.running ==> p.queue == [])
  }

  lemma StepStaffed(p: Pool, ev: Event)
    requires Inv(p) && Staffed(p) && Enabled(p, ev) && ev != CancelContext
    ensures Staffed(Next(p, ev))
  {
  }

  lemma {:induction false} RunStaffed(workers: nat, bufSize: nat, evs: seq<Event>, more: seq<Event>)
    requires 0 < workers && Staffed(Run(workers, bufSize, evs)) && CancelContext !in more
    ensures Staffed(Run(workers, bufSize, evs + more))
    decreases |more|
  {
    if more == [] {
      assert evs + more == evs;
    } else {
      var front, ev := more[..|more| - 1], more[|more| - 1];
      assert ev in more && forall e :: e in front ==> e in more;
      RunStaffed(workers, bufSize, evs, front);
      assert (evs + front) + [ev] == evs + more;
      RunMore(workers, bufSize, evs + front, ev);
      Conservation(workers, bufSize, evs + front);
      var p := Run(workers, bufSize, evs + front);
      if Enabled(p, ev) { StepStaffed(p, ev); }
    }
  }

  // Events by which running tasks end, workers leave and the queue is closed.
  predicate WindsDown(evs: seq<Event>) {
    forall i :: 0 <= i < |evs| ==> evs[i].Finish? || evs[i].Exit? || evs[i].CloseQueue?
  }

  // What is left to do before Stop can return, if nothing is taken from the queue any more.
  function Remaining(p: Pool): nat {
    Busy(p.slots) + p.alive + if p.stopped then 0 else 1
  }

  lemma OneCloser(p: Pool) returns (ev: Event)
    requires Inv(p) && p.ctxDone && !Enabled(p, StopReturns)
    ensures WindsDown([ev]) && Enabled(p, ev)
    ensures var p' := Next(p, ev); p'.ctxDone && p'.queue == p.queue && Remaining(p') < Remaining(p)
  {
    if Idle(p) > 0 {
      ev := Exit;
    } else if p.alive > 0 {
      var i := SomeBusy(p.slots);
      ev := Finish(i, Succeeded);
      UpdateBusy(p.slots, i, Next(p, ev).slots[i]);
    } else {
      ev := CloseQueue;
    }
  }

  lemma RunCloser(workers: nat, bufSize: nat, evs: seq<Event>) returns (ev: Event)
    requires 0 < workers && Run(workers, bufSize, evs).ctxDone && !Enabled(Run(workers, bufSize, evs), StopReturns)
    ensures WindsDown([ev])
    ensures var p, p' := Run(workers, bufSize, evs), Run(workers, bufSize, evs + [ev]);
            p'.ctxDone && p'.queue == p.queue && Remaining(p') < Remaining(p)
  {
    Conservation(workers, bufSize, evs);
    ev := OneCloser(Run(workers, bufSize, evs));
    RunMore(workers, bufSize, evs, ev);
  }

  // Under a cancelled context the workers may leave without another look at the queue.
  lemma {:induction false} LeaveQueued(workers: nat, bufSize: nat, evs: seq<Event>) returns (more: seq<Event>)
    requires 0 < workers && Run(workers, bufSize, evs).ctxDone
    ensures WindsDown(more)
    ensures var p, p' := Run(workers, bufSize, evs), Run(workers, bufSize, evs + more);
            Enabled(p', StopReturns) && p'.queue == p.queue
    decreases Remaining(Run(workers, bufSize, evs))
  {
    if Enabled(Run(workers, bufSize, evs), StopReturns) {
      more := [];
      assert evs + more == evs;
    } else {
      var ev := RunCloser(workers, bufSize, evs);
      var rest := LeaveQueued(workers, bufSize, evs + [ev]);
      more := [ev] + rest;
      Regroup(evs, ev, rest);
    }
  }

  lemma Regroup(evs: seq<Event>, ev: Event, rest: seq<Event>)
    ensures (evs + [ev]) + rest == evs + ([ev] + rest)
    ensures WindsDown([ev]) && WindsDown(rest) ==> WindsDown([ev] + rest)
  {
  }

  predicate Ran(p: Pool, i: nat, task: Task) {
    i < |p.slots| && p.slots[i].task == task && p.slots[i].phase.Finished? && p.slots[i].starts == 1
  }

  lemma {:induction false} QueueIsWaiting(slots: seq<Slot>, i: nat)
    ensures i in Waiting(slots) <==> i < |slots| && slots[i].phase == Queued
  {
    if slots != [] { QueueIsWaiting(slots[..|slots| - 1], i); }
  }

  // A task that goes into the buffer is sure to have run when Stop returns, whatever happens short
  // of a cancellation after that, exactly if the workers' context is not cancelled already.
  lemma BufferedRunsExactly(workers: nat, bufSize: nat, evs: seq<Event>, task: Task)
    requires 0 < workers
    requires var p := Run(workers, bufSize, evs); Accepting(p) && |p.queue| < p.bufSize
    ensures var p := Run(workers, bufSize, evs);
            (forall more :: CancelContext !in more
                            && Enabled(Run(workers, bufSize, evs + [Submit(task)] + more), StopReturns) ==>
                              Ran(Run(workers, bufSize, evs + [Submit(task)] + more), |p.slots|, task))
            <==> !p.ctxDone
  {
    var p, after := Run(workers, bufSize, evs), evs + [Submit(task)];
    Conservation(workers, bufSize, evs);
    RunMore(workers, bufSize, evs, Submit(task));
    if p.ctxDone {
      var more := CanBeDropped(workers, bufSize, after, |p.slots|);
    } else {
      forall more | CancelContext !in more && Enabled(Run(workers, bufSize, after + more), StopReturns)
        ensures Ran(Run(workers, bufSize, after + more), |p.slots|, task)
      {
        Conservation(workers, bufSize, after + more);
        RunStaffed(workers, bufSize, after, more);
        RunKeepsTasks(workers, bufSize, after, more);
        NoneBusy(Run(workers, bufSize, after + more).slots);
        NoneWaiting(Run(workers, bufSize, after + more).slots);
      }
    }
  }

  lemma CanBeDropped(workers: nat, bufSize: nat, evs: seq<Event>, i: nat) returns (more: seq<Event>)
    requires 0 < workers
    requires var p := Run(workers, bufSize, evs); p.ctxDone && i < |p.slots| && p.slots[i].phase == Queued
    ensures WindsDown(more) && CancelContext !in more
    ensures var p' := Run(workers, bufSize, evs + more);
            Enabled(p', StopReturns) && i < |p'.slots| && p'.slots[i].phase == Queued
  {
    more := LeaveQueued(workers, bufSize, evs);
    Conservation(workers, bufSize, evs);
    Conservation(workers, bufSize, evs + more);
    QueueIsWaiting(Run(workers, bufSize, evs).slots, i);
    QueueIsWaiting(Run(workers, bufSize, evs + more).slots, i);
  }

  // A cancellation that comes later can still lose every task that waits at that moment.
  lemma LaterCancellationDrops(workers: nat, bufSize: nat, evs: seq<Event>, i: nat) returns (more: seq<Event>)
    requires 0 < workers
    requires i < |Run(workers, bufSize, evs).slots| && Run(workers, bufSize, evs).slots[i].phase == Queued
    ensures WindsDown(more)
    ensures var p' := Run(workers, bufSize, evs + [CancelContext] + more);
            Enabled(p', StopReturns) && i < |p'.slots| && p'.slots[i].phase == Queued
  {
    RunMore(workers, bufSize, evs, CancelContext);
    more := CanBeDropped(workers, bufSize, evs + [CancelContext], i);
  }

  // ----- Errors -----

  // The end of a task that failed or panicked, and what it leaves.
  ghost predicate Leaves(s: Slot, e: TaskError) {
    && s.phase.Finished? && s.task.runs && e.name == s.task.name
    && match s.phase.outcome
       case Succeeded => false
       case FailedWith(text, ofContext) => !ofContext && e.error == text
       case PanickedWith(text) => e.error == "panic: " + text
  }

  lemma {:induction false} ErrorsFrom(slots: seq<Slot>, order: seq<nat>, e: TaskError)
    ensures e in ErrorsOf(slots, order) <==> exists i: nat :: i in order && i < |slots| && Leaves(slots[i], e)
  {
    if order != [] {
      var front, i := order[..|order| - 1], order[|order| - 1];
      ErrorsFrom(slots, front, e);
      assert order == front + [i];
    }
  }

  // In every run the errors are exactly those of the tasks with a function that failed, other than by
  // a cancelled context, or panicked; and the end of such a task adds one error, that of no other any.
  lemma ErrorsExactly(workers: nat, bufSize: nat, evs: seq<Event>, e: TaskError)
    requires 0 < workers
    ensures var p := Run(workers, bufSize, evs);
            e in p.errs <==> exists i :: 0 <= i < |p.slots| && Leaves(p.slots[i], e)
  {
    var p := Run(workers, bufSize, evs);
    Conservation(workers, bufSize, evs);
    ErrorsFrom(p.slots, p.finished, e);
    if i :| 0 <= i < |p.slots| && Leaves(p.slots[i], e) { assert i in p.finished; }
  }

  lemma EndAddsError(p: Pool, i: nat, outcome: Outcome)
    requires Enabled(p, Finish(i, outcome))
    ensures var p' := Next(p, Finish(i, outcome));
            && p.errs <= p'.errs && |p'.errs| <= |p.errs| + 1
            && (p'.errs == p.errs <==> forall e :: !Leaves(p'.slots[i], e))
            && (p'.errs != p.errs ==> Leaves(p'.slots[i], p'.errs[|p.errs|]))
  {
    var s := Next(p, Finish(i, outcome)).slots[i];
    match outcome
    case FailedWith(text, ofContext) =>
      if s.task.runs && !ofContext { assert Leaves(s, TaskError(s.task.name, text)); }
    case PanickedWith(text) =>
      if s.task.runs { assert Leaves(s, TaskError(s.task.name, "panic: " + text)); }
    case _ =>
  }
}
