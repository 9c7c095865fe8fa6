/**
 The Pool object of pkg/workerpool/pool.go. The methods are its atomic steps, proved to be those of
 WorkerPool; `tasks` is what the channel holds.
 */
module TaskPool {
  import opened Wrappers
  import W = WorkerPool

  datatype SubmitError = NotStarted | StoppedAlready | QueueFull

  class TaskPool {
    const workers: nat
    const bufSize: nat
    var tasks: seq<W.Task>
    var running: bool
    var stopped: bool
    var errs: seq<W.TaskError>
    ghost var model: W.Pool

    ghost predicate Valid()
      reads this
    {
      && model.workers == workers && model.bufSize == bufSize
      && model.running == running && model.stopped == stopped && model.errs == errs
      && |tasks| == |model.queue|
      && forall k :: 0 <= k < |tasks| ==> model.queue[k] < |model.slots| && tasks[k] == model.slots[model.queue[k]].task
    }

    constructor (workers: nat, bufSize: nat)
      ensures Valid() && model == W.New(workers, bufSize)
    {
      this.workers, this.bufSize := workers, bufSize;
      tasks, running, stopped, errs := [], false, false, [];
      model := W.New(workers, bufSize);
    }

    method Start()
      requires Valid()
      modifies this
      ensures Valid() && model == W.Next(old(model), W.Start)
    {
      if !running { running := true; }
      model := W.Next(model, W.Start);
    }

    // `receiver` says whether a worker is waiting at the empty channel, which takes the task at once.
    method Submit(task: W.Task, receiver: bool) returns (r: Result<(), SubmitError>)
      requires Valid() && (receiver ==> tasks == [] && W.Idle(model) > 0)
      modifies this
      ensures Valid()
      ensures model == if receiver && W.Accepting(old(model)) then W.Next(old(model), W.HandOver(task))
                       else W.Next(old(model), W.Submit(task))
      ensures r == if !old(model).running then Err(NotStarted)
                   else if old(model).stopped then Err(StoppedAlready)
                   else if receiver || |old(model).queue| < bufSize then Ok(())
                   else Err(QueueFull)
      ensures r.Ok? <==> |model.slots| == |old(model).slots| + 1
    {
      if !running { return Err(NotStarted); }
      if stopped { return Err(StoppedAlready); }
      if receiver {
        model := W.Next(model, W.HandOver(task));
        return Ok(());
      }
      if |tasks| < bufSize {
        tasks := tasks + [task];
        model := W.Next(model, W.Submit(task));
        return Ok(());
      }
      return Err(QueueFull);
    }

    // A worker takes the oldest task off the channel.
    method Take() returns (task: W.Task)
      requires Valid() && W.Inv(model) && W.Enabled(model, W.Take)
      modifies this
      ensures Valid() && model == W.Next(old(model), W.Take)
      ensures task == old(model).slots[old(model).queue[0]].task
    {
      task := tasks[0];
      tasks := tasks[1..];
      model := W.Next(model, W.Take);
    }

    // The end of a task: what recordErr gets to see.
    method ExecTask(task: W.Task, outcome: W.Outcome, ghost i: nat)
      requires Valid() && W.Enabled(model, W.Finish(i, outcome)) && model.slots[i].task == task
      modifies this
      ensures Valid() && model == W.Next(old(model), W.Finish(i, outcome))
    {
      if task.runs {
        match outcome
        case Succeeded =>
        case FailedWith(e, ofContext) =>
          if !ofContext { errs := errs + [W.TaskError(task.name, e)]; }
        case PanickedWith(m) => errs := errs + [W.TaskError(task.name, "panic: " + m)];
      }
      model := W.Next(model, W.Finish(i, outcome));
    }

    // Stop closes the channel once, ...
    method CloseTasks()
      requires Valid()
      modifies this
      ensures Valid() && model == W.Next(old(model), W.CloseQueue)
    {
      if !stopped { stopped := true; }
      model := W.Next(model, W.CloseQueue);
    }

    // ... and when all workers have left, returns the errors recorded.
    method StopReturns() returns (errors: seq<W.TaskError>)
      requires Valid() && W.Enabled(model, W.StopReturns)
      modifies this
      ensures Valid() && model == W.Next(old(model), W.StopReturns) && errors == model.errs
    {
      running := false;
      model := W.Next(model, W.StopReturns);
      return errs;
    }
  }

  // The options: a buffer of four tasks a worker unless given, a negative one counting as none.
  method NewPool(workers: int, buffer: Option<int>) returns (r: Result<TaskPool, string>)
    ensures r.Err? <==> workers <= 0
    ensures r.Ok? ==> fresh(r.value) && r.value.Valid()
                      && r.value.model == W.New(workers, if buffer == None then 4 * workers
                                                         else if buffer.value < 0 then 0 else buffer.value)
  {
    if workers <= 0 { return Err("workerpool: workers must be > 0"); }
    var bufSize := workers * 4;
    if buffer.Some? {
      bufSize := if buffer.value < 0 then 0 else buffer.value;
    }
    var p := new TaskPool(workers, bufSize);
    return Ok(p);
  }
}
