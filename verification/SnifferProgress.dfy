/** The end of a limited capture comes: a bound on the steps of the task once the limit is
    used up. */
module SnifferProgress {
  import opened SnifferLifecycle
  import opened SnifferStopEnds

  /** The steps that a task with the limit at 0 makes to its end, with at most `capacity`
      copies queued. */
  function StepsToEnd(capacity: nat, task: TaskPc): nat {
    match task
    case TaskLoop => 15 + 2 * capacity
    case TaskLimit => 14 + 2 * capacity
    case TaskStop(pc) => 1 + StopStepsWith(capacity, pc)
    case TaskCheckGive => 1
    case _ => 0
  }

  /** A limited capture that has its packets, and whose task is not done. */
  predicate LimitUsedUp(s: State) { 0 < s.rt.requested && s.rt.limit == 0 && Cur(s) != TaskDone }

  predicate QueueFits(rt: Shared) { rt.queue.Queue? ==> |rt.queue.items| <= rt.capacity }

  lemma StopKeepsFit(rt: Shared, pc: StopPc, ok: bool)
    requires QueueFits(rt)
    ensures var rt' := StopStep(rt, pc, ok).0; QueueFits(rt') && rt'.capacity == rt.capacity
  {
  }

  lemma TaskKeepsFit(rt: Shared, task: TaskPc, ok: bool)
    requires QueueFits(rt)
    ensures var rt' := TaskAdvance(rt, task, ok).0; QueueFits(rt') && rt'.capacity == rt.capacity
  {
    hide StopStep;
    if task.TaskStop? { StopKeepsFit(rt, task.stop, ok); }
  }

  lemma StartKeepsFit(rt: Shared, pc: StartPc, ok: bool)
    requires QueueFits(rt)
    ensures var rt' := StartStep(rt, pc, ok).0; QueueFits(rt') && rt'.capacity == rt.capacity
  {
  }

  lemma CallbackKeepsFit(rt: Shared, copied: bool)
    requires QueueFits(rt)
    ensures var rt' := Callback(rt, copied); QueueFits(rt') && rt'.capacity == rt.capacity
  {
  }

  lemma StepKeepsFit(s: State, e: Event)
    requires QueueFits(s.rt) && Enabled(s, e)
    ensures QueueFits(Apply(s, e).rt) && Apply(s, e).rt.capacity == s.rt.capacity
  {
    hide TaskAdvance, StopStep, StartStep, Callback;
    match e
    case CommandStart(_) =>
    case CommandStop =>
    case DriverCallback(copied) => CallbackKeepsFit(s.rt, copied);
    case TaskStep(t, ok) => TaskKeepsFit(s.rt, s.tasks[t], ok);
    case ConsoleStep(ok) =>
      if s.console.Starting? { StartKeepsFit(s.rt, s.console.start, ok); }
      else { StopKeepsFit(s.rt, s.console.stop, ok); }
  }

  lemma {:induction false} RunKeepsFit(capacity: nat, es: seq<Event>)
    requires Run(capacity, es)
    ensures QueueFits(After(capacity, es).rt) && After(capacity, es).rt.capacity == capacity
  {
    hide Apply, Enabled;
    if es != [] {
      RunKeepsFit(capacity, es[..|es| - 1]);
      StepKeepsFit(After(capacity, es[..|es| - 1]), es[|es| - 1]);
    }
  }

  /** The task is at the top of its loop or stops itself, and the console is idle. */
  lemma UsedUpPhase(s: State)
    requires Inv(s) && LimitUsedUp(s)
    ensures s.console == Idle
    ensures (On(s.rt, Cur(s)) && (Cur(s).TaskLoop? || Cur(s).TaskLimit?)) || SelfStopping(s.rt, Cur(s))
  {
  }

  lemma UsedUpAdvance(rt: Shared, task: TaskPc, ok: bool)
    requires (On(rt, task) && (task.TaskLoop? || task.TaskLimit?)) || SelfStopping(rt, task)
    requires rt.limit == 0 && QueueFits(rt) && (task == TaskStop(StopDriver) ==> ok)
    ensures var (rt', task') := TaskAdvance(rt, task, ok);
      && StepsToEnd(rt.capacity, task') < StepsToEnd(rt.capacity, task)
      && rt'.limit == 0 && rt'.requested == rt.requested
  {
  }

  lemma CallbackKeepsLimit(rt: Shared, copied: bool)
    ensures Callback(rt, copied).limit == rt.limit && Callback(rt, copied).requested == rt.requested
  {
  }

  /** Each step of the task brings its end nearer, and nothing else puts it off. */
  lemma UsedUpStep(s: State, e: Event)
    requires Inv(s) && QueueFits(s.rt) && LimitUsedUp(s) && Enabled(s, e) && Disciplined(s, e)
    ensures var s' := Apply(s, e);
      && (Cur(s') != TaskDone ==> LimitUsedUp(s'))
      && (if e.TaskStep? then StepsToEnd(s.rt.capacity, Cur(s')) < StepsToEnd(s.rt.capacity, Cur(s))
          else Cur(s') == Cur(s))
  {
    hide TaskAdvance, Callback, SelfStopping, On, Conserved;
    UsedUpPhase(s);
    match e
    case TaskStep(t, ok) => UsedUpAdvance(s.rt, Cur(s), ok);
    case DriverCallback(copied) => CallbackKeepsLimit(s.rt, copied);
    case _ =>
  }

  // ---------------------------------------------------------------- what follows

  /** Disciplined steps that follow while the current task is not done. */
  predicate TaskRun(s: State, fs: seq<Event>)
    decreases |fs|, 0
  {
    fs == [] ||
    (var before := fs[..|fs| - 1];
     && TaskRun(s, before)
     && var t, e := AfterTask(s, before), fs[|fs| - 1];
        Cur(t) != TaskDone && Enabled(t, e) && Disciplined(t, e))
  }

  function AfterTask(s: State, fs: seq<Event>): State
    requires TaskRun(s, fs)
    decreases |fs|, 1
  {
    if fs == [] then s else Apply(AfterTask(s, fs[..|fs| - 1]), fs[|fs| - 1])
  }

  function TaskSteps(fs: seq<Event>): nat {
    if fs == [] then 0 else TaskSteps(fs[..|fs| - 1]) + if fs[|fs| - 1].TaskStep? then 1 else 0
  }

  lemma {:induction false} UsedUpRun(s: State, fs: seq<Event>)
    requires Inv(s) && QueueFits(s.rt) && LimitUsedUp(s) && TaskRun(s, fs)
    ensures var t := AfterTask(s, fs);
      && Inv(t) && QueueFits(t.rt) && t.rt.capacity == s.rt.capacity && (Cur(t) != TaskDone ==> LimitUsedUp(t))
      && TaskSteps(fs) + StepsToEnd(s.rt.capacity, Cur(t)) <= StepsToEnd(s.rt.capacity, Cur(s))
    decreases |fs|
  {
    hide Inv, Apply, Enabled, Disciplined, StepsToEnd, QueueFits, LimitUsedUp;
    if fs != [] {
      var t, e := AfterTask(s, fs[..|fs| - 1]), fs[|fs| - 1];
      UsedUpRun(s, fs[..|fs| - 1]);
      UsedUpStep(t, e);
      StepKeepsFit(t, e);
      ApplyKeeps(t, e);
    }
  }

  /** Once a limited capture has its packets, its task makes at most 15 steps of its own,
      and two for each place in the queue, before it is done, whatever else happens. */
  lemma LimitedTaskEnds(capacity: nat, es: seq<Event>, fs: seq<Event>)
    requires RunUnder(Strict, capacity, es) && LimitUsedUp(After(capacity, es)) && TaskRun(After(capacity, es), fs)
    ensures TaskSteps(fs) <= 15 + 2 * capacity
    ensures TaskSteps(fs) == 15 + 2 * capacity ==> Cur(AfterTask(After(capacity, es), fs)) == TaskDone
  {
    hide Apply, Enabled, Disciplined, Conserved;
    RunKeepsInv(capacity, es);
    RunKeepsFit(capacity, es);
    var s := After(capacity, es);
    UsedUpRun(s, fs);
    UsedUpPhase(s);
    var t := AfterTask(s, fs);
    if Cur(t) != TaskDone { UsedUpPhase(t); }
  }
}
