/** Console stops at any time: what every run keeps although a stop may meet a task that
    stops itself, and exactly when such a stop ends well. */
module SnifferStops {
  import opened SnifferLifecycle

  // ---------------------------------------------------------------- the weak invariant

  predicate Off(rt: Shared, task: TaskPc) { task == TaskDone && NoHandles(rt) }

  predicate SemNulled(pc: StopPc) {
    pc.StopCount? || pc.StopDrain? || pc.StopFree? || pc.StopDeleteQueue? || pc.StopNullQueue? || pc.StopPcap?
  }

  /** What a thread in `sniffer_stop` can rely on when another one may be there too: the
      queue never holds more than it still drains, and a handle it nulled stays null. */
  predicate Bounded(rt: Shared, pc: StopPc) {
    && (pc.StopDrain? && rt.queue.Queue? ==> |rt.queue.items| <= pc.left)
    && (pc.StopFree? && rt.queue.Queue? ==> |rt.queue.items| <= pc.rest)
    && (pc.StopDeleteQueue? && rt.queue.Queue? ==> rt.queue.items == [])
    && (pc.StopNullQueue? ==> !rt.queue.Queue?)
    && (SemNulled(pc) ==> rt.sem == NoSem)
    && (pc.StopPcap? ==> rt.queue == NoQueue)
  }

  /** A task that holds no packet and takes none: its limit is 0. */
  predicate Leaving(rt: Shared, task: TaskPc) {
    || task.TaskLoop? || task.TaskLimit? || task.TaskCheckGive? || task.TaskDone?
    || (task.TaskStop? && task.stop != StopTake && Bounded(rt, task.stop))
  }

  /** A task that a finished console stop has not waited for. */
  predicate Trailing(rt: Shared, task: TaskPc) { NoHandles(rt) && rt.limit == 0 && Leaving(rt, task) }

  predicate Quiet(rt: Shared, task: TaskPc) {
    Off(rt, task) || On(rt, task) || SelfStopping(rt, task) || Trailing(rt, task)
  }

  /** The console saw a limit, or will see one, and the task has given or may still give. */
  predicate Awaited(rt: Shared, task: TaskPc) {
    && rt.queue.Queue? && rt.writing
    && if rt.sem == Sem(true) then task == TaskDone else rt.sem == Sem(false) && Ending(task)
  }

  /** The console waits, and the task has counted the limit down to 0. */
  predicate Hung(rt: Shared, task: TaskPc) {
    rt.queue.Queue? && rt.sem == Sem(false) && (task.TaskLoop? || task.TaskCheckGive? || task.TaskDone?)
  }

  predicate Cleared(pc: StopPc) { !pc.StopCheck? && !pc.StopDriver? && !pc.StopClear? }

  /** A console stop that has cleared `is_running`. */
  predicate ClearedPhase(rt: Shared, task: TaskPc, pc: StopPc) {
    && Cleared(pc) && !rt.running && !rt.promiscuous
    && if rt.limit != 0 then
         if pc.StopReadLimit? || pc.StopTake? then Awaited(rt, task) else task == TaskDone && Bounded(rt, pc)
       else if pc.StopTake? then Hung(rt, task)
       else Leaving(rt, task) && Bounded(rt, pc)
  }

  predicate LoosePhase(rt: Shared, task: TaskPc, console: ConsolePc) {
    match console
    case Idle => Quiet(rt, task)
    case Starting(pc) => StartPhase(rt, task, pc)
    case Stopping(StopCheck) => Quiet(rt, task)
    case Stopping(pc) =>
      if Cleared(pc) then ClearedPhase(rt, task, pc)
      else
        && (pc.StopClear? ==> !rt.promiscuous)
        && ((Off(rt, task) && rt.limit == 0) || On(rt, task) || SelfStopping(rt, task))
  }

  ghost predicate LooseInv(s: State) {
    OnlyCurrent(s) && Conserved(s.rt, Cur(s), s.console) && LoosePhase(s.rt, Cur(s), s.console)
  }

  // ---------------------------------------------------------------- its preservation

  lemma BoundedStep(rt: Shared, pc: StopPc, ok: bool)
    requires Bounded(rt, pc)
    ensures var (rt', pc') := StopStep(rt, pc, ok);
      && (pc'.Some? ==> Bounded(rt', pc'.value))
      && (pc.StopPcap? ==> rt'.sem == NoSem && rt'.queue == NoQueue)
  {
  }

  lemma BoundedBesides(rt: Shared, pc: StopPc, ok: bool, other: StopPc)
    requires Bounded(rt, other)
    ensures Bounded(StopStep(rt, pc, ok).0, other)
  {
  }

  lemma LeavingBesides(rt: Shared, pc: StopPc, ok: bool, task: TaskPc)
    ensures Leaving(rt, task) ==> Leaving(StopStep(rt, pc, ok).0, task)
  {
    hide StopStep, Bounded;
    if task.TaskStop? && Leaving(rt, task) { BoundedBesides(rt, pc, ok, task.stop); }
  }

  /** A step of a task that is leaving. */
  lemma LeavingStep(rt: Shared, task: TaskPc, ok: bool, pc: StopPc)
    requires Leaving(rt, task) && !rt.running && !rt.promiscuous && rt.limit == 0 && Bounded(rt, pc)
    ensures var (rt', task') := TaskAdvance(rt, task, ok);
      && Leaving(rt', task') && !rt'.running && !rt'.promiscuous && rt'.limit == 0 && Bounded(rt', pc)
      && (NoHandles(rt) ==> NoHandles(rt'))
  {
    if task.TaskStop? {
      BoundedStep(rt, task.stop, ok);
      BoundedBesides(rt, task.stop, ok, pc);
    }
  }

  lemma OnStep(rt: Shared, task: TaskPc, ok: bool)
    requires On(rt, task)
    ensures var (rt', task') := TaskAdvance(rt, task, ok);
      && (On(rt', task') || SelfStopping(rt', task')) && rt'.promiscuous == rt.promiscuous
      && (rt.limit < 0 ==> On(rt', task') && rt'.limit < 0)
  {
  }

  lemma SelfStoppingStep(rt: Shared, task: TaskPc, ok: bool)
    requires SelfStopping(rt, task) && (task.TaskStop? && task.stop.StopFree? ==> task.stop.packet !in rt.freed)
    requires task == TaskStop(StopDriver) ==> ok
    ensures var (rt', task') := TaskAdvance(rt, task, ok);
      && (SelfStopping(rt', task') || (Off(rt', task') && rt'.limit == 0))
      && (!rt.promiscuous ==> !rt'.promiscuous) && rt'.fault == rt.fault
  {
    if task.TaskStop? { StopStepResources(rt, task.stop, ok); }
  }

  lemma AwaitedStep(rt: Shared, task: TaskPc, ok: bool)
    requires Awaited(rt, task) && task != TaskDone && rt.limit != 0 && !rt.running && !rt.promiscuous
    ensures var (rt', task') := TaskAdvance(rt, task, ok);
      && !rt'.running && !rt'.promiscuous
      && (rt'.limit != 0 ==> Awaited(rt', task')) && (rt'.limit == 0 ==> task'.TaskLoop? && Hung(rt', task'))
  {
  }

  lemma HungStep(rt: Shared, task: TaskPc, ok: bool)
    requires Hung(rt, task) && rt.limit == 0 && !rt.running
    ensures var (rt', task') := TaskAdvance(rt, task, ok); rt' == rt && Hung(rt', task')
  {
  }

  lemma NothingBounded(rt: Shared, pc: StopPc)
    requires pc.StopCheck? || pc.StopReadLimit? || pc.StopTake?
    ensures Bounded(rt, pc)
  {
  }

  lemma LoopLeaves(rt: Shared)
    ensures Leaving(rt, TaskLoop)
  {
  }

  lemma StartingTaskPhase(rt: Shared, task: TaskPc, pc: StartPc, ok: bool)
    requires StartPhase(rt, task, pc) && task != TaskDone
    ensures var (rt', task') := TaskAdvance(rt, task, ok); StartPhase(rt', task', pc)
  {
  }

  /** A step of the task. */
  lemma LooseTaskPhase(rt: Shared, task: TaskPc, console: ConsolePc, ok: bool)
    requires LoosePhase(rt, task, console) && task != TaskDone && (task == TaskStop(StopDriver) ==> ok)
    requires task.TaskStop? && task.stop.StopFree? ==> task.stop.packet !in rt.freed
    ensures var (rt', task') := TaskAdvance(rt, task, ok); LoosePhase(rt', task', console)
  {
    hide TaskAdvance, On, SelfStopping, Awaited, Hung, Leaving, Bounded;
    if console.Starting? {
      StartingTaskPhase(rt, task, console.start, ok);
    } else if On(rt, task) && (console.Idle? || !Cleared(console.stop)) {
      OnStep(rt, task, ok);
    } else if SelfStopping(rt, task) && (console.Idle? || !Cleared(console.stop)) {
      SelfStoppingStep(rt, task, ok);
    } else if console.Idle? || !Cleared(console.stop) {
      NothingBounded(rt, StopCheck);
      LeavingStep(rt, task, ok, StopCheck);
    } else if rt.limit != 0 {
      AwaitedStep(rt, task, ok);
      NothingBounded(TaskAdvance(rt, task, ok).0, StopReadLimit);
      LoopLeaves(TaskAdvance(rt, task, ok).0);
    } else if console.stop.StopTake? {
      HungStep(rt, task, ok);
    } else {
      LeavingStep(rt, task, ok, console.stop);
    }
  }

  lemma DriverStep(rt: Shared, task: TaskPc, pc: StopPc, ok: bool)
    requires LoosePhase(rt, task, Stopping(pc)) && (pc.StopCheck? || pc.StopDriver?)
    ensures var (rt', pc') := StopStep(rt, pc, ok);
      LoosePhase(rt', task, if pc'.Some? then Stopping(pc'.value) else Idle)
  {
  }

  lemma ClearingStep(rt: Shared, task: TaskPc)
    requires LoosePhase(rt, task, Stopping(StopClear))
    ensures ClearedPhase(rt.(running := false), task, StopReadLimit)
  {
  }

  lemma ReadLimitStep(rt: Shared, task: TaskPc, ok: bool)
    requires ClearedPhase(rt, task, StopReadLimit)
    ensures ClearedPhase(rt, task, if rt.limit != 0 then StopTake else StopDeleteSem)
  {
  }

  lemma TakeStep(rt: Shared, task: TaskPc)
    requires ClearedPhase(rt, task, StopTake) && rt.sem != Sem(false)
    ensures ClearedPhase(StopStep(rt, StopTake, true).0, task, StopDeleteSem)
  {
  }

  /** What a stop that no longer waits leaves alone, and where it goes. */
  lemma LateStep(rt: Shared, pc: StopPc, ok: bool)
    requires Cleared(pc) && !pc.StopReadLimit? && !pc.StopTake?
    ensures var (rt', pc') := StopStep(rt, pc, ok);
      && rt'.running == rt.running && rt'.promiscuous == rt.promiscuous && rt'.limit == rt.limit
      && (pc'.None? <==> pc.StopPcap?)
      && (pc'.Some? ==> Cleared(pc'.value) && !pc'.value.StopReadLimit? && !pc'.value.StopTake?)
  {
  }

  lemma ClearedStep(rt: Shared, task: TaskPc, pc: StopPc, ok: bool)
    requires ClearedPhase(rt, task, pc) && StopReady(rt, pc)
    ensures var (rt', pc') := StopStep(rt, pc, ok);
      LoosePhase(rt', task, if pc'.Some? then Stopping(pc'.value) else Idle)
  {
    hide Bounded, Leaving, Awaited, Hung, On, SelfStopping;
    if pc.StopReadLimit? {
      ReadLimitStep(rt, task, ok);
    } else if pc.StopTake? {
      TakeStep(rt, task);
    } else {
      hide StopStep;
      LateStep(rt, pc, ok);
      BoundedStep(rt, pc, ok);
      LeavingBesides(rt, pc, ok, task);
    }
  }

  /** A step of a console stop. */
  lemma LooseStopPhase(rt: Shared, task: TaskPc, pc: StopPc, ok: bool)
    requires LoosePhase(rt, task, Stopping(pc)) && StopReady(rt, pc)
    ensures var (rt', pc') := StopStep(rt, pc, ok);
      LoosePhase(rt', task, if pc'.Some? then Stopping(pc'.value) else Idle)
  {
    hide Quiet, On, SelfStopping, ClearedPhase, Off;
    if Cleared(pc) {
      ClearedStep(rt, task, pc, ok);
    } else if pc.StopClear? {
      ClearingStep(rt, task);
    } else {
      DriverStep(rt, task, pc, ok);
    }
  }

  // ---------------------------------------------------------------- nothing is lost

  lemma LooseTaskPlaces(rt: Shared, task: TaskPc, console: ConsolePc, ok: bool, id: nat)
    requires LoosePhase(rt, task, console) && task != TaskDone
    ensures var (rt', task') := TaskAdvance(rt, task, ok);
      Places(rt', task', console, id) == Places(rt, task, console, id)
  {
    if Capturing(task) {
      CapturePlaces(rt, task, ok, id);
    } else if task.TaskStop? {
      StopStepConserves(rt, task.stop, ok, id);
    }
  }

  lemma LooseStopPlaces(rt: Shared, task: TaskPc, pc: StopPc, ok: bool, id: nat)
    requires LoosePhase(rt, task, Stopping(pc))
    ensures var (rt', pc') := StopStep(rt, pc, ok);
      Places(rt', task, if pc'.Some? then Stopping(pc'.value) else Idle, id) == Places(rt, task, Stopping(pc), id)
  {
    StopStepConserves(rt, pc, ok, id);
  }

  /** What a callback leaves alone. */
  predicate QueuedMore(rt: Shared, rt': Shared) {
    rt'.queue.Queue? && rt' == rt.(next := rt'.next, freed := rt'.freed, queue := rt'.queue, fault := rt'.fault)
  }

  lemma CallbackShape(rt: Shared, copied: bool)
    requires rt.queue.Queue?
    ensures QueuedMore(rt, Callback(rt, copied))
  {
  }

  lemma OnBesides(rt: Shared, rt': Shared, task: TaskPc)
    requires QueuedMore(rt, rt')
    ensures On(rt, task) ==> On(rt', task)
  {
  }

  lemma LooseCallbackBesides(rt: Shared, rt': Shared, task: TaskPc, console: ConsolePc)
    requires LoosePhase(rt, task, console) && rt.promiscuous && !console.Starting? && QueuedMore(rt, rt')
    ensures LoosePhase(rt', task, console)
  {
  }

  lemma LooseCallback(rt: Shared, task: TaskPc, console: ConsolePc, copied: bool)
    requires LoosePhase(rt, task, console) && rt.promiscuous
    ensures rt.queue.Queue? && LoosePhase(Callback(rt, copied), task, console)
  {
    hide Callback;
    assert rt.queue.Queue?;
    CallbackShape(rt, copied);
    if console.Starting? {
      OnBesides(rt, Callback(rt, copied), task);
    } else {
      hide LoosePhase;
      LooseCallbackBesides(rt, Callback(rt, copied), task, console);
    }
  }

  lemma LooseCommand(s: State, e: Event)
    requires LooseInv(s) && Enabled(s, e) && Allowed(AnyStop, s, e) && (e.CommandStart? || e.CommandStop?)
    ensures LooseInv(Apply(s, e))
  {
    var s' := Apply(s, e);
    forall id: nat ensures Places(s'.rt, Cur(s'), s'.console, id) == Places(s.rt, Cur(s), s.console, id) {
    }
  }

  lemma HeldByTask(rt: Shared, task: TaskPc, console: ConsolePc, p: nat)
    requires Conserved(rt, task, console) && TaskHand(task, p) == 1
    ensures p !in rt.freed
  {
    assert Places(rt, task, console, p) <= 1;
  }

  lemma StopKeepsNext(rt: Shared, pc: StopPc, ok: bool)
    ensures StopStep(rt, pc, ok).0.next == rt.next
  {
  }

  lemma TaskKeepsNext(rt: Shared, task: TaskPc, ok: bool)
    ensures TaskAdvance(rt, task, ok).0.next == rt.next
  {
    hide StopStep;
    if task.TaskStop? { StopKeepsNext(rt, task.stop, ok); }
  }

  lemma LooseTaskKeeps(s: State, ok: bool)
    requires LooseInv(s) && Enabled(s, TaskStep(s.current, ok)) && Disciplined(s, TaskStep(s.current, ok))
    ensures LooseInv(Apply(s, TaskStep(s.current, ok)))
  {
    hide LoosePhase, TaskAdvance, Places;
    var task, s' := Cur(s), Apply(s, TaskStep(s.current, ok));
    if task.TaskStop? && task.stop.StopFree? { HeldByTask(s.rt, task, s.console, task.stop.packet); }
    LooseTaskPhase(s.rt, task, s.console, ok);
    TaskKeepsNext(s.rt, task, ok);
    forall id: nat ensures Places(s'.rt, Cur(s'), s'.console, id) == Places(s.rt, task, s.console, id) {
      LooseTaskPlaces(s.rt, task, s.console, ok, id);
    }
  }

  lemma StartEndsQuiet(rt: Shared, task: TaskPc, pc: StartPc, ok: bool)
    requires StartPhase(rt, task, pc)
    ensures var (rt', pc') := StartStep(rt, pc, ok);
      pc' == Idle ==> Quiet(rt', StartedTask(task, pc, ok))
  {
  }

  lemma LooseStartKeeps(s: State, ok: bool)
    requires LooseInv(s) && s.console.Starting?
    ensures LooseInv(Apply(s, ConsoleStep(ok)))
  {
    var pc := s.console.start;
    StartPhaseKeeps(s.rt, Cur(s), pc, ok);
    StartConserves(s.rt, Cur(s), pc, ok);
    StartEndsQuiet(s.rt, Cur(s), pc, ok);
    var s' := Apply(s, ConsoleStep(ok));
    assert Cur(s') == StartedTask(Cur(s), pc, ok);
  }

  lemma LooseStopKeeps(s: State, ok: bool)
    requires LooseInv(s) && s.console.Stopping? && Enabled(s, ConsoleStep(ok))
    ensures LooseInv(Apply(s, ConsoleStep(ok)))
  {
    hide LoosePhase, StopStep, Places;
    var pc, s' := s.console.stop, Apply(s, ConsoleStep(ok));
    LooseStopPhase(s.rt, Cur(s), pc, ok);
    StopKeepsNext(s.rt, pc, ok);
    forall id: nat ensures Places(s'.rt, Cur(s'), s'.console, id) == Places(s.rt, Cur(s), s.console, id) {
      LooseStopPlaces(s.rt, Cur(s), pc, ok, id);
    }
  }

  lemma LooseKeeps(s: State, e: Event)
    requires LooseInv(s) && Enabled(s, e) && Allowed(AnyStop, s, e)
    ensures LooseInv(Apply(s, e))
  {
    hide LoosePhase, Callback, StopStep, StartStep, TaskAdvance, Places;
    match e
    case CommandStart(_) => LooseCommand(s, e);
    case CommandStop => LooseCommand(s, e);
    case DriverCallback(copied) =>
      LooseCallback(s.rt, Cur(s), s.console, copied);
      CallbackConserves(s.rt, Cur(s), s.console, copied);
    case TaskStep(t, ok) => LooseTaskKeeps(s, ok);
    case ConsoleStep(ok) =>
      if s.console.Starting? { LooseStartKeeps(s, ok); } else { LooseStopKeeps(s, ok); }
  }

  lemma InitIsLoose(capacity: nat)
    ensures LooseInv(Init(capacity))
  {
  }

  lemma {:induction false} RunKeepsLooseInv(capacity: nat, es: seq<Event>)
    requires RunUnder(AnyStop, capacity, es)
    ensures LooseInv(After(capacity, es))
  {
    hide LooseInv, Allowed, Apply, Enabled;
    if es != [] {
      RunKeepsLooseInv(capacity, es[..|es| - 1]);
      LooseKeeps(After(capacity, es[..|es| - 1]), es[|es| - 1]);
    } else {
      InitIsLoose(capacity);
    }
  }

  /** In every run with disciplined starts, and with console stops at any time, no copy is
      lost or freed twice, and at most one task is in the capture loop, even where two stops
      overlap. */
  lemma AnyStopLosesNothing(capacity: nat, es: seq<Event>)
    requires RunUnder(AnyStop, capacity, es)
    ensures var s := After(capacity, es);
      && (forall t, u | t in s.tasks && u in s.tasks :: InLoop(s.tasks[t]) && InLoop(s.tasks[u]) ==> t == u)
      && (forall id: nat :: Places(s.rt, Cur(s), s.console, id) == if id < s.rt.next then 1 else 0)
  {
    RunKeepsLooseInv(capacity, es);
  }
}
