/** The safety of a capture under every interleaving, with console stops at any time. */
module SnifferSafety {
  import opened SnifferLifecycle
  import opened SnifferStops
  import opened SnifferStopEnds
  import opened SnifferWindow

  /** A task that stops itself has the handles to itself. */
  predicate Neat(rt: Shared, task: TaskPc, console: ConsolePc) {
    match console
    case Starting(_) => true
    case Idle => StopsItself(task) ==> SelfStopping(rt, task)
    case Stopping(pc) =>
      if Cleared(pc) then ParkedPhase(rt, task, pc) else StopsItself(task) ==> SelfStopping(rt, task)
  }

  ghost predicate OrderlyInv(s: State) { LooseInv(s) && !s.rt.fault && Neat(s.rt, Cur(s), s.console) }

  lemma OnFault(rt: Shared, task: TaskPc, ok: bool)
    requires On(rt, task) && (task.TaskFree? ==> task.handed !in rt.freed)
    ensures TaskAdvance(rt, task, ok).0.fault == rt.fault
  {
  }

  lemma StartingFault(rt: Shared, task: TaskPc, pc: StartPc, ok: bool)
    requires StartPhase(rt, task, pc) && task != TaskDone && (task.TaskFree? ==> task.handed !in rt.freed)
    ensures TaskAdvance(rt, task, ok).0.fault == rt.fault
  {
    OnFault(rt, task, ok);
  }

  lemma OnCaptures(rt: Shared, task: TaskPc)
    ensures On(rt, task) ==> !StopsItself(task)
  {
  }

  lemma NeatTaskStep(rt: Shared, task: TaskPc, console: ConsolePc, ok: bool)
    requires LoosePhase(rt, task, console) && Neat(rt, task, console) && task != TaskDone
    requires task == TaskStop(StopDriver) ==> ok
    requires task.TaskFree? ==> task.handed !in rt.freed
    requires task.TaskStop? && task.stop.StopFree? ==> task.stop.packet !in rt.freed
    ensures var (rt', task') := TaskAdvance(rt, task, ok);
      rt'.fault == rt.fault && Neat(rt', task', console)
  {
    hide TaskAdvance, On, SelfStopping, ParkedPhase, ClearedPhase, Leaving;
    if console.Starting? {
      StartingFault(rt, task, console.start, ok);
    } else if console.Stopping? && Cleared(console.stop) {
      ParkedTaskStep(rt, task, console.stop, ok);
    } else if On(rt, task) {
      OnStep(rt, task, ok);
      OnFault(rt, task, ok);
      OnCaptures(TaskAdvance(rt, task, ok).0, TaskAdvance(rt, task, ok).1);
    } else if SelfStopping(rt, task) {
      SelfStoppingStep(rt, task, ok);
    } else {
      LeavingTaskStep(rt, task, ok);
    }
  }

  lemma ParkedStaysCleared(rt: Shared, pc: StopPc, ok: bool)
    requires Cleared(pc)
    ensures var pc' := StopStep(rt, pc, ok).1; pc'.Some? ==> Cleared(pc'.value)
  {
  }

  lemma NeatStopStep(rt: Shared, task: TaskPc, pc: StopPc, ok: bool)
    requires LoosePhase(rt, task, Stopping(pc)) && Neat(rt, task, Stopping(pc)) && StopReady(rt, pc)
    requires pc.StopClear? ==> ClearWindow(rt, task)
    requires pc.StopFree? ==> pc.packet !in rt.freed
    ensures var (rt', pc') := StopStep(rt, pc, ok);
      rt'.fault == rt.fault && Neat(rt', task, if pc'.Some? then Stopping(pc'.value) else Idle)
  {
    hide ParkedPhase, LoosePhase, ClearWindow;
    if Cleared(pc) {
      ParkedStopStep(rt, task, pc, ok);
      ParkedStaysCleared(rt, pc, ok);
    } else if pc.StopClear? {
      WindowParks(rt, task);
    }
  }

  lemma NeatCallback(rt: Shared, task: TaskPc, console: ConsolePc, copied: bool)
    requires LoosePhase(rt, task, console) && Neat(rt, task, console) && rt.promiscuous
    ensures Neat(Callback(rt, copied), task, console)
  {
    hide On;
    if console.Stopping? && Cleared(console.stop) {
      ParkedIsSilent(rt, task, console.stop);
    }
  }

  lemma NeatStart(rt: Shared, task: TaskPc, pc: StartPc, ok: bool)
    requires StartPhase(rt, task, pc)
    ensures var (rt', pc') := StartStep(rt, pc, ok); Neat(rt', StartedTask(task, pc, ok), pc')
  {
  }

  lemma NeatStartStep(s: State, ok: bool)
    requires OrderlyInv(s) && s.console.Starting?
    ensures var s' := Apply(s, ConsoleStep(ok)); !s'.rt.fault && Neat(s'.rt, Cur(s'), s'.console)
  {
    hide Neat, Places, StartStep;
    var pc, s' := s.console.start, Apply(s, ConsoleStep(ok));
    assert StartPhase(s.rt, Cur(s), pc);
    StartConserves(s.rt, Cur(s), pc, ok);
    NeatStart(s.rt, Cur(s), pc, ok);
    assert Cur(s') == StartedTask(Cur(s), pc, ok);
  }

  lemma NeatConsoleStep(s: State, ok: bool)
    requires OrderlyInv(s) && s.console.Stopping? && Enabled(s, ConsoleStep(ok)) && Allowed(Orderly, s, ConsoleStep(ok))
    ensures var s' := Apply(s, ConsoleStep(ok)); !s'.rt.fault && Neat(s'.rt, Cur(s'), s'.console)
  {
    hide LoosePhase, Neat, Places, StopStep, ClearWindow;
    var pc := s.console.stop;
    if pc.StopFree? { HeldByStop(s.rt, Cur(s), pc); }
    NeatStopStep(s.rt, Cur(s), pc, ok);
    assert Cur(Apply(s, ConsoleStep(ok))) == Cur(s);
  }

  lemma NeatCommand(s: State, e: Event)
    requires OrderlyInv(s) && Enabled(s, e) && (e.CommandStart? || e.CommandStop?)
    ensures var s' := Apply(s, e); !s'.rt.fault && Neat(s'.rt, Cur(s'), s'.console)
  {
  }

  lemma OrderlyKeeps(s: State, e: Event)
    requires OrderlyInv(s) && Enabled(s, e) && Allowed(Orderly, s, e)
    ensures OrderlyInv(Apply(s, e))
  {
    hide LoosePhase, Neat, Callback, StopStep, StartStep, TaskAdvance, Places, ClearWindow;
    LooseKeeps(s, e);
    var s', task := Apply(s, e), Cur(s);
    match e
    case CommandStart(_) => NeatCommand(s, e);
    case CommandStop => NeatCommand(s, e);
    case DriverCallback(copied) =>
      LooseCallback(s.rt, task, s.console, copied);
      NeatCallback(s.rt, task, s.console, copied);
      CallbackConserves(s.rt, task, s.console, copied);
    case TaskStep(t, ok) =>
      if task.TaskFree? { HeldByTask(s.rt, task, s.console, task.handed); }
      if task.TaskStop? && task.stop.StopFree? { HeldByTask(s.rt, task, s.console, task.stop.packet); }
      NeatTaskStep(s.rt, task, s.console, ok);
    case ConsoleStep(ok) =>
      if s.console.Starting? { NeatStartStep(s, ok); } else { NeatConsoleStep(s, ok); }
  }

  lemma OrderlyIsAnyStop(capacity: nat, es: seq<Event>)
    requires RunUnder(Orderly, capacity, es)
    ensures RunUnder(AnyStop, capacity, es)
  {
    if es != [] { OrderlyIsAnyStop(capacity, es[..|es| - 1]); }
  }

  lemma InitIsOrderly(capacity: nat)
    ensures OrderlyInv(Init(capacity))
  {
    InitIsLoose(capacity);
  }

  lemma {:induction false} RunKeepsOrderlyInv(capacity: nat, es: seq<Event>)
    requires RunUnder(Orderly, capacity, es)
    ensures OrderlyInv(After(capacity, es))
  {
    hide OrderlyInv, Allowed, Apply, Enabled;
    if es != [] {
      RunKeepsOrderlyInv(capacity, es[..|es| - 1]);
      OrderlyKeeps(After(capacity, es[..|es| - 1]), es[|es| - 1]);
    } else {
      InitIsOrderly(capacity);
    }
  }

  /** No handle is used after deletion, no copy is lost or freed twice, and at most one
      task is in the capture loop, in every interleaving with disciplined starts and with
      console stops at any time, as long as they clear `is_running` in their window. */
  lemma CaptureSafety(capacity: nat, es: seq<Event>)
    requires RunUnder(Orderly, capacity, es)
    ensures var s := After(capacity, es);
      && !s.rt.fault
      && (forall t, u | t in s.tasks && u in s.tasks :: InLoop(s.tasks[t]) && InLoop(s.tasks[u]) ==> t == u)
      && (forall id: nat :: Places(s.rt, Cur(s), s.console, id) == if id < s.rt.next then 1 else 0)
  {
    RunKeepsOrderlyInv(capacity, es);
    OrderlyIsAnyStop(capacity, es);
    AnyStopLosesNothing(capacity, es);
  }

  /** Each of these stops then ends well. */
  lemma OrderlyStopsEndWell(capacity: nat, es: seq<Event>)
    requires RunUnder(Orderly, capacity, es)
    requires After(capacity, es).console.Stopping? && Cleared(After(capacity, es).console.stop)
    ensures StopEndsWell(After(capacity, es))
  {
    RunKeepsOrderlyInv(capacity, es);
    ParkedEndsWell(After(capacity, es));
  }

  lemma StopInWindow(s: State)
    requires Inv(s) && s.console == Stopping(StopClear)
    ensures ClearWindow(s.rt, Cur(s))
  {
  }

  /** In a disciplined run every console stop clears `is_running` in its window. */
  lemma {:induction false} StrictIsOrderly(capacity: nat, es: seq<Event>)
    requires RunUnder(Strict, capacity, es)
    ensures RunUnder(Orderly, capacity, es)
  {
    hide Apply, Enabled, Disciplined, Conserved;
    if es != [] {
      var front := es[..|es| - 1];
      StrictIsOrderly(capacity, front);
      RunKeepsInv(capacity, front);
      if After(capacity, front).console == Stopping(StopClear) { StopInWindow(After(capacity, front)); }
    }
  }
}
