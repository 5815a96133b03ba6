/** What a start command and a stop command come to, by the answers of the calls they make. */
module SnifferCommands {
  import opened SnifferLifecycle
  import opened SnifferGuarantees
  import opened SnifferStopEnds

  // ---------------------------------------------------------------- the idle console

  /** While the console is idle, or asks whether a capture is running, the driver listens for
      every capture whose task is in its loop. */
  predicate Listens(s: State) {
    s.console == Idle || s.console == Starting(StartCheck) || s.console == Stopping(StopCheck)
    || s.console == Stopping(StopDriver) ==>
      (Capturing(Cur(s)) ==> s.rt.promiscuous)
  }

  lemma CapturingKeepsDriver(rt: Shared, task: TaskPc, ok: bool)
    requires Capturing(task)
    ensures TaskAdvance(rt, task, ok).0.promiscuous == rt.promiscuous
  {
    hide StopStep;
  }

  lemma TaskListens(s: State, e: Event)
    requires Inv(s) && Listens(s) && Enabled(s, e) && e.TaskStep?
    ensures Listens(Apply(s, e))
  {
    hide Conserved, StopStep;
    if Capturing(Cur(s)) { CapturingKeepsDriver(s.rt, Cur(s), e.ok); }
  }

  lemma CallbackKeepsDriver(rt: Shared, copied: bool)
    ensures Callback(rt, copied).promiscuous == rt.promiscuous
  {
  }

  lemma ConsoleListens(s: State, e: Event)
    requires Inv(s) && Listens(s) && Enabled(s, e) && e.ConsoleStep?
    ensures Listens(Apply(s, e))
  {
    hide Conserved;
  }

  lemma StepListens(s: State, e: Event)
    requires Inv(s) && Listens(s) && Enabled(s, e) && Disciplined(s, e)
    ensures Listens(Apply(s, e))
  {
    hide Inv, Callback, TaskAdvance, StopStep, StartStep;
    match e
    case TaskStep(_, _) => TaskListens(s, e);
    case ConsoleStep(_) => ConsoleListens(s, e);
    case DriverCallback(copied) => CallbackKeepsDriver(s.rt, copied);
    case _ =>
  }

  lemma ListensAtFirst(capacity: nat)
    ensures Listens(Init(capacity))
  {
  }

  lemma {:induction false} RunListens(capacity: nat, es: seq<Event>)
    requires RunUnder(Strict, capacity, es)
    ensures Listens(After(capacity, es))
  {
    hide Inv, Listens, Apply, Enabled, Disciplined;
    if es != [] {
      RunListens(capacity, es[..|es| - 1]);
      RunKeepsInv(capacity, es[..|es| - 1]);
      StepListens(After(capacity, es[..|es| - 1]), es[|es| - 1]);
    } else {
      ListensAtFirst(capacity);
    }
  }

  /** A capture that is on: the driver listens and every handle is there. */
  predicate CaptureIsOn(s: State) {
    && Capturing(Cur(s)) && s.rt.running && s.rt.promiscuous && s.rt.writing
    && s.rt.queue.Queue? && s.rt.sem == Sem(false)
  }

  /** No capture: no task, no handle, and the driver does not listen. */
  predicate CaptureIsOff(s: State) {
    AllDone(s) && !s.rt.running && !s.rt.promiscuous && s.rt.queue == NoQueue && s.rt.sem == NoSem
  }

  /** While the console is idle in a disciplined run, the capture is on, or it is off, or its
      task is stopping it because the limit is used up. */
  lemma IdleMeansOnOrOff(capacity: nat, es: seq<Event>)
    requires RunUnder(Strict, capacity, es) && After(capacity, es).console == Idle
    ensures var s := After(capacity, es);
      || CaptureIsOn(s) || CaptureIsOff(s)
      || ((Cur(s).TaskStop? || Cur(s) == TaskCheckGive) && s.rt.limit == 0 < s.rt.requested == |s.rt.captured|)
  {
    hide Conserved;
    RunKeepsInv(capacity, es);
    RunListens(capacity, es);
  }

  // ---------------------------------------------------------------- the start command

  /** The points where the answer of a call decides. */
  predicate Calls(console: ConsolePc) {
    match console
    case Starting(pc) => pc in {StartPcap, StartQueue, StartSem, StartTask, StartDriver}
    case Stopping(pc) => pc == StopDriver
    case Idle => false
  }

  /** The calls that the console made and that failed, from `s` on. */
  function FailedCalls(s: State, fs: seq<Event>): nat
    requires StopRun(s, fs)
  {
    if fs == [] then 0
    else
      var front := fs[..|fs| - 1];
      FailedCalls(s, front) + if fs[|fs| - 1] == ConsoleStep(false) && Calls(AfterStop(s, front).console) then 1 else 0
  }

  function ConsoleSteps(fs: seq<Event>): nat {
    if fs == [] then 0 else ConsoleSteps(fs[..|fs| - 1]) + if fs[|fs| - 1].ConsoleStep? then 1 else 0
  }

  function StartLeft(pc: StartPc): nat {
    match pc
    case StartCheck => 11 case StartPcap => 10 case StartRunning => 9 case StartQueue => 8 case StartSem => 7
    case StartTask => 6 case StartDriver => 5 case UndoTask => 4 case UndoSem => 3 case UndoQueue => 2
    case UndoRunning => 1
  }

  predicate Undoing(pc: StartPc) { pc in {UndoTask, UndoSem, UndoQueue, UndoRunning} }

  /** Where a start that found no capture has come to, after so many failed calls; `writing`
      is whether the pcap session refused it. */
  predicate StartHasCome(t: State, failed: nat, writing: bool, n: int) {
    match t.console
    case Starting(pc) =>
      && (failed > 0 <==> Undoing(pc)) && t.rt.limit == n == t.rt.requested && t.rt.captured == []
      && (writing ==> pc in {StartCheck, StartPcap})
      && (pc in {StartCheck, StartPcap} ==> t.rt.writing == writing)
      && (pc == StartCheck ==> !t.rt.running)
    case Idle =>
      if failed == 0 && !writing then CaptureIsOn(t) && t.rt.limit == n == t.rt.requested && t.rt.captured == []
      else CaptureIsOff(t)
    case Stopping(_) => false
  }

  /** Whether the pcap session is in use, after so many steps of the console: it is once the
      call that begins it has succeeded, and no later failure ends it. */
  predicate SessionHasBegun(t: State, steps: nat, writing: bool) {
    match t.console
    case Starting(StartCheck) => steps == 0
    case Starting(StartPcap) => steps == 1
    case Starting(_) => 2 <= steps && t.rt.writing
    case _ => t.rt.writing == (writing || 2 < steps)
  }

  lemma SessionSteps(t: State, e: Event, steps: nat, failed: nat, writing: bool, n: int)
    requires Inv(t) && StartHasCome(t, failed, writing, n) && t.console.Starting? && Enabled(t, e) && e.ConsoleStep?
    requires SessionHasBegun(t, steps, writing)
    ensures SessionHasBegun(Apply(t, e), steps + 1, writing)
  {
    hide Conserved;
  }

  lemma CallbackWhileStarting(s: State, failed: nat, writing: bool, n: int)
    requires Inv(s) && StartHasCome(s, failed, writing, n) && s.console.Starting?
    ensures !s.rt.promiscuous
  {
    hide Conserved;
  }

  lemma SessionBesides(t: State, e: Event, steps: nat, failed: nat, writing: bool, n: int)
    requires Inv(t) && StartHasCome(t, failed, writing, n) && t.console.Starting? && Enabled(t, e) && !e.ConsoleStep?
    requires SessionHasBegun(t, steps, writing) && n != 0
    ensures SessionHasBegun(Apply(t, e), steps, writing)
  {
    hide Conserved, StopStep;
    if e.DriverCallback? { CallbackWhileStarting(t, failed, writing, n); }
  }

  lemma TaskWhileStarting(s: State, e: Event, failed: nat, writing: bool, n: int)
    requires Inv(s) && StartHasCome(s, failed, writing, n) && s.console.Starting? && n != 0
    requires Enabled(s, e) && e.TaskStep?
    ensures Disciplined(s, e) && StartHasCome(Apply(s, e), failed, writing, n)
  {
    hide Conserved, StopStep;
  }

  lemma ConsoleWhileStarting(s: State, e: Event, failed: nat, writing: bool, n: int)
    requires Inv(s) && StartHasCome(s, failed, writing, n) && s.console.Starting? && e.ConsoleStep?
    ensures StartHasCome(Apply(s, e), failed + if !e.ok && Calls(s.console) then 1 else 0, writing, n)
    ensures var s' := Apply(s, e); s'.console.Starting? ==> StartLeft(s'.console.start) < StartLeft(s.console.start)
  {
    hide Conserved;
  }

  lemma StartStepHasCome(t: State, e: Event, failed: nat, writing: bool, n: int)
    requires Inv(t) && StartHasCome(t, failed, writing, n) && t.console != Idle && n != 0 && Enabled(t, e)
    ensures Disciplined(t, e)
    ensures StartHasCome(Apply(t, e), failed + if e == ConsoleStep(false) && Calls(t.console) then 1 else 0, writing, n)
    ensures t.console.Starting?
    ensures var t' := Apply(t, e);
      (if t'.console.Starting? then StartLeft(t'.console.start) else 0) + (if e.ConsoleStep? then 1 else 0)
      <= StartLeft(t.console.start)
  {
    hide Inv, TaskAdvance, StartStep, Callback;
    match e
    case TaskStep(_, _) => TaskWhileStarting(t, e, failed, writing, n);
    case ConsoleStep(_) => ConsoleWhileStarting(t, e, failed, writing, n);
    case DriverCallback(_) => CallbackWhileStarting(t, failed, writing, n);
    case _ =>
  }

  lemma {:induction false} StartRun(s: State, fs: seq<Event>, writing: bool, n: int)
    requires Inv(s) && StartHasCome(s, 0, writing, n) && s.console.Starting? && n != 0 && StopRun(s, fs)
    ensures var t := AfterStop(s, fs);
      && Inv(t) && StartHasCome(t, FailedCalls(s, fs), writing, n)
      && (SessionHasBegun(s, 0, writing) ==> SessionHasBegun(t, ConsoleSteps(fs), writing))
      && ConsoleSteps(fs) + (if t.console.Starting? then StartLeft(t.console.start) else 0)
         <= StartLeft(s.console.start)
    decreases |fs|
  {
    hide Inv, StartHasCome, Apply, Enabled, Calls, Disciplined, StartLeft, SessionHasBegun;
    if fs != [] {
      var front, e := fs[..|fs| - 1], fs[|fs| - 1];
      var t, failed := AfterStop(s, front), FailedCalls(s, front);
      StartRun(s, front, writing, n);
      StartStepHasCome(t, e, failed, writing, n);
      ApplyKeeps(t, e);
      if SessionHasBegun(s, 0, writing) {
        if e.ConsoleStep? { SessionSteps(t, e, ConsoleSteps(front), failed, writing, n); }
        else { SessionBesides(t, e, ConsoleSteps(front), failed, writing, n); }
      }
    }
  }

  lemma StartComesFirst(s: State, n: int)
    requires Inv(s) && s.console == Idle && AllDone(s) && n != 0
    ensures var t := Apply(s, CommandStart(n)); Inv(t) && StartHasCome(t, 0, s.rt.writing, n) && t.console.Starting?
  {
    hide Conserved;
    CommandStartKeeps(s, CommandStart(n));
  }

  /** A start command when no task is left: within eleven steps the console is idle again,
      and then the capture is on, with the limit asked for and nothing captured yet, if and
      only if no call failed and the pcap session was not in use; otherwise it is off.  The
      session stays in use when a call after the one that begins it fails. */
  lemma StartOutcome(capacity: nat, es: seq<Event>, n: int, fs: seq<Event>)
    requires RunUnder(Strict, capacity, es) && n != 0
    requires var s := After(capacity, es);
      s.console == Idle && AllDone(s) && StopRun(Apply(s, CommandStart(n)), fs)
    ensures var s := After(capacity, es);
      var s1 := Apply(s, CommandStart(n));
      var t := AfterStop(s1, fs);
      && ConsoleSteps(fs) <= 11 && (ConsoleSteps(fs) == 11 ==> t.console == Idle)
      && (t.console != Idle ==> Enabled(t, ConsoleStep(true)))
      && (t.console == Idle ==>
            if FailedCalls(s1, fs) == 0 && !s.rt.writing then
              CaptureIsOn(t) && t.rt.limit == n == t.rt.requested && t.rt.captured == []
            else CaptureIsOff(t))
      && (t.console == Idle ==> t.rt.writing == (s.rt.writing || 2 < ConsoleSteps(fs)))
  {
    hide Inv;
    RunKeepsInv(capacity, es);
    var s := After(capacity, es);
    StartComesFirst(s, n);
    StartRun(Apply(s, CommandStart(n)), fs, s.rt.writing, n);
  }

  // ---------------------------------------------------------------- the stop command

  /** Where a stop of an unlimited capture has come to. */
  predicate StopHasCome(t: State, failed: nat) {
    match t.console
    case Stopping(pc) => failed == 0 && t.rt.requested < 0 && (pc == StopCheck ==> CaptureIsOn(t))
      && (pc == StopDriver ==> CaptureIsOn(t))
    case Idle => if failed == 0 then CaptureIsOff(t) && !t.rt.writing else CaptureIsOn(t)
    case Starting(_) => false
  }

  lemma TaskWhileStopping(s: State, e: Event)
    requires Inv(s) && StopHasCome(s, 0) && s.console.Stopping? && Enabled(s, e) && e.TaskStep?
    ensures Disciplined(s, e) && StopHasCome(Apply(s, e), 0)
  {
    hide Conserved, StopStep;
  }

  lemma CallbackWhileStopping(s: State, e: Event)
    requires Inv(s) && StopHasCome(s, 0) && s.console.Stopping? && Enabled(s, e) && e.DriverCallback?
    ensures StopHasCome(Apply(s, e), 0)
  {
    hide Conserved;
  }

  lemma ConsoleWhileStopping(s: State, e: Event)
    requires Inv(s) && StopHasCome(s, 0) && s.console.Stopping? && Enabled(s, e) && e.ConsoleStep?
    ensures StopHasCome(Apply(s, e), if !e.ok && Calls(s.console) then 1 else 0)
  {
    hide Conserved;
  }

  lemma StopStepHasCome(t: State, e: Event, failed: nat)
    requires Inv(t) && StopHasCome(t, failed) && t.console != Idle && Enabled(t, e)
    ensures Disciplined(t, e)
    ensures StopHasCome(Apply(t, e), failed + if e == ConsoleStep(false) && Calls(t.console) then 1 else 0)
  {
    hide Inv, TaskAdvance, StopStep, Callback;
    match e
    case TaskStep(_, _) => TaskWhileStopping(t, e);
    case ConsoleStep(_) => ConsoleWhileStopping(t, e);
    case DriverCallback(_) => CallbackWhileStopping(t, e);
    case _ =>
  }

  lemma {:induction false} StopRunHasCome(s: State, fs: seq<Event>)
    requires Inv(s) && StopHasCome(s, 0) && s.console.Stopping? && StopRun(s, fs)
    ensures Inv(AfterStop(s, fs)) && StopHasCome(AfterStop(s, fs), FailedCalls(s, fs))
    decreases |fs|
  {
    hide Inv, StopHasCome, Apply, Enabled, Calls, Disciplined;
    if fs != [] {
      var front, e := fs[..|fs| - 1], fs[|fs| - 1];
      var t := AfterStop(s, front);
      StopRunHasCome(s, front);
      StopStepHasCome(t, e, FailedCalls(s, front));
      ApplyKeeps(t, e);
    }
  }

  lemma StopComesFirst(s: State)
    requires Inv(s) && Listens(s) && s.console == Idle && Capturing(Cur(s)) && s.rt.requested < 0
    ensures var t := Apply(s, CommandStop); Inv(t) && StopHasCome(t, 0)
  {
    hide Conserved;
    CommandStopKeeps(s);
  }

  lemma OffFreed(t: State)
    requires Inv(t) && t.console == Idle && CaptureIsOff(t)
    ensures AllFreedOnce(t.rt)
  {
    OffIsAllFreed(t);
  }

  /** A stop command in an unlimited capture: when the console is idle again, the capture is
      off, the pcap session closed and every copy freed once, if the driver call succeeded;
      otherwise the capture is still on. */
  lemma StopOutcome(capacity: nat, es: seq<Event>, fs: seq<Event>)
    requires RunUnder(Strict, capacity, es)
    requires var s := After(capacity, es);
      s.console == Idle && Capturing(Cur(s)) && s.rt.requested < 0 && StopRun(Apply(s, CommandStop), fs)
    ensures var s1 := Apply(After(capacity, es), CommandStop);
      var t := AfterStop(s1, fs);
      t.console == Idle ==>
        if FailedCalls(s1, fs) == 0 then CaptureIsOff(t) && !t.rt.writing && AllFreedOnce(t.rt) else CaptureIsOn(t)
  {
    hide Inv;
    RunKeepsInv(capacity, es);
    RunListens(capacity, es);
    var s := After(capacity, es);
    StopComesFirst(s);
    StopRunHasCome(Apply(s, CommandStop), fs);
    var t := AfterStop(Apply(s, CommandStop), fs);
    if t.console == Idle && CaptureIsOff(t) { OffFreed(t); }
  }
}
