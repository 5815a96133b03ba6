/** What every run of the sniffer guarantees, and what it does not. */
module SnifferGuarantees {
  import opened SnifferLifecycle

  /** Every allocated copy has been freed exactly once, and nothing else was freed. */
  ghost predicate AllFreedOnce(rt: Shared) {
    forall id: nat :: rt.freed[id] == if id < rt.next then 1 else 0
  }

  // ---------------------------------------------------------------- the end of a capture

  lemma OffIsAllFreed(s: State)
    requires Inv(s) && s.console == Idle && Cur(s) == TaskDone && NoHandles(s.rt)
    ensures AllDone(s) && AllFreedOnce(s.rt)
  {
    forall id: nat ensures s.rt.freed[id] == if id < s.rt.next then 1 else 0 {
      assert Places(s.rt, Cur(s), s.console, id) == s.rt.freed[id];
    }
  }

  /** When a stop that passed the driver call returns, the semaphore was given once and
      taken once, both handles are null, no task is left, and every copy is freed. */
  lemma SuccessfulStopFreesEverything(capacity: nat, es: seq<Event>, ok: bool)
    requires RunUnder(Strict, capacity, es)
    requires var s := After(capacity, es);
      && s.console.Stopping? && !s.console.stop.StopCheck? && !s.console.stop.StopDriver?
      && Enabled(s, ConsoleStep(ok)) && Apply(s, ConsoleStep(ok)).console == Idle
    ensures var s' := Apply(After(capacity, es), ConsoleStep(ok));
      && s'.rt.gives == 1 == s'.rt.takes
      && NoHandles(s'.rt) && !s'.rt.writing && AllDone(s') && AllFreedOnce(s'.rt)
  {
    RunKeepsInv(capacity, es);
    var s := After(capacity, es);
    ApplyKeeps(s, ConsoleStep(ok));
    var s' := Apply(s, ConsoleStep(ok));
    assert s.console == Stopping(StopPcap) && Cur(s') == TaskDone;
    OffIsAllFreed(s');
  }

  lemma LastStepOfLimitedTask(s: State, t: nat, ok: bool)
    requires Inv(s) && 0 < s.rt.requested && Enabled(s, TaskStep(t, ok))
    requires Apply(s, TaskStep(t, ok)).tasks[t] == TaskDone
    ensures var s' := Apply(s, TaskStep(t, ok));
      && s'.rt == s.rt && s'.console == Idle && Cur(s') == TaskDone
      && |s.rt.captured| == s.rt.requested
      && s.rt.gives == 0 == s.rt.takes && NoHandles(s.rt) && !s.rt.writing
  {
    var pc := s.tasks[t];
    assert t == s.current && Phase(s.rt, pc, s.console);
    assert !Capturing(pc) && !pc.TaskStop?;
    assert SelfStopping(s.rt, pc);
  }

  /** A capture limited to n packets hands exactly n to the pcap session before its task
      ends, and then has freed every copy, the queued ones included, without any
      semaphore traffic. */
  lemma LimitedCaptureIsExact(capacity: nat, es: seq<Event>, t: nat, ok: bool)
    requires RunUnder(Strict, capacity, es) && Enabled(After(capacity, es), TaskStep(t, ok))
    requires Disciplined(After(capacity, es), TaskStep(t, ok))
    requires var s := After(capacity, es);
      0 < s.rt.requested && Apply(s, TaskStep(t, ok)).tasks[t] == TaskDone
    ensures var s' := Apply(After(capacity, es), TaskStep(t, ok));
      && |s'.rt.captured| == s'.rt.requested
      && s'.rt.gives == 0 == s'.rt.takes
      && NoHandles(s'.rt) && !s'.rt.writing && AllDone(s') && AllFreedOnce(s'.rt)
  {
    RunKeepsInv(capacity, es);
    var s := After(capacity, es);
    ApplyKeeps(s, TaskStep(t, ok));
    LastStepOfLimitedTask(s, t, ok);
    OffIsAllFreed(Apply(s, TaskStep(t, ok)));
  }

  /** A task that stops itself is never at its own semaphore, and never blocked. */
  lemma SelfStopNeverWaits(capacity: nat, es: seq<Event>, t: nat, ok: bool)
    requires RunUnder(Strict, capacity, es)
    requires t in After(capacity, es).tasks && After(capacity, es).tasks[t] != TaskDone
    ensures After(capacity, es).tasks[t] != TaskStop(StopTake)
    ensures Enabled(After(capacity, es), TaskStep(t, ok))
  {
    RunKeepsInv(capacity, es);
  }

  // ---------------------------------------------------------------- order

  /** The captured copies, the one the task is about to hand over, and the queued ones. */
  function Line(rt: Shared, task: TaskPc): seq<nat> {
    rt.captured + (if task.TaskCapture? then [task.received] else [])
      + (if rt.queue.Queue? then rt.queue.items else [])
  }

  predicate InOrder(line: seq<nat>, next: nat) {
    && (forall i, j :: 0 <= i < j < |line| ==> line[i] < line[j])
    && (forall i :: 0 <= i < |line| ==> line[i] < next)
  }

  lemma PartInOrder(captured: seq<nat>, hand: seq<nat>, items: seq<nat>, next: nat)
    requires InOrder(captured + hand + items, next)
    ensures InOrder(captured + hand + [], next)
    ensures items != [] ==> InOrder(captured + hand + items[1..], next)
  {
    var line := captured + hand + items;
    var n := |captured + hand|;
    var held := captured + hand + [];
    assert forall i :: 0 <= i < |held| ==> held[i] == line[i];
    if items != [] {
      var rest := captured + hand + items[1..];
      forall i | 0 <= i < |rest| ensures rest[i] == line[if i < n then i else i + 1] {
      }
      forall i, j | 0 <= i < j < |rest| ensures rest[i] < rest[j] {
        assert line[if i < n then i else i + 1] < line[if j < n then j else j + 1];
      }
    }
  }

  lemma StopTouchesQueueOnly(rt: Shared, pc: StopPc, ok: bool)
    ensures var rt' := StopStep(rt, pc, ok).0;
      && rt'.captured == rt.captured && rt'.next == rt.next
      && (rt'.queue == rt.queue || !rt'.queue.Queue?
          || (rt.queue.Queue? && rt.queue.items != [] && rt'.queue == Queue(rt.queue.items[1..])))
  {
  }

  lemma StopKeepsOrder(rt: Shared, pc: StopPc, ok: bool, task: TaskPc, task': TaskPc)
    requires InOrder(Line(rt, task), rt.next)
    requires task' == task || (!task.TaskCapture? && !task'.TaskCapture?)
    ensures var rt' := StopStep(rt, pc, ok).0; InOrder(Line(rt', task'), rt'.next)
  {
    StopTouchesQueueOnly(rt, pc, ok);
    PartInOrder(rt.captured, if task.TaskCapture? then [task.received] else [],
                if rt.queue.Queue? then rt.queue.items else [], rt.next);
  }

  lemma CaptureKeepsLine(rt: Shared, task: TaskPc, ok: bool)
    requires Capturing(task)
    ensures var (rt', task') := TaskAdvance(rt, task, ok);
      Line(rt', task') == Line(rt, task) && rt'.next == rt.next
  {
  }

  lemma CallbackExtendsLine(rt: Shared, task: TaskPc, copied: bool)
    ensures var rt' := Callback(rt, copied);
      && rt.next <= rt'.next
      && (Line(rt', task) == Line(rt, task)
          || (Line(rt', task) == Line(rt, task) + [rt.next] && rt'.next == rt.next + 1))
  {
  }

  lemma CallbackKeepsOrder(rt: Shared, task: TaskPc, copied: bool)
    requires InOrder(Line(rt, task), rt.next)
    ensures var rt' := Callback(rt, copied); InOrder(Line(rt', task), rt'.next)
  {
    hide Callback, Line;
    CallbackExtendsLine(rt, task, copied);
  }

  lemma CommandKeepsOrder(rt: Shared, task: TaskPc, rt': Shared)
    requires InOrder(Line(rt, task), rt.next)
    requires rt'.captured == [] && rt'.queue == rt.queue && rt'.next == rt.next
    ensures InOrder(Line(rt', task), rt'.next)
  {
    var line, line' := Line(rt, task), Line(rt', task);
    var n := |rt.captured|;
    assert forall i | 0 <= i < |line'| :: line'[i] == line[n + i];
    forall i, j | 0 <= i < j < |line'|
      ensures line'[i] < line'[j]
    {
      assert line[n + i] < line[n + j];
    }
  }

  lemma StartKeepsOrder(rt: Shared, task: TaskPc, pc: StartPc, ok: bool)
    requires StartPhase(rt, task, pc) && InOrder(Line(rt, task), rt.next)
    ensures var rt' := StartStep(rt, pc, ok).0; InOrder(Line(rt', StartedTask(task, pc, ok)), rt'.next)
  {
    PartInOrder(rt.captured, if task.TaskCapture? then [task.received] else [],
                if rt.queue.Queue? then rt.queue.items else [], rt.next);
  }

  lemma StepKeepsOrder(s: State, e: Event)
    requires Inv(s) && Enabled(s, e) && Disciplined(s, e) && InOrder(Line(s.rt, Cur(s)), s.rt.next)
    ensures var s' := Apply(s, e); InOrder(Line(s'.rt, Cur(s')), s'.rt.next)
  {
    hide InOrder, Conserved, Callback, StopStep, StartStep;
    var s' := Apply(s, e);
    match e
    case CommandStart(_) => CommandKeepsOrder(s.rt, Cur(s), s'.rt);
    case CommandStop =>
    case DriverCallback(copied) => CallbackKeepsOrder(s.rt, Cur(s), copied);
    case TaskStep(t, ok) =>
      assert t == s.current && Cur(s') == TaskAdvance(s.rt, Cur(s), ok).1;
      if Capturing(Cur(s)) { CaptureKeepsLine(s.rt, Cur(s), ok); }
      else if Cur(s).TaskStop? { StopKeepsOrder(s.rt, Cur(s).stop, ok, Cur(s), Cur(s')); }
    case ConsoleStep(ok) =>
      if s.console.Stopping? {
        StopKeepsOrder(s.rt, s.console.stop, ok, Cur(s), Cur(s));
      } else {
        StartKeepsOrder(s.rt, Cur(s), s.console.start, ok);
        assert Cur(s') == StartedTask(Cur(s), s.console.start, ok);
      }
  }

  /** Packets reach the pcap session in the order in which the driver delivered them. */
  lemma {:induction false} CaptureKeepsArrivalOrder(capacity: nat, es: seq<Event>)
    requires RunUnder(Strict, capacity, es)
    ensures var s := After(capacity, es); InOrder(Line(s.rt, Cur(s)), s.rt.next)
    ensures forall i, j :: 0 <= i < j < |After(capacity, es).rt.captured| ==>
      After(capacity, es).rt.captured[i] < After(capacity, es).rt.captured[j]
  {
    if es != [] {
      var before := es[..|es| - 1];
      CaptureKeepsArrivalOrder(capacity, before);
      RunKeepsInv(capacity, before);
      StepKeepsOrder(After(capacity, before), es[|es| - 1]);
    }
    var s := After(capacity, es);
    var line := Line(s.rt, Cur(s));
    assert forall i :: 0 <= i < |s.rt.captured| ==> s.rt.captured[i] == line[i];
  }

  // ---------------------------------------------------------------- progress

  /** A bound on the steps a task still makes once `is_running` is false. */
  function StepsLeft(pc: TaskPc): nat {
    match pc
    case TaskLimit => 8 case TaskReceive => 7 case TaskCapture(_) => 6 case TaskFree(_) => 5
    case TaskCountDown => 4 case TaskLoop => 3 case TaskCheckGive => 2 case TaskGive => 1
    case TaskStop(_) => 3 case TaskDone => 0
  }

  lemma NotBlocked(s: State, ok: bool)
    requires Inv(s)
    ensures s.console != Idle && !Enabled(s, ConsoleStep(ok)) ==>
      && s.console == Stopping(StopTake)
      && Enabled(s, TaskStep(s.current, ok))
      && StepsLeft(Cur(Apply(s, TaskStep(s.current, ok)))) < StepsLeft(Cur(s))
    ensures s.console == Stopping(StopTake) && StepsLeft(Cur(s)) == 0 ==> Enabled(s, ConsoleStep(ok))
  {
    hide Conserved;
  }

  /** No deadlock: whatever the console is doing, it or the task can step, and a stop
      that waits for the semaphore is one step closer to it after each step of the task. */
  lemma DisciplinedRunsDoNotBlock(capacity: nat, es: seq<Event>, ok: bool)
    requires RunUnder(Strict, capacity, es)
    ensures var s := After(capacity, es);
      && (s.console != Idle && !Enabled(s, ConsoleStep(ok)) ==>
            && s.console == Stopping(StopTake)
            && Enabled(s, TaskStep(s.current, ok))
            && StepsLeft(Cur(Apply(s, TaskStep(s.current, ok)))) < StepsLeft(Cur(s)))
      && (s.console == Stopping(StopTake) && StepsLeft(Cur(s)) == 0 ==> Enabled(s, ConsoleStep(ok)))
  {
    hide Inv, Apply, StepsLeft;
    RunKeepsInv(capacity, es);
    NotBlocked(After(capacity, es), ok);
  }
}
