/** Console stops at any time, in runs whose starts are disciplined: the window in which a
    stop ends well, and what becomes of one that waits. */
module SnifferWindow {
  import opened SnifferLifecycle
  import opened SnifferStops
  import opened SnifferGuarantees
  import opened SnifferStopEnds
  import opened SnifferStopFails
  import opened SnifferStopWaits

  // ---------------------------------------------------------------- a stop in its window

  /** A console stop that has cleared `is_running` without getting in the way of the task. */
  predicate ParkedPhase(rt: Shared, task: TaskPc, pc: StopPc) {
    && Cleared(pc) && !rt.running && StopResources(rt, pc)
    && if rt.limit != 0 then
         if pc.StopReadLimit? || pc.StopTake? then
           Awaited(rt, task) && !(rt.limit == 1 && PacketPending(rt, task))
         else task == TaskDone
       else pc != StopTake && Leaving(rt, task) && !StopsItself(task)
  }

  lemma LeavingTaskStep(rt: Shared, task: TaskPc, ok: bool)
    requires Leaving(rt, task) && !StopsItself(task) && task != TaskDone && !rt.running && rt.limit == 0
    ensures var (rt', task') := TaskAdvance(rt, task, ok);
      rt' == rt && Leaving(rt, task') && !StopsItself(task')
  {
  }

  lemma AwaitedTaskStep(rt: Shared, task: TaskPc, pc: StopPc, ok: bool)
    requires ParkedPhase(rt, task, pc) && task != TaskDone && rt.limit != 0
    requires task.TaskFree? ==> task.handed !in rt.freed
    ensures var (rt', task') := TaskAdvance(rt, task, ok);
      && ParkedPhase(rt', task', pc) && rt'.fault == rt.fault
  {
  }

  lemma ParkedTaskStep(rt: Shared, task: TaskPc, pc: StopPc, ok: bool)
    requires ParkedPhase(rt, task, pc) && task != TaskDone
    requires task.TaskFree? ==> task.handed !in rt.freed
    ensures var (rt', task') := TaskAdvance(rt, task, ok);
      && ParkedPhase(rt', task', pc) && rt'.fault == rt.fault
  {
    if rt.limit == 0 {
      LeavingTaskStep(rt, task, ok);
    } else {
      AwaitedTaskStep(rt, task, pc, ok);
    }
  }

  lemma ParkedHands(rt: Shared, task: TaskPc)
    ensures Leaving(rt, task) ==> !task.TaskCapture? && !task.TaskFree?
  {
  }

  lemma ReadKeepsShared(rt: Shared, ok: bool)
    ensures StopStep(rt, StopReadLimit, ok).0 == rt
  {
  }

  lemma TakeEnds(rt: Shared, task: TaskPc)
    requires Awaited(rt, task) && rt.sem != Sem(false)
    ensures task == TaskDone
  {
  }

  lemma ParkedStopStep(rt: Shared, task: TaskPc, pc: StopPc, ok: bool)
    requires ParkedPhase(rt, task, pc) && StopReady(rt, pc) && (pc.StopFree? ==> pc.packet !in rt.freed)
    ensures var (rt', pc') := StopStep(rt, pc, ok);
      && rt'.fault == rt.fault
      && (if pc'.Some? then ParkedPhase(rt', task, pc'.value)
          else NoHandles(rt') && !task.TaskCapture? && !task.TaskFree? && !StopsItself(task))
  {
    hide StopResources, Leaving, Awaited, PacketPending;
    StopStepResources(rt, pc, ok);
    StopLeavesAlone(rt, pc, ok);
    ParkedHands(rt, task);
    LeavingBesides(rt, pc, ok, task);
    if pc.StopReadLimit? { ReadKeepsShared(rt, ok); }
    if pc.StopTake? { TakeEnds(rt, task); }
  }

  lemma HeldByStop(rt: Shared, task: TaskPc, pc: StopPc)
    requires Conserved(rt, task, Stopping(pc)) && pc.StopFree?
    ensures pc.packet !in rt.freed
  {
    assert Places(rt, task, Stopping(pc), pc.packet) <= 1;
  }

  lemma ParkedIsSilent(rt: Shared, task: TaskPc, pc: StopPc)
    requires ParkedPhase(rt, task, pc)
    ensures !rt.promiscuous && Cleared(pc)
  {
  }

  lemma WindowParks(rt: Shared, task: TaskPc)
    requires LoosePhase(rt, task, Stopping(StopClear)) && ClearWindow(rt, task)
    ensures ParkedPhase(rt.(running := false), task, StopReadLimit)
  {
  }

  // ---------------------------------------------------------------- the condition in these runs

  lemma ParkedParts(s: State)
    requires OnlyCurrent(s) && s.console.Stopping? && ParkedPhase(s.rt, Cur(s), s.console.stop)
    ensures Parting(s, s.current) && At(s, s.current) == Cur(s)
  {
  }

  lemma ParkedEndsWell(s: State)
    requires OnlyCurrent(s) && !s.rt.fault && Conserved(s.rt, Cur(s), s.console)
    requires s.console.Stopping? && ParkedPhase(s.rt, Cur(s), s.console.stop)
    ensures StopEndsWell(s)
  {
    hide StopEndsWell, ParkedPhase, Conserved, Parting;
    ParkedParts(s);
    PartingEndsWell(s, s.current);
  }

  lemma ClearingPlaces(before: State, s: State, id: nat)
    requires before.console == Stopping(StopClear)
    requires s == before.(rt := before.rt.(running := false, fault := false), console := Stopping(StopReadLimit))
    ensures Places(s.rt, Cur(s), s.console, id) == Places(before.rt, Cur(before), before.console, id)
  {
  }

  lemma FaultBesides(rt: Shared, rt': Shared, task: TaskPc)
    requires rt' == rt.(fault := false) && ParkedPhase(rt, task, StopReadLimit)
    ensures ParkedPhase(rt', task, StopReadLimit)
  {
  }

  lemma WindowIsClean(before: State, s: State)
    requires LooseInv(before) && before.console == Stopping(StopClear) && ClearWindow(before.rt, Cur(before))
    requires s == before.(rt := before.rt.(running := false, fault := false), console := Stopping(StopReadLimit))
    ensures StopEndsWell(s)
  {
    hide StopEndsWell, LoosePhase, Places, ParkedPhase, ClearWindow;
    WindowParks(before.rt, Cur(before));
    FaultBesides(before.rt.(running := false), s.rt, Cur(s));
    forall id: nat ensures Places(s.rt, Cur(s), s.console, id) == Places(before.rt, Cur(before), before.console, id) {
      ClearingPlaces(before, s, id);
    }
    ParkedEndsWell(s);
  }

  lemma CleanIsInWindow(before: State, s: State)
    requires LooseInv(before) && before.console == Stopping(StopClear) && CleanClear(s)
    requires s == before.(rt := before.rt.(running := false, fault := false), console := Stopping(StopReadLimit))
    ensures ClearWindow(before.rt, Cur(before))
  {
    hide Conserved;
    var g: nat :| (Harmless(s) && (s.rt.limit == 0 || s.rt.sem.full))
               || (OnlyGiver(s, g) && s.rt.limit != 0 && !s.rt.sem.full);
    assert Cur(s) == Cur(before);
    if Harmless(s) {
      assert HarmlessTask(s.rt.limit, Cur(s));
    } else {
      assert OnlyGiver(s, g) && g == s.current;
    }
  }

  lemma PendingBesides(rt: Shared, rt': Shared, task: TaskPc)
    requires rt' == rt.(running := false, fault := false)
    ensures PacketPending(rt', task) <==> PacketPending(rt, task)
  {
  }

  /** With console stops at any time, in runs whose starts are disciplined: the state is
      clean if and only if queue and semaphore are there, the task is not stopping itself,
      and it does not have the last wanted packet before it. */
  lemma AnyStopEndsWellIff(capacity: nat, es: seq<Event>)
    requires RunUnder(AnyStop, capacity, es) && JustCleared(capacity, es)
    ensures var s := FromHere(After(capacity, es));
      StopEndsWell(s) <==>
        && s.rt.queue.Queue? && s.rt.sem.Sem?
        && !(Cur(s).TaskStop? && !Cur(s).stop.StopCheck?)
        && !(s.rt.limit == 1 && PacketPending(s.rt, Cur(s)))
  {
    hide StopEndsWell, LooseInv, PacketPending, CleanClear;
    var front := es[..|es| - 1];
    var before, s := After(capacity, front), FromHere(After(capacity, es));
    RunKeepsLooseInv(capacity, front);
    PendingBesides(before.rt, s.rt, Cur(s));
    if ClearWindow(before.rt, Cur(before)) { WindowIsClean(before, s); }
    StopEndsWellIff(capacity, es);
    if CleanClear(s) { CleanIsInWindow(before, s); }
  }

  // ---------------------------------------------------------------- a stop that waits

  /** The shared state when a task that finds `is_running` false has run to its end. */
  function Finished(rt: Shared, task: TaskPc): Shared
    requires !rt.running && (Ending(task) || task.TaskDone?) && (task.TaskLimit? ==> rt.limit != 0)
    decreases StepsLeft(task)
  {
    if task.TaskDone? then rt
    else
      var (rt', task') := TaskAdvance(rt, task, true);
      Finished(rt', task')
  }

  /** A stop that saw a nonzero limit and waits is woken by the task exactly when the
      task does not count that limit down to zero first: it hangs if and only if one
      packet was wanted and one is pending. */
  lemma {:induction false} WaitingStopHangsExactlyWhen(rt: Shared, task: TaskPc)
    requires !rt.running && rt.limit != 0 && rt.queue.Queue? && rt.sem == Sem(false) && Ending(task)
    ensures Finished(rt, task).sem == Sem(false) <==> rt.limit == 1 && PacketPending(rt, task)
    ensures Finished(rt, task).sem == Sem(true) <==> !(rt.limit == 1 && PacketPending(rt, task))
    decreases StepsLeft(task)
  {
    var (rt', task') := TaskAdvance(rt, task, true);
    if Ending(task') {
      if task.TaskCountDown? {
        assert task' == TaskLoop;
        assert Finished(rt', TaskLoop) == Finished(rt', TaskCheckGive);
        assert Finished(rt', TaskCheckGive).sem == Sem(rt'.limit != 0);
      } else {
        WaitingStopHangsExactlyWhen(rt', task');
      }
    }
  }

  lemma TaskEnds(rt: Shared, task: TaskPc)
    requires !rt.running && Ending(task) && (task.TaskLimit? ==> rt.limit != 0)
    ensures var (rt', task') := TaskAdvance(rt, task, true);
      && !rt'.running && rt'.promiscuous == rt.promiscuous && (Ending(task') || task'.TaskDone?)
      && !task'.TaskLimit? && StepsLeft(task') < StepsLeft(task)
  {
  }

  lemma HungStays(rt: Shared, task: TaskPc)
    requires Hung(rt, task) && rt.limit == 0 && !rt.running
    ensures Finished(rt, task) == rt
  {
    if task.TaskLoop? {
      assert Finished(rt, TaskCheckGive) == rt;
    }
  }

  lemma DonePendsNothing(rt: Shared)
    ensures !PacketPending(rt, TaskDone)
  {
  }

  lemma NothingEnabledIff(t: State)
    requires t.console == Stopping(StopTake) && OnlyCurrent(t) && Cur(t).TaskDone? && !t.rt.promiscuous
    ensures (forall e :: !Enabled(t, e)) <==> t.rt.sem == Sem(false)
  {
    if t.rt.sem != Sem(false) {
      assert Enabled(t, ConsoleStep(true));
    }
  }

  /** A console stop that waits for a task on its way to its end. */
  predicate Waiting(s: State) {
    && s.console == Stopping(StopTake) && Silent(s.rt) && OnlyCurrent(s)
    && (Ending(Cur(s)) || Cur(s).TaskDone?) && (Cur(s).TaskLimit? ==> s.rt.limit != 0)
  }

  lemma EndingIgnores(rt: Shared, task: TaskPc, ok: bool)
    requires Ending(task)
    ensures TaskAdvance(rt, task, ok) == TaskAdvance(rt, task, true)
  {
  }

  lemma WaitingStep(s: State, ok: bool)
    requires Waiting(s) && Enabled(s, TaskStep(s.current, ok))
    ensures var s' := Apply(s, TaskStep(s.current, ok));
      && Waiting(s') && Finished(s'.rt, Cur(s')) == Finished(s.rt, Cur(s)) && StepsLeft(Cur(s')) < StepsLeft(Cur(s))
  {
    TaskEnds(s.rt, Cur(s));
    EndingIgnores(s.rt, Cur(s), ok);
  }

  lemma StopThen(s: State, fs: seq<Event>, e: Event) returns (fs': seq<Event>)
    requires StopRun(s, fs) && AfterStop(s, fs).console != Idle && Enabled(AfterStop(s, fs), e)
    ensures StopRun(s, fs') && AfterStop(s, fs') == Apply(AfterStop(s, fs), e)
  {
    fs' := fs + [e];
    assert fs'[..|fs|] == fs;
  }

  /** While the stop waits, the task can run to its end. */
  lemma {:induction false} TaskRunsOut(s: State, fs: seq<Event>) returns (fs': seq<Event>)
    requires StopRun(s, fs) && Waiting(AfterStop(s, fs))
    ensures StopRun(s, fs') && Waiting(AfterStop(s, fs')) && Cur(AfterStop(s, fs')).TaskDone?
    decreases StepsLeft(Cur(AfterStop(s, fs)))
  {
    hide StopRun, AfterStop;
    var t := AfterStop(s, fs);
    fs' := fs;
    if !Cur(t).TaskDone? {
      WaitingStep(t, true);
      fs' := StopThen(s, fs, TaskStep(t.current, true));
      fs' := TaskRunsOut(s, fs');
    }
  }

  /** Where the console can be once it has waited. */
  predicate PastRead(s: State) {
    s.console == Idle || (s.console.Stopping? && Cleared(s.console.stop) && !s.console.stop.StopReadLimit?)
  }

  lemma PastReadStep(s: State, e: Event)
    requires PastRead(s) && s.console != Idle && Enabled(s, e)
    ensures PastRead(Apply(s, e))
    ensures Apply(s, e).console == Stopping(StopTake) ==> s.console == Stopping(StopTake) && !e.ConsoleStep?
  {
  }

  lemma WaitingIsPast(s: State)
    requires Waiting(s)
    ensures PastRead(s)
  {
  }

  lemma WaitingEvent(s: State, e: Event)
    requires Waiting(s) && Enabled(s, e) && !e.ConsoleStep?
    ensures e.TaskStep? && e.task == s.current
  {
  }

  lemma {:induction false} WaitingRun(s: State, fs: seq<Event>)
    requires Waiting(s) && StopRun(s, fs)
    ensures var t := AfterStop(s, fs);
      && PastRead(t)
      && (t.console == Stopping(StopTake) ==> Waiting(t) && Finished(t.rt, Cur(t)) == Finished(s.rt, Cur(s)))
    decreases |fs|
  {
    hide Apply, Enabled, Finished, Waiting, PastRead;
    if fs != [] {
      var t, e := AfterStop(s, fs[..|fs| - 1]), fs[|fs| - 1];
      WaitingRun(s, fs[..|fs| - 1]);
      PastReadStep(t, e);
      if Apply(t, e).console == Stopping(StopTake) {
        WaitingEvent(t, e);
        WaitingStep(t, e.ok);
      }
    } else {
      WaitingIsPast(s);
    }
  }

  /** Whether the task that ends as `rt` and `task` say leaves the semaphore empty. */
  lemma EndsEmptyIff(rt: Shared, task: TaskPc)
    requires ClearedPhase(rt, task, StopTake)
    ensures Ending(task) || task.TaskDone?
    ensures task.TaskLimit? ==> rt.limit != 0
    ensures Finished(rt, task).sem == Sem(false) <==> rt.limit == 0 || (rt.limit == 1 && PacketPending(rt, task))
  {
    if rt.limit == 0 {
      HungStays(rt, task);
    } else if Ending(task) {
      WaitingStopHangsExactlyWhen(rt, task);
    } else {
      DonePendsNothing(rt);
    }
  }

  lemma DoneIsFinished(rt: Shared)
    requires !rt.running
    ensures Finished(rt, TaskDone) == rt
  {
  }

  /** A console stop that waits, in any run with stops at any time: whenever the task has
      run to its end and the stop still waits, no event at all is possible if and only if
      the limit is 0, or it is 1 and the task has one packet before it.  The task can run to
      its end. */
  lemma WaitingStopIsNeverWokenIff(capacity: nat, es: seq<Event>) returns (fs: seq<Event>)
    requires RunUnder(AnyStop, capacity, es) && After(capacity, es).console == Stopping(StopTake)
    ensures var s := After(capacity, es);
      forall gs | StopRun(s, gs) && AfterStop(s, gs).console == Stopping(StopTake) && Cur(AfterStop(s, gs)).TaskDone? ::
        (forall e :: !Enabled(AfterStop(s, gs), e)) <==>
          s.rt.limit == 0 || (s.rt.limit == 1 && PacketPending(s.rt, Cur(s)))
    ensures var t := After(capacity, es);
      StopRun(t, fs) && AfterStop(t, fs).console == Stopping(StopTake) && Cur(AfterStop(t, fs)).TaskDone?
  {
    hide PacketPending, Places, StopRun, AfterStop, Finished;
    RunKeepsLooseInv(capacity, es);
    var s := After(capacity, es);
    EndsEmptyIff(s.rt, Cur(s));
    NoStepsYet(s);
    fs := TaskRunsOut(s, []);
    forall gs | StopRun(s, gs) && AfterStop(s, gs).console == Stopping(StopTake) && Cur(AfterStop(s, gs)).TaskDone?
      ensures (forall e :: !Enabled(AfterStop(s, gs), e)) <==>
        s.rt.limit == 0 || (s.rt.limit == 1 && PacketPending(s.rt, Cur(s)))
    {
      WaitingRun(s, gs);
      DoneIsFinished(AfterStop(s, gs).rt);
      NothingEnabledIff(AfterStop(s, gs));
    }
  }
}
