/** The exact condition for a console stop to end well, in any run: what goes wrong when the
    console waits for a task, and the theorem. */
module SnifferStopWaits {
  import opened SnifferLifecycle
  import opened SnifferStops
  import opened SnifferGuarantees
  import opened SnifferStopEnds
  import opened SnifferStopFails

  /** The console is before its take, the semaphore is empty, and the capture is over. */
  predicate Waits(s: State) {
    && (s.console == Stopping(StopReadLimit) || s.console == Stopping(StopTake))
    && s.rt.sem == Sem(false) && Silent(s.rt)
  }

  // ---------------------------------------------------------------- nobody gives

  /** A task that will not give when the limit is 0. */
  predicate NotGiving(task: TaskPc) {
    && !task.TaskGive?
    && (Ending(task) || task.TaskDone? || task == TaskStop(StopCheck) || task == TaskStop(StopPcap))
  }

  lemma NotGivingStep(rt: Shared, task: TaskPc, ok: bool)
    requires NotGiving(task) && rt.limit == 0 && Silent(rt)
    ensures var (rt', task') := TaskAdvance(rt, task, ok);
      NotGiving(task') && rt'.limit == 0 && Silent(rt') && rt'.sem == rt.sem
  {
  }

  predicate Unwoken(s: State) {
    && s.console == Stopping(StopTake) && s.rt.sem == Sem(false) && s.rt.limit == 0 && Silent(s.rt)
    && forall t | t in s.tasks :: NotGiving(s.tasks[t])
  }

  /** Then a console that waits is never woken. */
  lemma {:induction false} UnwokenFails(s: State, n: nat)
    requires Unwoken(s)
    ensures !EndsWellWithin(s, n)
    decreases n
  {
    hide EndsWellWithin, TaskAdvance, NotGiving;
    if EndsWellWithin(s, n) {
      WellNow(s, n);
      assert !Enabled(s, ConsoleStep(true));
      var u: nat :| Enabled(s, TaskStep(u, true));
      Onward(s, n, TaskStep(u, true));
      NotGivingStep(s.rt, s.tasks[u], true);
      UnwokenFails(Apply(s, TaskStep(u, true)), n - 1);
      assert false;
    }
  }

  lemma NeverWokenFails(s: State)
    requires Unwoken(s)
    ensures !StopEndsWell(s)
  {
    hide EndsWellWithin, Unwoken;
    forall n: nat ensures !EndsWellWithin(s, n) { UnwokenFails(s, n); }
  }

  // ---------------------------------------------------------------- two threads that wait

  predicate AtSemaphore(pc: StopPc) {
    pc.StopReadLimit? || pc.StopTake? || pc.StopDeleteSem? || pc.StopNullSem?
  }

  lemma StopPastSemaphore(rt: Shared, pc: StopPc)
    requires AtSemaphore(pc) && !pc.StopNullSem?
    ensures var (rt', pc') := StopStep(rt, pc, true);
      pc'.Some? && AtSemaphore(pc'.value) && (pc'.value.StopNullSem? ==> !rt'.sem.Sem?)
  {
  }

  lemma TakeOfNone(rt: Shared)
    requires !rt.sem.Sem?
    ensures TaskAdvance(rt, TaskStop(StopTake), true).0.fault
  {
  }

  /** A console and a task that both take the semaphore and delete it: whatever wakes them,
      the console can come first. */
  lemma {:induction false} BothWaitFails(s: State, t: nat, n: nat)
    requires s.console.Stopping? && AtSemaphore(s.console.stop)
    requires s.console.stop.StopNullSem? ==> !s.rt.sem.Sem?
    requires t in s.tasks && s.tasks[t] == TaskStop(StopTake)
    ensures !EndsWellWithin(s, n)
    decreases n
  {
    hide EndsWellWithin, TaskAdvance, StopStep, AtSemaphore;
    if EndsWellWithin(s, n) {
      WellNow(s, n);
      if s.console.stop.StopNullSem? {
        Onward(s, n, TaskStep(t, true));
        TakeOfNone(s.rt);
      } else if Enabled(s, ConsoleStep(true)) {
        Onward(s, n, ConsoleStep(true));
        StopPastSemaphore(s.rt, s.console.stop);
        BothWaitFails(Apply(s, ConsoleStep(true)), t, n - 1);
      } else {
        var u: nat :| Enabled(s, TaskStep(u, true));
        Onward(s, n, TaskStep(u, true));
        BothWaitFails(Apply(s, TaskStep(u, true)), t, n - 1);
      }
      assert false;
    }
  }

  lemma TakerFails(s: State, t: nat)
    requires s.console == Stopping(StopReadLimit) && t in s.tasks && s.tasks[t] == TaskStop(StopTake)
    ensures !StopEndsWell(s)
  {
    hide EndsWellWithin;
    forall n: nat ensures !EndsWellWithin(s, n) { BothWaitFails(s, t, n); }
  }

  lemma {:induction false} StopperFails(s: State, t: nat)
    requires s.console == Stopping(StopReadLimit) && s.rt.queue.Queue? && s.rt.sem.Sem? && s.rt.limit != 0
    requires t in s.tasks && StopsItself(s.tasks[t]) && s.tasks[t] != TaskStop(StopPcap)
    ensures !StopEndsWell(s)
    decreases ToSemaphore(s.tasks[t])
  {
    hide StopEndsWell;
    var task := s.tasks[t];
    if task == TaskStop(StopTake) {
      TakerFails(s, t);
    } else if task == TaskStop(StopNullSem) || task == TaskStop(StopDeleteSem) {
      SemPartFails(s, t);
    } else if InQueuePart(task) {
      QueuePartFails(s, t);
    } else if StopEndsWell(s) {
      var s' := Go(s, TaskStep(t, true));
      StopperFails(s', t);
      assert false;
    }
  }

  // ---------------------------------------------------------------- tasks that give

  predicate Giving(task: TaskPc) { Ending(task) || task == TaskStop(StopCheck) || task == TaskStop(StopPcap) }

  predicate AtGive(task: TaskPc) { task.TaskCheckGive? || task.TaskGive? }

  lemma GivingAdvance(rt: Shared, task: TaskPc)
    requires Giving(task) && !AtGive(task) && Silent(rt)
    ensures var (rt', task') := TaskAdvance(rt, task, true);
      && Giving(task') && !task'.TaskGive? && StepsLeft(task') < StepsLeft(task)
      && Silent(rt') && rt'.sem == rt.sem && rt'.queue.Queue? == rt.queue.Queue?
      && (rt.limit == 0 ==> rt'.limit == 0)
      && (rt.limit == 1 && PacketPending(rt, task) ==> rt'.limit == 0 || (rt'.limit == 1 && PacketPending(rt', task')))
  {
  }

  /** The task alone, up to its give. */
  lemma {:induction false} RunsToGive(s: State, t: nat) returns (s': State)
    requires StopEndsWell(s) && Waits(s) && t in s.tasks && Giving(s.tasks[t])
    ensures StopEndsWell(s') && Waits(s') && s'.console == s.console && s'.rt.queue.Queue? == s.rt.queue.Queue?
    ensures t in s'.tasks && AtGive(s'.tasks[t]) && s'.tasks == s.tasks[t := s'.tasks[t]]
    ensures !s.tasks[t].TaskGive? ==> s'.tasks[t].TaskCheckGive?
    ensures s.rt.limit == 0 ==> s'.rt.limit == 0
    ensures s.rt.limit == 1 && PacketPending(s.rt, s.tasks[t]) ==> s'.rt.limit == 0
    decreases StepsLeft(s.tasks[t])
  {
    hide StopEndsWell;
    s' := s;
    if !AtGive(s.tasks[t]) {
      GivingAdvance(s.rt, s.tasks[t]);
      s' := Go(s, TaskStep(t, true));
      s' := RunsToGive(s', t);
    }
  }

  /** Two tasks that both come to give: the second one misuses the semaphore. */
  lemma TwoGivesFail(s: State, t: nat, u: nat)
    requires Waits(s) && s.rt.limit != 0 && t != u
    requires t in s.tasks && AtGive(s.tasks[t]) && u in s.tasks && AtGive(s.tasks[u])
    ensures !StopEndsWell(s)
  {
    hide StopEndsWell;
    if StopEndsWell(s) {
      var s' := s;
      if s'.tasks[t].TaskCheckGive? { s' := Go(s', TaskStep(t, true)); }
      if s'.tasks[u].TaskCheckGive? { s' := Go(s', TaskStep(u, true)); }
      s' := Go(s', TaskStep(t, true));
      s' := Go(s', TaskStep(u, true));
      assert false;
    }
  }

  /** One is at its give already; the other may use up the limit. */
  lemma GiverAndAnotherFail(s: State, t: nat, u: nat)
    requires Waits(s) && s.console == Stopping(StopReadLimit) && s.rt.queue.Queue?
    requires t != u && t in s.tasks && s.tasks[t].TaskGive? && u in s.tasks && Giving(s.tasks[u])
    ensures !StopEndsWell(s)
  {
    hide StopEndsWell;
    if StopEndsWell(s) {
      var s' := RunsToGive(s, u);
      assert s'.tasks[t] == s.tasks[t];
      if s'.rt.limit == 0 {
        GiveFails(s', t);
      } else {
        TwoGivesFail(s', t, u);
      }
      assert false;
    }
  }

  lemma ConsoleWaits(s: State) returns (s': State)
    requires StopEndsWell(s) && Waits(s) && s.console == Stopping(StopReadLimit) && s.rt.limit != 0
    ensures StopEndsWell(s') && Waits(s') && s' == s.(console := Stopping(StopTake))
  {
    hide StopEndsWell;
    s' := Go(s, ConsoleStep(true));
  }

  /** Tasks that give, or are done. */
  predicate AllGiving(s: State) { forall v | v in s.tasks && s.tasks[v] != TaskDone :: Giving(s.tasks[v]) }

  lemma GivingOrNot(task: TaskPc)
    ensures (Giving(task) || task == TaskDone) && !task.TaskGive? ==> NotGiving(task)
    ensures task.TaskCheckGive? ==> NotGiving(task)
  {
  }

  lemma TwoFail(s: State, t: nat, u: nat)
    requires Waits(s) && s.console == Stopping(StopReadLimit) && s.rt.queue.Queue? && s.rt.limit != 0 && AllGiving(s)
    requires t != u && t in s.tasks && s.tasks[t] != TaskDone && u in s.tasks && s.tasks[u] != TaskDone
    ensures !StopEndsWell(s)
  {
    hide StopEndsWell, Giving;
    if v :| v in s.tasks && s.tasks[v].TaskGive? {
      GiverAndAnotherFail(s, v, if v != t then t else u);
    } else if StopEndsWell(s) {
      var s1 := ConsoleWaits(s);
      var s2 := RunsToGive(s1, t);
      assert s2.tasks[u] == s1.tasks[u];
      var s3 := RunsToGive(s2, u);
      assert s3.tasks[t] == s2.tasks[t];
      if s3.rt.limit != 0 {
        TwoGivesFail(s3, t, u);
      } else {
        forall v | v in s3.tasks
          ensures NotGiving(s3.tasks[v])
        {
          GivingOrNot(s3.tasks[v]);
          if v != t && v != u { assert s3.tasks[v] == s.tasks[v]; }
        }
        NeverWokenFails(s3);
      }
      assert false;
    }
  }

  predicate OnlyLive(s: State, g: nat) {
    && g in s.tasks && s.tasks[g] != TaskDone
    && forall v | v in s.tasks && v != g :: s.tasks[v] == TaskDone
  }

  /** The only task counts the limit down to 0. */
  lemma PendingFails(s: State, g: nat)
    requires Waits(s) && s.console == Stopping(StopReadLimit) && OnlyLive(s, g) && Giving(s.tasks[g])
    requires s.rt.limit == 1 && PacketPending(s.rt, s.tasks[g])
    ensures !StopEndsWell(s)
  {
    hide StopEndsWell;
    if StopEndsWell(s) {
      var s1 := ConsoleWaits(s);
      var s2 := RunsToGive(s1, g);
      forall v | v in s2.tasks
        ensures NotGiving(s2.tasks[v])
      {
        if v != g { assert s2.tasks[v] == s.tasks[v]; }
      }
      NeverWokenFails(s2);
      assert false;
    }
  }

  /** The only task hands a packet to a pcap session that is closed. */
  lemma {:induction false} NotWritingFails(s: State, g: nat)
    requires s.console == Stopping(StopReadLimit) && s.rt.queue.Queue? && s.rt.limit != 0
    requires g in s.tasks && CanCapture(s.rt, s.tasks[g]) && !s.rt.writing
    ensures !StopEndsWell(s)
    decreases StepsLeft(s.tasks[g])
  {
    hide StopEndsWell;
    if StopEndsWell(s) {
      var s' := Go(s, TaskStep(g, true));
      if !s.tasks[g].TaskCapture? { NotWritingFails(s', g); }
      assert false;
    }
  }

  lemma NobodyFails(s: State)
    requires Waits(s) && s.console == Stopping(StopReadLimit) && s.rt.limit != 0
    requires forall t | t in s.tasks :: s.tasks[t] == TaskDone
    ensures !StopEndsWell(s)
  {
    hide StopEndsWell;
    if StopEndsWell(s) {
      var s' := ConsoleWaits(s);
      GoesOn(s');
      assert false;
    }
  }

  // ---------------------------------------------------------------- copies that are lost

  lemma NextEvent(s: State) returns (e: Event)
    requires Enabled(s, ConsoleStep(true)) || SomeTaskCan(s)
    ensures Enabled(s, e)
  {
    if Enabled(s, ConsoleStep(true)) {
      e := ConsoleStep(true);
    } else {
      var u: nat :| Enabled(s, TaskStep(u, true));
      e := TaskStep(u, true);
    }
  }

  /** A copy that is not in exactly one place is not freed exactly once in the end. */
  lemma {:induction false} LostFails(s: State, g: nat, id: nat, n: nat)
    requires if s.console == Idle then Harmless(s) && s.rt.queue == NoQueue else Parting(s, g)
    requires Places(s.rt, At(s, g), s.console, id) != if id < s.rt.next then 1 else 0
    ensures !EndsWellWithin(s, n)
    decreases n
  {
    hide EndsWellWithin, Parting, Harmless, Apply, Enabled, Budget, Places, SomeTaskCan;
    if EndsWellWithin(s, n) {
      WellNow(s, n);
      if s.console == Idle {
        ReturnedPlaces(s, g, id);
      } else {
        var e := NextEvent(s);
        Onward(s, n, e);
        PartingStep(s, g, e);
        LostFails(Apply(s, e), g, id, n - 1);
      }
      assert false;
    }
  }

  lemma NothingLost(s: State, g: nat)
    requires StopEndsWell(s) && Parting(s, g)
    ensures Conserved(s.rt, At(s, g), s.console)
  {
    hide EndsWellWithin, Parting, Places;
    var n: nat :| EndsWellWithin(s, n);
    forall id: nat
      ensures Places(s.rt, At(s, g), s.console, id) == if id < s.rt.next then 1 else 0
    {
      if Places(s.rt, At(s, g), s.console, id) != if id < s.rt.next then 1 else 0 {
        assert s.console != Idle by { PartingIsBusy(s, g); }
        LostFails(s, g, id, n);
      }
    }
  }

  // ---------------------------------------------------------------- the theorem

  /** Just after the step that clears `is_running`. */
  predicate ClearedNow(s: State) { s.console == Stopping(StopReadLimit) && Silent(s.rt) && Numbered(s) }

  lemma CleanEndsWell(s: State)
    requires ClearedNow(s) && CleanClear(s) && !s.rt.fault
    ensures StopEndsWell(s)
  {
    hide Harmless, OnlyGiver, Conserved, StopEndsWell;
    var g: nat :|
      && Conserved(s.rt, At(s, g), s.console)
      && ((Harmless(s) && (s.rt.limit == 0 || s.rt.sem.full))
          || (OnlyGiver(s, g) && s.rt.limit != 0 && !s.rt.sem.full));
    PartingEndsWell(s, g);
  }

  lemma UnwaitingIsClean(s: State)
    requires ClearedNow(s) && StopEndsWell(s) && Unwaiting(s)
    ensures CleanClear(s)
  {
    hide StopEndsWell, HarmlessTask, Conserved;
    forall t | t in s.tasks
      ensures HarmlessTask(s.rt.limit, s.tasks[t])
    {
      if !HarmlessTask(s.rt.limit, s.tasks[t]) { NotHarmlessFails(s, t); }
    }
    assert Parting(s, s.current);
    NothingLost(s, s.current);
  }

  lemma AllAreGiving(s: State)
    requires ClearedNow(s) && StopEndsWell(s) && s.rt.queue.Queue? && s.rt.sem == Sem(false) && s.rt.limit != 0
    ensures AllGiving(s)
  {
    hide StopEndsWell;
    forall v | v in s.tasks && s.tasks[v] != TaskDone
      ensures Giving(s.tasks[v])
    {
      if StopsItself(s.tasks[v]) && s.tasks[v] != TaskStop(StopPcap) { StopperFails(s, v); }
    }
  }

  lemma GivingIsGiver(rt: Shared, task: TaskPc)
    requires Giving(task) && !(rt.limit == 1 && PacketPending(rt, task)) && (CanCapture(rt, task) ==> rt.writing)
    ensures Giver(rt, task)
  {
  }

  lemma WaitingIsClean(s: State)
    requires ClearedNow(s) && StopEndsWell(s) && s.rt.queue.Queue? && s.rt.sem == Sem(false) && s.rt.limit != 0
    ensures CleanClear(s)
  {
    hide StopEndsWell, Giving, PacketPending, CanCapture, Conserved, Ending;
    AllAreGiving(s);
    if forall t | t in s.tasks :: s.tasks[t] == TaskDone {
      NobodyFails(s);
    } else {
      var g :| g in s.tasks && s.tasks[g] != TaskDone;
      if u :| u in s.tasks && s.tasks[u] != TaskDone && u != g { TwoFail(s, g, u); }
      assert OnlyLive(s, g);
      if s.rt.limit == 1 && PacketPending(s.rt, s.tasks[g]) { PendingFails(s, g); }
      if CanCapture(s.rt, s.tasks[g]) && !s.rt.writing { NotWritingFails(s, g); }
      GivingIsGiver(s.rt, s.tasks[g]);
      assert Parting(s, g);
      NothingLost(s, g);
    }
  }

  lemma ClearedEndsWellIff(s: State)
    requires ClearedNow(s) && !s.rt.fault
    ensures StopEndsWell(s) <==> CleanClear(s)
  {
    hide StopEndsWell, CleanClear;
    if CleanClear(s) {
      CleanEndsWell(s);
    } else if StopEndsWell(s) {
      if !s.rt.sem.Sem? {
        NoSemaphoreFails(s);
      } else if !s.rt.queue.Queue? {
        QueueGoneFails(s);
      } else if s.rt.limit == 0 || s.rt.sem.full {
        UnwaitingIsClean(s);
      } else {
        WaitingIsClean(s);
      }
      assert false;
    }
  }

  // ---------------------------------------------------------------- over every run

  /** What holds in every run, whatever commands come when. */
  predicate Elementary(s: State) {
    Numbered(s) && (s.console.Stopping? && (s.console.stop.StopClear? || Cleared(s.console.stop)) ==> !s.rt.promiscuous)
  }

  lemma TaskKeepsSilence(rt: Shared, task: TaskPc, ok: bool)
    ensures !rt.promiscuous ==> !TaskAdvance(rt, task, ok).0.promiscuous
  {
  }

  lemma StopKeepsSilence(rt: Shared, pc: StopPc, ok: bool)
    ensures var (rt', pc') := StopStep(rt, pc, ok);
      && (!rt.promiscuous ==> !rt'.promiscuous)
      && (pc.StopDriver? && pc'.Some? ==> !rt'.promiscuous)
      && (pc'.Some? && (pc'.value.StopClear? || Cleared(pc'.value)) ==> pc.StopDriver? || pc.StopClear? || Cleared(pc))
  {
  }

  lemma StartStaysStart(rt: Shared, pc: StartPc, ok: bool)
    ensures !StartStep(rt, pc, ok).1.Stopping?
  {
  }

  lemma ElementaryStep(s: State, e: Event)
    requires Elementary(s) && Enabled(s, e)
    ensures Elementary(Apply(s, e))
  {
    hide TaskAdvance, StopStep, StartStep, Callback;
    match e
    case TaskStep(t, ok) => TaskKeepsSilence(s.rt, s.tasks[t], ok);
    case ConsoleStep(ok) =>
      if s.console.Stopping? { StopKeepsSilence(s.rt, s.console.stop, ok); }
      else { StartStaysStart(s.rt, s.console.start, ok); }
    case _ =>
  }

  lemma InitIsElementary(capacity: nat)
    ensures Elementary(Init(capacity))
  {
  }

  lemma {:induction false} RunIsElementary(capacity: nat, es: seq<Event>)
    requires Run(capacity, es)
    ensures Elementary(After(capacity, es))
  {
    hide Apply, Enabled, Elementary;
    if es != [] {
      RunIsElementary(capacity, es[..|es| - 1]);
      ElementaryStep(After(capacity, es[..|es| - 1]), es[|es| - 1]);
    } else {
      assert Elementary(Init(capacity)) by { InitIsElementary(capacity); }
    }
  }

  /** The last event of the run is the step by which a console stop clears `is_running`. */
  predicate JustCleared(capacity: nat, es: seq<Event>)
    requires Run(capacity, es)
  {
    es != [] && es[|es| - 1].ConsoleStep? && After(capacity, es[..|es| - 1]).console == Stopping(StopClear)
  }

  /** The state with the fault flag lowered, so that it tells about the steps from here on. */
  function FromHere(s: State): State { s.(rt := s.rt.(fault := false)) }

  /** In every run whatever: from the step in which a console stop clears `is_running`, every
      continuation is finite and ends without a fault, without blocking and with every copy
      freed once, if and only if that step leaves a clean state. */
  lemma StopEndsWellIff(capacity: nat, es: seq<Event>)
    requires Run(capacity, es) && JustCleared(capacity, es)
    ensures var s := FromHere(After(capacity, es)); StopEndsWell(s) <==> CleanClear(s)
  {
    hide StopEndsWell, CleanClear;
    RunIsElementary(capacity, es);
    ClearedEndsWellIff(FromHere(After(capacity, es)));
  }
}
