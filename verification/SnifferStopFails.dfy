/** Why a console stop ends well only from a clean state: what goes wrong in each other. */
module SnifferStopFails {
  import opened SnifferLifecycle
  import opened SnifferGuarantees
  import opened SnifferStopEnds

  // ---------------------------------------------------------------- going on

  lemma {:induction false} Prepend(s: State, e: Event, fs: seq<Event>)
    requires s.console != Idle && Enabled(s, e) && StopRun(Apply(s, e), fs)
    ensures StopRun(s, [e] + fs) && AfterStop(s, [e] + fs) == AfterStop(Apply(s, e), fs)
    decreases |fs|
  {
    hide Apply, Enabled;
    var all := [e] + fs;
    if fs == [] {
      assert all[..0] == [];
      assert StopRun(s, all[..0]);
    } else {
      var front := fs[..|fs| - 1];
      Prepend(s, e, front);
      assert all[..|all| - 1] == [e] + front && all[|all| - 1] == fs[|fs| - 1];
    }
  }

  lemma WellNow(s: State, n: nat)
    requires EndsWellWithin(s, n)
    ensures EndsWell(s)
  {
    assert StopRun(s, []) && AfterStop(s, []) == s;
  }

  lemma NoStepsYet(t: State)
    ensures StopRun(t, []) && AfterStop(t, []) == t
  {
  }

  lemma NotFaulty(t: State)
    ensures EndsWell(t) ==> !t.rt.fault
  {
  }

  /** What ends well still does after a step. */
  lemma Onward(s: State, n: nat, e: Event)
    requires EndsWellWithin(s, n) && s.console != Idle && Enabled(s, e)
    ensures 0 < n && EndsWellWithin(Apply(s, e), n - 1) && !Apply(s, e).rt.fault
  {
    hide Apply, Enabled, StopRun, AfterStop, EndsWell;
    var t := Apply(s, e);
    forall fs | StopRun(t, fs)
      ensures |fs| <= n - 1 && EndsWell(AfterStop(t, fs))
    {
      Prepend(s, e, fs);
      assert |[e] + fs| == |fs| + 1;
    }
    NoStepsYet(t);
    Prepend(s, e, []);
    assert |[e] + []| == 1;
    NotFaulty(t);
  }

  lemma Go(s: State, e: Event) returns (t: State)
    requires StopEndsWell(s) && s.console != Idle && Enabled(s, e)
    ensures t == Apply(s, e) && StopEndsWell(t) && !t.rt.fault
  {
    hide Apply, Enabled, EndsWellWithin;
    var n: nat :| EndsWellWithin(s, n);
    Onward(s, n, e);
    t := Apply(s, e);
  }

  lemma GoesOn(s: State)
    requires StopEndsWell(s) && s.console != Idle
    ensures Enabled(s, ConsoleStep(true)) || SomeTaskCan(s)
  {
    hide Enabled, SomeTaskCan;
    var n: nat :| EndsWellWithin(s, n);
    WellNow(s, n);
  }

  // ---------------------------------------------------------------- handles that are gone

  lemma NoSemaphoreFails(s: State)
    requires s.console == Stopping(StopReadLimit) && !s.rt.sem.Sem?
    ensures !StopEndsWell(s)
  {
    hide StopEndsWell;
    if StopEndsWell(s) {
      var t := Go(s, ConsoleStep(true));
      t := Go(t, ConsoleStep(true));
      assert false;
    }
  }

  predicate BeforeDrain(pc: StopPc) {
    pc.StopReadLimit? || pc.StopTake? || pc.StopDeleteSem? || pc.StopNullSem? || pc.StopCount?
  }

  lemma TaskMakesNoQueue(rt: Shared, task: TaskPc, ok: bool)
    requires !rt.queue.Queue?
    ensures !TaskAdvance(rt, task, ok).0.queue.Queue?
  {
  }

  lemma StopMeetsNoQueue(rt: Shared, pc: StopPc)
    requires !rt.queue.Queue? && BeforeDrain(pc)
    ensures var (rt', pc') := StopStep(rt, pc, true);
      && !rt'.queue.Queue? && (pc.StopCount? ==> rt'.fault)
      && (!pc.StopCount? ==> pc'.Some? && BeforeDrain(pc'.value))
  {
  }

  /** A stop that will find no queue cannot end well. */
  lemma {:induction false} NoQueueFails(s: State, n: nat)
    requires !s.rt.queue.Queue? && s.console.Stopping? && BeforeDrain(s.console.stop)
    ensures !EndsWellWithin(s, n)
    decreases n
  {
    hide EndsWellWithin, TaskAdvance, StopStep, BeforeDrain;
    if EndsWellWithin(s, n) {
      WellNow(s, n);
      if Enabled(s, ConsoleStep(true)) {
        Onward(s, n, ConsoleStep(true));
        StopMeetsNoQueue(s.rt, s.console.stop);
        if !s.console.stop.StopCount? { NoQueueFails(Apply(s, ConsoleStep(true)), n - 1); }
      } else {
        var u: nat :| Enabled(s, TaskStep(u, true));
        Onward(s, n, TaskStep(u, true));
        TaskMakesNoQueue(s.rt, s.tasks[u], true);
        NoQueueFails(Apply(s, TaskStep(u, true)), n - 1);
      }
      assert false;
    }
  }

  lemma QueueGoneFails(s: State)
    requires s.console == Stopping(StopReadLimit) && !s.rt.queue.Queue?
    ensures !StopEndsWell(s)
  {
    hide EndsWellWithin;
    forall n: nat ensures !EndsWellWithin(s, n) { NoQueueFails(s, n); }
  }

  // ---------------------------------------------------------------- a task that stops itself

  /** How many steps a task in `sniffer_stop` is from its next use of the semaphore. */
  function ToSemaphore(task: TaskPc): nat {
    if task == TaskStop(StopDriver) then 4 else if task == TaskStop(StopClear) then 3
    else if task == TaskStop(StopReadLimit) then 2
    else if task == TaskStop(StopTake) || task == TaskStop(StopDeleteSem) then 1 else 0
  }

  /** It uses a semaphore that is gone. */
  lemma {:induction false} DeadSemaphoreFails(s: State, t: nat)
    requires s.console != Idle && !s.rt.sem.Sem? && t in s.tasks && ToSemaphore(s.tasks[t]) > 0
    ensures !StopEndsWell(s)
    decreases ToSemaphore(s.tasks[t])
  {
    hide StopEndsWell;
    if StopEndsWell(s) {
      var s' := Go(s, TaskStep(t, true));
      if ToSemaphore(s.tasks[t]) > 1 { DeadSemaphoreFails(s', t); }
      assert false;
    }
  }

  predicate InQueuePart(task: TaskPc) {
    task.TaskStop? &&
    (task.stop.StopCount? || task.stop.StopDrain? || task.stop.StopFree?
     || task.stop.StopDeleteQueue? || task.stop.StopNullQueue?)
  }

  /** It deletes the queue that the console will ask. */
  lemma {:induction false} QueuePartFails(s: State, t: nat)
    requires s.console == Stopping(StopReadLimit) && s.rt.queue.Queue?
    requires t in s.tasks && InQueuePart(s.tasks[t])
    ensures !StopEndsWell(s)
    decreases StopStepsLeft(s.rt, s.tasks[t].stop)
  {
    hide StopEndsWell;
    if StopEndsWell(s) {
      var s' := Go(s, TaskStep(t, true));
      if s'.rt.queue.Queue? {
        QueuePartFails(s', t);
      } else {
        QueueGoneFails(s');
      }
      assert false;
    }
  }

  /** It nulls the semaphore that the console will use. */
  lemma SemPartFails(s: State, t: nat)
    requires s.console == Stopping(StopReadLimit) && s.rt.sem.Sem?
    requires t in s.tasks && (s.tasks[t] == TaskStop(StopNullSem) || s.tasks[t] == TaskStop(StopDeleteSem))
    ensures !StopEndsWell(s)
  {
    hide StopEndsWell;
    if StopEndsWell(s) {
      var s' := Go(s, TaskStep(t, true));
      NoSemaphoreFails(s');
      assert false;
    }
  }

  // ---------------------------------------------------------------- a console that does not wait

  predicate Unwaiting(s: State) {
    && s.console == Stopping(StopReadLimit) && s.rt.queue.Queue?
    && (s.rt.sem == Sem(true) || (s.rt.limit == 0 && s.rt.sem.Sem?))
  }

  lemma DeletesSemaphore(s: State) returns (s': State)
    requires StopEndsWell(s) && Unwaiting(s)
    ensures StopEndsWell(s') && s'.console == Stopping(StopNullSem) && s'.tasks == s.tasks
    ensures s'.rt == s.rt.(sem := DeadSem, takes := s'.rt.takes)
  {
    hide StopEndsWell;
    s' := Go(s, ConsoleStep(true));
    if s.rt.limit != 0 { s' := Go(s', ConsoleStep(true)); }
    s' := Go(s', ConsoleStep(true));
  }

  lemma {:induction false} DrainsQueue(s: State) returns (s': State)
    requires StopEndsWell(s) && s.console.Stopping? && s.console.stop.StopDrain?
    requires s.rt.queue.Queue? && |s.rt.queue.items| == s.console.stop.left
    ensures StopEndsWell(s') && s'.console == Stopping(StopDeleteQueue) && s'.tasks == s.tasks
    ensures s'.rt == s.rt.(queue := Queue([]), freed := s.rt.freed + multiset(s.rt.queue.items))
    decreases s.console.stop.left
  {
    hide StopEndsWell;
    s' := Go(s, ConsoleStep(true));
    if 0 < s.console.stop.left {
      QueuePop(s.rt.queue.items);
      s' := Go(s', ConsoleStep(true));
      s' := DrainsQueue(s');
    }
  }

  /** The console alone, up to where it has deleted the queue. */
  lemma DeletesQueue(s: State) returns (s': State)
    requires StopEndsWell(s) && Unwaiting(s)
    ensures StopEndsWell(s') && s'.console == Stopping(StopNullQueue) && s'.tasks == s.tasks
    ensures s'.rt == s.rt.(sem := NoSem, takes := s'.rt.takes, queue := DeadQueue,
                           freed := s.rt.freed + multiset(s.rt.queue.items))
  {
    hide StopEndsWell;
    s' := DeletesSemaphore(s);
    s' := Go(s', ConsoleStep(true));
    s' := Go(s', ConsoleStep(true));
    s' := DrainsQueue(s');
    s' := Go(s', ConsoleStep(true));
  }

  lemma ReturnedWell(s: State)
    requires StopEndsWell(s) && s.console == Idle
    ensures AllFreedOnce(s.rt)
  {
    var n: nat :| EndsWellWithin(s, n);
    WellNow(s, n);
  }

  /** The console alone, until it has returned. */
  lemma ReturnsFreed(s: State, id: nat)
    requires StopEndsWell(s) && Unwaiting(s)
    ensures s.rt.freed[id] + multiset(s.rt.queue.items)[id] == if id < s.rt.next then 1 else 0
  {
    hide StopEndsWell;
    var s' := DeletesQueue(s);
    s' := Go(s', ConsoleStep(true));
    s' := Go(s', ConsoleStep(true));
    assert s'.console == Idle && s'.rt.freed == s.rt.freed + multiset(s.rt.queue.items) && s'.rt.next == s.rt.next;
    ReturnedWell(s');
    assert s'.rt.freed[id] == if id < s'.rt.next then 1 else 0;
  }

  lemma GiveFails(s: State, t: nat)
    requires Unwaiting(s) && t in s.tasks && s.tasks[t].TaskGive?
    ensures !StopEndsWell(s)
  {
    hide StopEndsWell;
    if StopEndsWell(s) {
      var s' := DeletesSemaphore(s);
      s' := Go(s', TaskStep(t, true));
      assert false;
    }
  }

  lemma ReceiveFails(s: State, t: nat)
    requires Unwaiting(s) && t in s.tasks && s.tasks[t].TaskReceive?
    ensures !StopEndsWell(s)
  {
    hide StopEndsWell;
    if StopEndsWell(s) {
      var s' := DeletesQueue(s);
      s' := Go(s', TaskStep(t, true));
      assert false;
    }
  }

  /** The copy it holds is freed in one continuation and not in another. */
  lemma FreeFails(s: State, t: nat)
    requires Unwaiting(s) && t in s.tasks && s.tasks[t].TaskFree?
    ensures !StopEndsWell(s)
  {
    hide StopEndsWell;
    if StopEndsWell(s) {
      var p := s.tasks[t].handed;
      ReturnsFreed(s, p);
      var s' := Go(s, TaskStep(t, true));
      ReturnsFreed(s', p);
      assert false;
    }
  }

  lemma CaptureFails(s: State, t: nat)
    requires Unwaiting(s) && t in s.tasks && s.tasks[t].TaskCapture?
    ensures !StopEndsWell(s)
  {
    hide StopEndsWell;
    if StopEndsWell(s) {
      var s' := Go(s, TaskStep(t, true));
      FreeFails(s', t);
      assert false;
    }
  }

  /** It comes to its give, or to the queue. */
  lemma {:induction false} ActiveFails(s: State, t: nat)
    requires Unwaiting(s) && !s.rt.running && t in s.tasks && !StopsItself(s.tasks[t])
    requires !HarmlessTask(s.rt.limit, s.tasks[t])
    ensures !StopEndsWell(s)
    decreases StepsLeft(s.tasks[t])
  {
    hide StopEndsWell;
    var task := s.tasks[t];
    if task.TaskGive? {
      GiveFails(s, t);
    } else if task.TaskReceive? {
      ReceiveFails(s, t);
    } else if task.TaskFree? {
      FreeFails(s, t);
    } else if task.TaskCapture? {
      CaptureFails(s, t);
    } else if StopEndsWell(s) {
      var s' := Go(s, TaskStep(t, true));
      ActiveFails(s', t);
      assert false;
    }
  }

  lemma PcapFails(s: State, t: nat)
    requires Unwaiting(s) && !s.rt.running && t in s.tasks && s.tasks[t] == TaskStop(StopPcap) && s.rt.limit != 0
    ensures !StopEndsWell(s)
  {
    hide StopEndsWell;
    if StopEndsWell(s) {
      var s' := Go(s, TaskStep(t, true));
      ActiveFails(s', t);
      assert false;
    }
  }

  lemma SemaphoreAgainFails(s: State, t: nat)
    requires Unwaiting(s) && t in s.tasks && ToSemaphore(s.tasks[t]) > 0
    ensures !StopEndsWell(s)
  {
    hide StopEndsWell;
    if StopEndsWell(s) {
      var s' := DeletesSemaphore(s);
      DeadSemaphoreFails(s', t);
      assert false;
    }
  }

  /** A console that does not wait needs all tasks harmless. */
  lemma NotHarmlessFails(s: State, t: nat)
    requires Unwaiting(s) && !s.rt.running && t in s.tasks && !HarmlessTask(s.rt.limit, s.tasks[t])
    ensures !StopEndsWell(s)
  {
    hide StopEndsWell;
    var task := s.tasks[t];
    if !StopsItself(task) {
      ActiveFails(s, t);
    } else if task == TaskStop(StopPcap) {
      PcapFails(s, t);
    } else if ToSemaphore(task) > 0 {
      SemaphoreAgainFails(s, t);
    } else if task == TaskStop(StopNullSem) {
      SemPartFails(s, t);
    } else {
      QueuePartFails(s, t);
    }
  }
}
