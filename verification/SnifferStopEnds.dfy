/** How a console stop ends once it has cleared `is_running`, in any run whatever: what it
    means to end well, and the states from which every continuation does. */
module SnifferStopEnds {
  import opened Words
  import opened SnifferLifecycle
  import opened SnifferStops
  import opened SnifferGuarantees

  // ---------------------------------------------------------------- continuations of a stop

  /** The steps that follow while the console is in its command, and where they lead. */
  predicate StopRun(s: State, fs: seq<Event>)
    decreases |fs|, 0
  {
    fs == [] ||
    (var before := fs[..|fs| - 1];
     && StopRun(s, before)
     && AfterStop(s, before).console != Idle && Enabled(AfterStop(s, before), fs[|fs| - 1]))
  }

  function AfterStop(s: State, fs: seq<Event>): State
    requires StopRun(s, fs)
    decreases |fs|, 1
  {
    if fs == [] then s else Apply(AfterStop(s, fs[..|fs| - 1]), fs[|fs| - 1])
  }

  ghost predicate SomeTaskCan(t: State) { exists u: nat :: Enabled(t, TaskStep(u, true)) }

  /** Nothing was misused; something can go on until the stop returns; and then every copy
      is freed. */
  ghost predicate EndsWell(t: State) {
    && !t.rt.fault
    && if t.console == Idle then AllFreedOnce(t.rt) else Enabled(t, ConsoleStep(true)) || SomeTaskCan(t)
  }

  ghost predicate EndsWellWithin(s: State, n: nat) {
    forall fs | StopRun(s, fs) :: |fs| <= n && EndsWell(AfterStop(s, fs))
  }

  /** Every continuation of the stop is finite, goes on until the stop returns, and ends well. */
  ghost predicate StopEndsWell(s: State) { exists n: nat :: EndsWellWithin(s, n) }

  // ---------------------------------------------------------------- the condition

  function At(s: State, t: nat): TaskPc { if t in s.tasks then s.tasks[t] else TaskDone }

  /** A task that holds no packet, takes none, and gives no semaphore, whatever happens to
      the handles. */
  predicate HarmlessTask(limit: int, task: TaskPc) {
    || task.TaskDone?
    || (limit == 1 && task.TaskCountDown?)
    || (limit == 0 &&
        (task.TaskLoop? || task.TaskLimit? || task.TaskCountDown? || task.TaskCheckGive?
         || task == TaskStop(StopCheck) || task == TaskStop(StopPcap)))
  }

  predicate Harmless(s: State) { forall t | t in s.tasks :: HarmlessTask(s.rt.limit, s.tasks[t]) }

  /** A task that can still hand a packet to the pcap session. */
  predicate CanCapture(rt: Shared, task: TaskPc) {
    task.TaskCapture? || ((task.TaskReceive? || task.TaskLimit?) && rt.queue.Queue? && rt.queue.items != [])
  }

  /** A task that will give the semaphore, once, before it ends. */
  predicate Giver(rt: Shared, task: TaskPc) {
    && (Ending(task) || task == TaskStop(StopCheck) || task == TaskStop(StopPcap))
    && !(rt.limit == 1 && PacketPending(rt, task))
    && (CanCapture(rt, task) ==> rt.writing)
  }

  predicate OnlyGiver(s: State, g: nat) {
    && g in s.tasks && Giver(s.rt, s.tasks[g])
    && forall t | t in s.tasks && t != g :: s.tasks[t] == TaskDone
  }

  /** The state in which a console stop has just cleared `is_running` and will end well:
      queue and semaphore exist, every copy is in one place, and either no task is in the
      way and the console does not wait for one, or it waits and exactly one task is left,
      which will give. */
  ghost predicate CleanClear(s: State) {
    && s.rt.queue.Queue? && s.rt.sem.Sem?
    && exists g: nat ::
         && Conserved(s.rt, At(s, g), s.console)
         && ((Harmless(s) && (s.rt.limit == 0 || s.rt.sem.full))
             || (OnlyGiver(s, g) && s.rt.limit != 0 && !s.rt.sem.full))
  }

  // ---------------------------------------------------------------- a clean stop on its way

  /** The tasks have numbers up to the latest one. */
  predicate Numbered(s: State) { forall t | t in s.tasks :: t <= s.current }

  /** The console does not wait in vain. */
  predicate Unhindered(rt: Shared, pc: StopPc) {
    (pc.StopReadLimit? ==> rt.limit == 0 || rt.sem == Sem(true)) && (pc.StopTake? ==> rt.sem == Sem(true))
  }

  predicate Silent(rt: Shared) { !rt.running && !rt.promiscuous }

  predicate Awaiting(rt: Shared, pc: StopPc) {
    rt.limit != 0 && rt.sem == Sem(false) && (pc.StopReadLimit? || pc.StopTake?)
  }

  predicate Parting(s: State, g: nat) {
    && s.console.Stopping? && Cleared(s.console.stop) && Silent(s.rt) && Numbered(s)
    && StopHandles(s.rt, s.console.stop)
    && ((Harmless(s) && Unhindered(s.rt, s.console.stop)) || (OnlyGiver(s, g) && Awaiting(s.rt, s.console.stop)))
  }

  /** The steps of `sniffer_stop` from `pc` on, with so many copies queued until it counts them. */
  function StopStepsWith(queued: nat, pc: StopPc): (n: nat)
    ensures n > 0
  {
    match pc
    case StopDrain(left) => 4 + 2 * left case StopFree(rest, _) => 5 + 2 * rest
    case StopDeleteQueue => 3 case StopNullQueue => 2 case StopPcap => 1
    case StopCount => 5 + 2 * queued case StopNullSem => 6 + 2 * queued case StopDeleteSem => 7 + 2 * queued
    case StopTake => 8 + 2 * queued case StopReadLimit => 9 + 2 * queued
    case StopClear => 10 + 2 * queued case StopDriver => 11 + 2 * queued case StopCheck => 12 + 2 * queued
  }

  function StopStepsLeft(rt: Shared, pc: StopPc): (n: nat)
    ensures n > 0
  {
    StopStepsWith(if rt.queue.Queue? then |rt.queue.items| else 0, pc)
  }

  /** The steps that tasks below `n` still make once `is_running` is false. */
  function TaskStepsLeft(tasks: map<nat, TaskPc>, n: nat): nat {
    if n == 0 then 0
    else TaskStepsLeft(tasks, n - 1) + if n - 1 in tasks then StepsLeft(tasks[n - 1]) else 0
  }

  /** A bound on the steps of the tasks and of the stop. */
  function Budget(s: State): nat {
    TaskStepsLeft(s.tasks, s.current + 1) + if s.console.Stopping? then StopStepsLeft(s.rt, s.console.stop) else 0
  }

  lemma {:induction false} TaskStepsDrop(tasks: map<nat, TaskPc>, t: nat, task: TaskPc, n: nat)
    requires t in tasks && StepsLeft(task) < StepsLeft(tasks[t])
    ensures if t < n then TaskStepsLeft(tasks[t := task], n) < TaskStepsLeft(tasks, n)
            else TaskStepsLeft(tasks[t := task], n) == TaskStepsLeft(tasks, n)
  {
    if n > 0 {
      TaskStepsDrop(tasks, t, task, n - 1);
    }
  }

  lemma HarmlessAdvance(rt: Shared, task: TaskPc, ok: bool)
    requires HarmlessTask(rt.limit, task) && task != TaskDone && !rt.running
    ensures var (rt', task') := TaskAdvance(rt, task, ok);
      && rt' == rt.(limit := rt'.limit, writing := rt'.writing)
      && (rt'.limit == rt.limit || rt.limit == 1) && (rt.limit == 1 ==> rt'.limit == 0)
      && HarmlessTask(rt'.limit, task') && StepsLeft(task') < StepsLeft(task)
  {
  }

  lemma HarmlessHolds(limit: int, task: TaskPc, id: nat)
    requires HarmlessTask(limit, task)
    ensures TaskHand(task, id) == 0 && (limit == 1 ==> HarmlessTask(0, task))
  {
  }

  lemma GiverAdvance(rt: Shared, task: TaskPc, ok: bool)
    requires Giver(rt, task) && rt.limit != 0 && Silent(rt) && rt.queue.Queue? && rt.sem == Sem(false)
    ensures var (rt', task') := TaskAdvance(rt, task, ok);
      && Silent(rt') && rt'.queue.Queue? && |rt'.queue.items| <= |rt.queue.items| && rt'.next == rt.next
      && rt'.limit != 0 && StepsLeft(task') < StepsLeft(task)
      && (if task' == TaskDone then rt'.sem == Sem(true) else rt'.sem == Sem(false) && Giver(rt', task'))
      && (task.TaskFree? || rt'.fault == rt.fault)
      && (task.TaskFree? && task.handed !in rt.freed ==> rt'.fault == rt.fault)
  {
  }

  lemma GiverPlaces(rt: Shared, task: TaskPc, ok: bool, id: nat)
    requires Giver(rt, task) && !rt.running && rt.limit != 0
    ensures var (rt', task') := TaskAdvance(rt, task, ok);
      rt'.freed[id] + Queued(rt'.queue, id) + TaskHand(task', id)
      == rt.freed[id] + Queued(rt.queue, id) + TaskHand(task, id)
  {
    if Capturing(task) {
      CapturePlaces(rt, task, ok, id);
    }
  }

  lemma StopLeavesAlone(rt: Shared, pc: StopPc, ok: bool)
    requires Cleared(pc)
    ensures var (rt', pc') := StopStep(rt, pc, ok);
      && rt'.limit == rt.limit && rt'.running == rt.running && rt'.promiscuous == rt.promiscuous && rt'.next == rt.next
      && (pc'.Some? ==> Cleared(pc'.value)) && (pc'.None? <==> pc.StopPcap?)
  {
  }

  lemma StopHandlesFault(rt: Shared, pc: StopPc, ok: bool)
    requires StopHandles(rt, pc) && Cleared(pc)
    ensures (pc.StopFree? ==> pc.packet !in rt.freed) ==> StopStep(rt, pc, ok).0.fault == rt.fault
  {
  }

  lemma StopHandlesNext(rt: Shared, pc: StopPc, ok: bool)
    requires StopHandles(rt, pc) && Cleared(pc)
    ensures var (rt', pc') := StopStep(rt, pc, ok);
      if pc'.Some? then StopHandles(rt', pc'.value) && StopStepsLeft(rt', pc'.value) < StopStepsLeft(rt, pc)
      else rt'.queue == NoQueue
  {
  }

  lemma StopHandlesStep(rt: Shared, pc: StopPc, ok: bool)
    requires StopHandles(rt, pc) && Cleared(pc)
    ensures var (rt', pc') := StopStep(rt, pc, ok);
      && rt'.limit == rt.limit && rt'.running == rt.running && rt'.promiscuous == rt.promiscuous && rt'.next == rt.next
      && ((pc.StopFree? ==> pc.packet !in rt.freed) ==> rt'.fault == rt.fault)
      && (if pc'.Some? then
            Cleared(pc'.value) && StopHandles(rt', pc'.value) && StopStepsLeft(rt', pc'.value) < StopStepsLeft(rt, pc)
          else rt'.queue == NoQueue)
  {
    hide StopStep, StopHandles, StopStepsLeft;
    StopLeavesAlone(rt, pc, ok);
    StopHandlesFault(rt, pc, ok);
    StopHandlesNext(rt, pc, ok);
  }

  /** The way of the console through its two first steps. */
  lemma StopWay(rt: Shared, pc: StopPc, ok: bool)
    requires Cleared(pc)
    ensures var (rt', pc') := StopStep(rt, pc, ok);
      && (pc.StopReadLimit? ==> rt' == rt && pc' == Some(if rt.limit != 0 then StopTake else StopDeleteSem))
      && (!pc.StopReadLimit? && pc'.Some? ==> !pc'.value.StopReadLimit? && !pc'.value.StopTake?)
  {
  }

  // ---------------------------------------------------------------- one step

  /** Every copy stays in as many places. */
  ghost predicate KeepsPlaces(s: State, s': State, g: nat) {
    && s'.rt.next == s.rt.next
    && forall id: nat :: Places(s'.rt, At(s', g), s'.console, id) == Places(s.rt, At(s, g), s.console, id)
  }

  lemma HarmlessHandles(rt: Shared, rt': Shared, pc: StopPc)
    requires rt' == rt.(limit := rt'.limit, writing := rt'.writing)
    ensures StopHandles(rt, pc) ==> StopHandles(rt', pc)
    ensures StopStepsLeft(rt', pc) == StopStepsLeft(rt, pc)
  {
  }

  lemma NoHand(s: State, g: nat, id: nat)
    requires Harmless(s)
    ensures TaskHand(At(s, g), id) == 0
  {
    if g in s.tasks { HarmlessHolds(s.rt.limit, s.tasks[g], id); }
  }

  lemma PlacesSplit(s: State, s': State, g: nat, id: nat)
    requires s'.rt.freed[id] + Queued(s'.rt.queue, id) + TaskHand(At(s', g), id) + ConsoleHand(s'.console, id)
          == s.rt.freed[id] + Queued(s.rt.queue, id) + TaskHand(At(s, g), id) + ConsoleHand(s.console, id)
    ensures Places(s'.rt, At(s', g), s'.console, id) == Places(s.rt, At(s, g), s.console, id)
  {
  }

  lemma HarmlessStep(s: State, g: nat, t: nat, ok: bool)
    requires Parting(s, g) && Harmless(s) && Unhindered(s.rt, s.console.stop) && Enabled(s, TaskStep(t, ok))
    ensures var s' := Apply(s, TaskStep(t, ok));
      && Parting(s', g) && s'.rt.fault == s.rt.fault && Budget(s') < Budget(s) && KeepsPlaces(s, s', g)
  {
    hide TaskAdvance, HarmlessTask, Places, StepsLeft;
    var s' := Apply(s, TaskStep(t, ok));
    HarmlessAdvance(s.rt, s.tasks[t], ok);
    forall u | u in s'.tasks
      ensures HarmlessTask(s'.rt.limit, s'.tasks[u])
    {
      HarmlessHolds(s.rt.limit, s.tasks[u], 0);
    }
    HarmlessHandles(s.rt, s'.rt, s.console.stop);
    TaskStepsDrop(s.tasks, t, s'.tasks[t], s.current + 1);
    forall id: nat
      ensures Places(s'.rt, At(s', g), s'.console, id) == Places(s.rt, At(s, g), s.console, id)
    {
      NoHand(s, g, id);
      NoHand(s', g, id);
      PlacesSplit(s, s', g, id);
    }
  }

  lemma FewerToDrain(rt: Shared, rt': Shared, pc: StopPc)
    requires rt.queue.Queue? && rt'.queue.Queue? && |rt'.queue.items| <= |rt.queue.items|
    requires pc.StopReadLimit? || pc.StopTake?
    ensures StopStepsLeft(rt', pc) <= StopStepsLeft(rt, pc)
    ensures rt'.sem.Sem? ==> StopHandles(rt', pc)
  {
  }

  lemma GiverStep(s: State, g: nat, t: nat, ok: bool)
    requires Parting(s, g) && OnlyGiver(s, g) && Awaiting(s.rt, s.console.stop) && Enabled(s, TaskStep(t, ok))
    ensures var s' := Apply(s, TaskStep(t, ok));
      && Parting(s', g) && Budget(s') < Budget(s) && KeepsPlaces(s, s', g)
      && ((s.tasks[t].TaskFree? ==> s.tasks[t].handed !in s.rt.freed) ==> s'.rt.fault == s.rt.fault)
  {
    hide TaskAdvance, Giver, Places, StepsLeft, StopStepsLeft;
    var pc, s' := s.console.stop, Apply(s, TaskStep(t, ok));
    assert t == g;
    GiverAdvance(s.rt, s.tasks[t], ok);
    FewerToDrain(s.rt, s'.rt, pc);
    TaskStepsDrop(s.tasks, t, s'.tasks[t], s.current + 1);
    forall id: nat
      ensures Places(s'.rt, At(s', g), s'.console, id) == Places(s.rt, At(s, g), s.console, id)
    {
      GiverPlaces(s.rt, s.tasks[t], ok, id);
      PlacesSplit(s, s', g, id);
    }
  }

  lemma ReadGiver(rt: Shared, pc: StopPc, ok: bool, task: TaskPc)
    requires Awaiting(rt, pc) && StopReady(rt, pc)
    ensures var (rt', pc') := StopStep(rt, pc, ok); rt' == rt && pc' == Some(StopTake)
  {
  }

  lemma UnhinderedStep(rt: Shared, pc: StopPc, ok: bool)
    requires Unhindered(rt, pc) && Cleared(pc)
    ensures var (rt', pc') := StopStep(rt, pc, ok); pc'.Some? ==> Unhindered(rt', pc'.value)
  {
  }

  lemma DrainsEmpty(rt: Shared, pc: StopPc)
    requires StopHandles(rt, pc)
    ensures rt.queue.Queue? ==> !pc.StopNullQueue? && (pc.StopDeleteQueue? ==> rt.queue.items == [])
  {
  }

  lemma ConsolePartingStep(s: State, g: nat, ok: bool)
    requires Parting(s, g) && Enabled(s, ConsoleStep(ok))
    ensures var s' := Apply(s, ConsoleStep(ok));
      && (if s'.console == Idle then Harmless(s') && s'.rt.queue == NoQueue else Parting(s', g))
      && Budget(s') < Budget(s) && KeepsPlaces(s, s', g)
      && ((s.console.stop.StopFree? ==> s.console.stop.packet !in s.rt.freed) ==> s'.rt.fault == s.rt.fault)
  {
    hide StopStep, HarmlessTask, Giver, Places, StepsLeft, StopStepsLeft, StopHandles, Unhindered;
    var pc, s' := s.console.stop, Apply(s, ConsoleStep(ok));
    StopHandlesStep(s.rt, pc, ok);
    if OnlyGiver(s, g) && Awaiting(s.rt, pc) {
      ReadGiver(s.rt, pc, ok, s.tasks[g]);
    } else {
      UnhinderedStep(s.rt, pc, ok);
    }
    forall id: nat
      ensures Places(s'.rt, At(s', g), s'.console, id) == Places(s.rt, At(s, g), s.console, id)
    {
      DrainsEmpty(s.rt, pc);
      StopStepConserves(s.rt, pc, ok, id);
      PlacesSplit(s, s', g, id);
    }
  }

  lemma PartingEvents(s: State, g: nat, e: Event)
    requires Parting(s, g) && Enabled(s, e)
    ensures e.TaskStep? || e.ConsoleStep?
  {
  }

  lemma TaskKeepsConsole(s: State, t: nat, ok: bool)
    requires Enabled(s, TaskStep(t, ok))
    ensures Apply(s, TaskStep(t, ok)).console == s.console && t in s.tasks
  {
  }

  lemma GiverIsAt(s: State, g: nat, t: nat, ok: bool)
    requires OnlyGiver(s, g) && Enabled(s, TaskStep(t, ok))
    ensures t == g && s.tasks[t] == At(s, g)
  {
  }

  lemma HeldIsNotFreed(s: State, g: nat)
    ensures Conserved(s.rt, At(s, g), s.console) ==>
      && (At(s, g).TaskFree? ==> At(s, g).handed !in s.rt.freed)
      && (s.console.Stopping? && s.console.stop.StopFree? ==> s.console.stop.packet !in s.rt.freed)
  {
    if Conserved(s.rt, At(s, g), s.console) {
      if At(s, g).TaskFree? { assert Places(s.rt, At(s, g), s.console, At(s, g).handed) <= 1; }
      if s.console.Stopping? && s.console.stop.StopFree? {
        assert Places(s.rt, At(s, g), s.console, s.console.stop.packet) <= 1;
      }
    }
  }

  lemma PartingStep(s: State, g: nat, e: Event)
    requires Parting(s, g) && Enabled(s, e)
    ensures var s' := Apply(s, e);
      && (if s'.console == Idle then Harmless(s') && s'.rt.queue == NoQueue else Parting(s', g))
      && Budget(s') < Budget(s) && KeepsPlaces(s, s', g)
      && (Conserved(s.rt, At(s, g), s.console) ==> s'.rt.fault == s.rt.fault)
  {
    hide Apply, Enabled, Budget, KeepsPlaces, HarmlessTask, Giver, StopHandles, Conserved, Unhindered;
    PartingEvents(s, g, e);
    HeldIsNotFreed(s, g);
    match e
    case TaskStep(t, ok) =>
      TaskKeepsConsole(s, t, ok);
      if Harmless(s) && Unhindered(s.rt, s.console.stop) {
        HarmlessStep(s, g, t, ok);
      } else {
        GiverIsAt(s, g, t, ok);
        GiverStep(s, g, t, ok);
      }
    case ConsoleStep(ok) => ConsolePartingStep(s, g, ok);
  }

  lemma KeptIsConserved(s: State, s': State, g: nat)
    requires Conserved(s.rt, At(s, g), s.console) && KeepsPlaces(s, s', g)
    ensures Conserved(s'.rt, At(s', g), s'.console)
  {
    hide Places;
    forall id: nat
      ensures Places(s'.rt, At(s', g), s'.console, id) == if id < s'.rt.next then 1 else 0
    {
      assert Places(s.rt, At(s, g), s.console, id) == if id < s.rt.next then 1 else 0;
    }
  }

  /** When the stop has returned, a copy is freed as often as it is in any place. */
  lemma ReturnedPlaces(s: State, g: nat, id: nat)
    requires s.console == Idle && Harmless(s) && s.rt.queue == NoQueue
    ensures Places(s.rt, At(s, g), s.console, id) == s.rt.freed[id]
  {
    NoHand(s, g, id);
  }

  /** A parting stop is never blocked. */
  lemma PartingGoesOn(s: State, g: nat)
    requires Parting(s, g)
    ensures Enabled(s, ConsoleStep(true)) || SomeTaskCan(s)
  {
    if !Enabled(s, ConsoleStep(true)) {
      assert Enabled(s, TaskStep(g, true));
    }
  }

  // ---------------------------------------------------------------- all continuations of it

  lemma PartingIsBusy(s: State, g: nat)
    requires Parting(s, g)
    ensures s.console != Idle
  {
  }

  lemma {:induction false} PartingRun(s: State, g: nat, fs: seq<Event>)
    requires Parting(s, g) && Conserved(s.rt, At(s, g), s.console) && !s.rt.fault && StopRun(s, fs)
    ensures var t := AfterStop(s, fs);
      && |fs| + Budget(t) <= Budget(s) && !t.rt.fault && Conserved(t.rt, At(t, g), t.console)
      && if t.console == Idle then Harmless(t) && t.rt.queue == NoQueue else Parting(t, g)
    decreases |fs|
  {
    hide Parting, Apply, Enabled, Budget, Conserved, Harmless, KeepsPlaces;
    if fs != [] {
      var before := AfterStop(s, fs[..|fs| - 1]);
      PartingRun(s, g, fs[..|fs| - 1]);
      PartingStep(before, g, fs[|fs| - 1]);
      KeptIsConserved(before, AfterStop(s, fs), g);
    } else {
      PartingIsBusy(s, g);
    }
  }

  lemma PartingEndsWell(s: State, g: nat)
    requires Parting(s, g) && Conserved(s.rt, At(s, g), s.console) && !s.rt.fault
    ensures StopEndsWell(s)
  {
    hide Parting, Budget, StopRun, Harmless, Enabled, SomeTaskCan, Apply;
    forall fs | StopRun(s, fs)
      ensures |fs| <= Budget(s) && EndsWell(AfterStop(s, fs))
    {
      PartingRun(s, g, fs);
      var t := AfterStop(s, fs);
      if t.console == Idle {
        forall id: nat ensures t.rt.freed[id] == if id < t.rt.next then 1 else 0 {
          ReturnedPlaces(t, g, id);
        }
      } else {
        PartingGoesOn(t, g);
      }
    }
    assert EndsWellWithin(s, Budget(s));
  }
}
