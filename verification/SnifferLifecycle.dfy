/** The life of one capture of the packet sniffer: the driver callback that copies
    packets into the work queue, the sniffer task that drains it, and the console
    command that starts and stops both.  Every event is one atomic step of one of
    these threads; a run is any interleaving of them. */
module SnifferLifecycle {
  import opened Words

  // ---------------------------------------------------------------- state

  /** The handle `work_queue`: null, a live queue, or a handle to a deleted queue. */
  datatype Queue = NoQueue | Queue(items: seq<nat>) | DeadQueue

  /** The handle `sem_task_over` of the binary semaphore. */
  datatype Sem = NoSem | Sem(full: bool) | DeadSem

  /** Where a thread stands inside `sniffer_stop`. */
  datatype StopPc =
    | StopCheck | StopDriver | StopClear | StopReadLimit | StopTake
    | StopDeleteSem | StopNullSem | StopCount
    | StopDrain(left: nat) | StopFree(rest: nat, packet: nat)
    | StopDeleteQueue | StopNullQueue | StopPcap

  /** Where a sniffer task stands inside `sniffer_task`. */
  datatype TaskPc =
    | TaskLoop | TaskLimit | TaskReceive
    | TaskCapture(received: nat) | TaskFree(handed: nat) | TaskCountDown
    | TaskStop(stop: StopPc)
    | TaskCheckGive | TaskGive | TaskDone

  /** Where the console stands inside `sniffer_start`. */
  datatype StartPc =
    | StartCheck | StartPcap | StartRunning | StartQueue | StartSem | StartTask | StartDriver
    | UndoTask | UndoSem | UndoQueue | UndoRunning

  datatype ConsolePc = Idle | Starting(start: StartPc) | Stopping(stop: StopPc)

  /** What the threads share: `snf_rt`, the pcap session flag `writing`, and the history
      of packet copies.  Copies are numbered in the order of their allocation, `next` is
      the next number and `freed` counts how often each was freed.  `requested` and
      `captured` belong to the latest capture, `gives` and `takes` to the latest
      semaphore.  `fault` is raised by any use of a null or deleted handle, a double
      free, a give to a full semaphore, or a packet handed to a pcap session that is not
      writing. */
  datatype Shared = Shared(
    capacity: nat,
    limit: int, running: bool, promiscuous: bool, writing: bool,
    queue: Queue, sem: Sem,
    next: nat, freed: multiset<nat>,
    requested: int, captured: seq<nat>, gives: nat, takes: nat,
    fault: bool)

  datatype State = State(rt: Shared, tasks: map<nat, TaskPc>, current: nat, console: ConsolePc)

  function Init(capacity: nat): State {
    State(Shared(capacity, 0, false, false, false, NoQueue, NoSem, 0, multiset{}, 0, [], 0, 0, false),
          map[], 0, Idle)
  }

  // ---------------------------------------------------------------- steps

  /** One atomic step.  `ok` is the answer of the call the step makes. */
  datatype Event =
    | CommandStart(limit: int)
    | CommandStop
    | ConsoleStep(ok: bool)
    | TaskStep(task: nat, ok: bool)
    | DriverCallback(copied: bool)

  function Fault(rt: Shared): Shared { rt.(fault := true) }

  function Free(rt: Shared, p: nat): Shared {
    rt.(freed := rt.freed + multiset{p}, fault := rt.fault || p in rt.freed)
  }

  /** The step of `sniffer_stop` at `pc`, whoever runs it; `None` when it returns. */
  function StopStep(rt: Shared, pc: StopPc, ok: bool): (Shared, Option<StopPc>) {
    match pc
    case StopCheck => (rt, if rt.running then Some(StopDriver) else None)
    case StopDriver => if ok then (rt.(promiscuous := false), Some(StopClear)) else (rt, None)
    case StopClear => (rt.(running := false), Some(StopReadLimit))
    case StopReadLimit => (rt, Some(if rt.limit != 0 then StopTake else StopDeleteSem))
    case StopTake =>
      (if rt.sem.Sem? then rt.(sem := Sem(false), takes := rt.takes + 1) else Fault(rt), Some(StopDeleteSem))
    case StopDeleteSem => (if rt.sem.Sem? then rt.(sem := DeadSem) else Fault(rt), Some(StopNullSem))
    case StopNullSem => (rt.(sem := NoSem), Some(StopCount))
    case StopCount =>
      if rt.queue.Queue? then (rt, Some(StopDrain(|rt.queue.items|))) else (Fault(rt), Some(StopDrain(0)))
    case StopDrain(left) =>
      if left == 0 then (rt, Some(StopDeleteQueue))
      else if rt.queue.Queue? && rt.queue.items != [] then
        (rt.(queue := Queue(rt.queue.items[1..])), Some(StopFree(left - 1, rt.queue.items[0])))
      else (Fault(rt), Some(StopDrain(left - 1)))  // would free a stale payload
    case StopFree(rest, p) => (Free(rt, p), Some(StopDrain(rest)))
    case StopDeleteQueue => (if rt.queue.Queue? then rt.(queue := DeadQueue) else Fault(rt), Some(StopNullQueue))
    case StopNullQueue => (rt.(queue := NoQueue), Some(StopPcap))
    case StopPcap => (rt.(writing := false), None)
  }

  /** The step of `sniffer_task` at `pc`, and where it leaves the task. */
  function TaskAdvance(rt: Shared, pc: TaskPc, ok: bool): (Shared, TaskPc) {
    match pc
    case TaskLoop => (rt, if rt.running then TaskLimit else TaskCheckGive)
    case TaskLimit => (rt, if rt.limit == 0 then TaskStop(StopCheck) else TaskReceive)
    case TaskReceive =>
      if !rt.queue.Queue? then (Fault(rt), TaskLoop)
      else if rt.queue.items == [] then (rt, TaskLoop)
      else (rt.(queue := Queue(rt.queue.items[1..])), TaskCapture(rt.queue.items[0]))
    case TaskCapture(p) =>
      (rt.(captured := rt.captured + [p], fault := rt.fault || !rt.writing), TaskFree(p))
    case TaskFree(p) => (Free(rt, p), TaskCountDown)
    case TaskCountDown => (if rt.limit > 0 then rt.(limit := rt.limit - 1) else rt, TaskLoop)
    case TaskStop(stop) =>
      var (rt', stop') := StopStep(rt, stop, ok);
      (rt', if stop'.Some? then TaskStop(stop'.value) else TaskCheckGive)
    case TaskCheckGive => (rt, if rt.limit != 0 then TaskGive else TaskDone)
    case TaskGive =>
      (if rt.sem == Sem(false) then rt.(sem := Sem(true), gives := rt.gives + 1) else Fault(rt), TaskDone)
    case TaskDone => (rt, TaskDone)
  }

  /** What the step of `sniffer_start` at `pc` does to the shared state, and where it
      leaves the console; the task table is updated by `StartTasks`. */
  function StartStep(rt: Shared, pc: StartPc, ok: bool): (Shared, ConsolePc) {
    match pc
    case StartCheck => (rt, if rt.running then Idle else Starting(StartPcap))
    case StartPcap =>
      if ok && !rt.writing then (rt.(writing := true), Starting(StartRunning)) else (rt, Idle)
    case StartRunning => (rt.(running := true), Starting(StartQueue))
    case StartQueue =>
      if ok then (rt.(queue := Queue([])), Starting(StartSem)) else (rt, Starting(UndoRunning))
    case StartSem =>
      if ok then (rt.(sem := Sem(false), gives := 0, takes := 0), Starting(StartTask))
      else (rt, Starting(UndoQueue))
    case StartTask => (rt, Starting(if ok then StartDriver else UndoSem))
    case StartDriver => if ok then (rt.(promiscuous := true), Idle) else (rt, Starting(UndoTask))
    case UndoTask => (rt, Starting(UndoSem))
    case UndoSem => (if rt.sem.Sem? then rt.(sem := NoSem) else Fault(rt), Starting(UndoQueue))
    case UndoQueue => (if rt.queue.Queue? then rt.(queue := NoQueue) else Fault(rt), Starting(UndoRunning))
    case UndoRunning => (rt.(running := false), Idle)
  }

  /** Creating a task adds it to the table; a failed start deletes the task it created. */
  function StartTasks(s: State, pc: StartPc, ok: bool): (map<nat, TaskPc>, nat) {
    if pc.StartTask? && ok then (s.tasks[s.current + 1 := TaskLoop], s.current + 1)
    else if pc.UndoTask? then (s.tasks - {s.current}, s.current)
    else (s.tasks, s.current)
  }

  /** `queue_packet`, as one step of the driver. */
  function Callback(rt: Shared, copied: bool): Shared {
    if !copied then rt
    else
      var id := rt.next;
      var rt' := rt.(next := id + 1);
      match rt.queue
      case NoQueue => rt'  // the copy is leaked
      case DeadQueue => Fault(rt')
      case Queue(items) =>
        if |items| < rt.capacity then rt'.(queue := Queue(items + [id])) else Free(rt', id)
  }

  /** A thread in `sniffer_stop` is blocked while it waits for an empty semaphore. */
  predicate StopReady(rt: Shared, pc: StopPc) { pc == StopTake ==> rt.sem != Sem(false) }

  predicate Enabled(s: State, e: Event) {
    match e
    case CommandStart(_) => s.console == Idle
    case CommandStop => s.console == Idle
    case ConsoleStep(_) =>
      s.console != Idle && (s.console.Stopping? ==> StopReady(s.rt, s.console.stop))
    case TaskStep(t, _) =>
      t in s.tasks && s.tasks[t] != TaskDone && (s.tasks[t].TaskStop? ==> StopReady(s.rt, s.tasks[t].stop))
    case DriverCallback(_) => s.rt.promiscuous
  }

  function Apply(s: State, e: Event): State
    requires Enabled(s, e)
  {
    match e
    case CommandStart(n) =>
      s.(rt := s.rt.(limit := n, requested := n, captured := []), console := Starting(StartCheck))
    case CommandStop => s.(console := Stopping(StopCheck))
    case ConsoleStep(ok) =>
      (match s.console
       case Starting(pc) =>
         var (rt', pc') := StartStep(s.rt, pc, ok);
         var (tasks', current') := StartTasks(s, pc, ok);
         State(rt', tasks', current', pc')
       case Stopping(pc) =>
         var (rt', pc') := StopStep(s.rt, pc, ok);
         s.(rt := rt', console := if pc'.Some? then Stopping(pc'.value) else Idle))
    case TaskStep(t, ok) =>
      var (rt', pc') := TaskAdvance(s.rt, s.tasks[t], ok);
      s.(rt := rt', tasks := s.tasks[t := pc'])
    case DriverCallback(copied) => s.(rt := Callback(s.rt, copied))
  }

  // ---------------------------------------------------------------- runs

  predicate AllDone(s: State) { forall t | t in s.tasks :: s.tasks[t] == TaskDone }

  /** The conditions under which a capture is promised to work: a start comes when no
      task is left and asks for no limit or a positive one, or it comes during an
      unlimited capture and asks for no limit either; a console stop comes only in an
      unlimited capture or when no task is left; and when a task stops its own limited
      capture the driver call succeeds. */
  predicate Disciplined(s: State, e: Event) {
    match e
    case CommandStart(n) => (n != 0 && AllDone(s)) || (n < 0 && s.rt.limit < 0)
    case CommandStop => s.rt.limit < 0 || AllDone(s)
    case TaskStep(t, ok) => t in s.tasks && s.tasks[t] == TaskStop(StopDriver) ==> ok
    case _ => true
  }

  /** The task holds, or will still receive, one packet that it counts. */
  predicate PacketPending(rt: Shared, task: TaskPc) {
    || task.TaskCapture? || task.TaskFree? || task.TaskCountDown?
    || ((task.TaskReceive? || task.TaskLimit?) && rt.queue.Queue? && rt.queue.items != [])
  }

  /** The task is in `sniffer_stop` and has found the capture running. */
  predicate StopsItself(task: TaskPc) { task.TaskStop? && !task.stop.StopCheck? }

  /** The state in which a console stop clears `is_running` without getting in the way of
      the task. */
  predicate ClearWindow(rt: Shared, task: TaskPc) {
    && rt.queue.Queue? && rt.sem.Sem?
    && !StopsItself(task)
    && !(rt.limit == 1 && PacketPending(rt, task))
  }

  /** Which events a run may contain: those above; with console stops at any time; with
      console stops at any time that clear `is_running` only in their window; those above
      with starts that ask for limit `n` when no task is left and, if `again` says so, for
      another limit while there is one; or anything. */
  datatype Discipline = Strict | AnyStop | Orderly | Limits(n: int, again: Option<int>) | Anything

  function Cur(s: State): TaskPc { if s.current in s.tasks then s.tasks[s.current] else TaskDone }

  predicate Allowed(d: Discipline, s: State, e: Event) {
    match d
    case Strict => Disciplined(s, e)
    case AnyStop => e.CommandStop? || Disciplined(s, e)
    case Orderly =>
      && (e.CommandStop? || Disciplined(s, e))
      && (e.ConsoleStep? && s.console == Stopping(StopClear) ==> ClearWindow(s.rt, Cur(s)))
    case Limits(n, again) =>
      if e.CommandStart? then if AllDone(s) then e.limit == n else again == Some(e.limit)
      else Disciplined(s, e)
    case Anything => true
  }

  predicate Run(capacity: nat, es: seq<Event>)
    decreases |es|, 0
  {
    es == [] ||
    (var before := es[..|es| - 1];
     Run(capacity, before) && Enabled(After(capacity, before), es[|es| - 1]))
  }

  function After(capacity: nat, es: seq<Event>): State
    requires Run(capacity, es)
    decreases |es|, 1
  {
    if es == [] then Init(capacity) else Apply(After(capacity, es[..|es| - 1]), es[|es| - 1])
  }

  predicate RunUnder(d: Discipline, capacity: nat, es: seq<Event>) {
    Run(capacity, es) &&
    (es == [] ||
     (var before := es[..|es| - 1];
      RunUnder(d, capacity, before) && Allowed(d, After(capacity, before), es[|es| - 1])))
  }

  // ---------------------------------------------------------------- the invariant

  /** How often copy `id` lies in a queue, or is held by a thread. */
  function Queued(q: Queue, id: nat): nat { if q.Queue? then multiset(q.items)[id] else 0 }

  function StopHand(pc: StopPc, id: nat): nat { if pc.StopFree? && pc.packet == id then 1 else 0 }

  function TaskHand(pc: TaskPc, id: nat): nat {
    match pc
    case TaskCapture(p) => if p == id then 1 else 0
    case TaskFree(p) => if p == id then 1 else 0
    case TaskStop(stop) => StopHand(stop, id)
    case _ => 0
  }

  function ConsoleHand(pc: ConsolePc, id: nat): nat { if pc.Stopping? then StopHand(pc.stop, id) else 0 }

  function Places(rt: Shared, task: TaskPc, console: ConsolePc, id: nat): nat {
    rt.freed[id] + Queued(rt.queue, id) + TaskHand(task, id) + ConsoleHand(console, id)
  }

  /** Every copy ever allocated is in exactly one place: freed, queued, or held. */
  ghost predicate Conserved(rt: Shared, task: TaskPc, console: ConsolePc) {
    forall id: nat :: Places(rt, task, console, id) == if id < rt.next then 1 else 0
  }

  /** The loop of the task, up to the self-stop. */
  predicate Capturing(pc: TaskPc) {
    pc.TaskLoop? || pc.TaskLimit? || pc.TaskReceive? || pc.TaskCapture? || pc.TaskFree? || pc.TaskCountDown?
  }

  predicate InLoop(pc: TaskPc) { Capturing(pc) || pc.TaskStop? }

  predicate NoHandles(rt: Shared) {
    !rt.running && !rt.promiscuous && rt.queue == NoQueue && rt.sem == NoSem
  }

  /** How many packets are captured and how many are still wanted. */
  predicate Counted(rt: Shared, task: TaskPc) {
    if rt.requested < 0 then rt.limit == rt.requested
    else
      && 0 <= rt.limit
      && (task.TaskReceive? || task.TaskCapture? || task.TaskFree? || task.TaskCountDown? ==> 0 < rt.limit)
      && |rt.captured| + rt.limit == rt.requested + (if task.TaskFree? || task.TaskCountDown? then 1 else 0)
  }

  predicate On(rt: Shared, task: TaskPc) {
    && rt.running && rt.writing && rt.queue.Queue? && rt.sem == Sem(false)
    && Capturing(task) && Counted(rt, task) && rt.requested != 0 && rt.gives == 0 == rt.takes
  }

  /** The handles at each point of `sniffer_stop`. */
  predicate StopHandles(rt: Shared, pc: StopPc) {
    match pc
    case StopCheck | StopDriver | StopClear | StopReadLimit | StopTake | StopDeleteSem => rt.queue.Queue? && rt.sem.Sem?
    case StopNullSem => rt.queue.Queue? && rt.sem == DeadSem
    case StopCount => rt.queue.Queue? && rt.sem == NoSem
    case StopDrain(left) => rt.queue.Queue? && |rt.queue.items| == left && rt.sem == NoSem
    case StopFree(rest, _) => rt.queue.Queue? && |rt.queue.items| == rest && rt.sem == NoSem
    case StopDeleteQueue => rt.queue == Queue([]) && rt.sem == NoSem
    case StopNullQueue => rt.queue == DeadQueue && rt.sem == NoSem
    case StopPcap => rt.queue == NoQueue && rt.sem == NoSem
  }

  predicate StopResources(rt: Shared, pc: StopPc) {
    && rt.writing && StopHandles(rt, pc)
    && (if pc.StopCheck? || pc.StopDriver? then rt.running else !rt.promiscuous && (pc.StopClear? <==> rt.running))
  }

  /** A limited capture whose task stops itself: it never comes to the semaphore. */
  predicate SelfStopping(rt: Shared, task: TaskPc) {
    && 0 < rt.requested && rt.limit == 0 && |rt.captured| == rt.requested && rt.gives == 0 == rt.takes
    && if task.TaskStop? then task.stop != StopTake && StopResources(rt, task.stop)
       else task == TaskCheckGive && NoHandles(rt) && !rt.writing
  }

  /** The task of an unlimited capture that is being stopped and has not yet given. */
  predicate Ending(pc: TaskPc) { Capturing(pc) || pc.TaskCheckGive? || pc.TaskGive? }

  predicate StopPhase(rt: Shared, task: TaskPc, pc: StopPc) {
    if pc.StopCheck? then (task == TaskDone && NoHandles(rt)) || (On(rt, task) && rt.limit < 0)
    else if pc.StopDriver? || pc.StopClear? then On(rt, task) && rt.limit < 0 && StopResources(rt, pc)
    else
      && rt.limit < 0 && rt.requested < 0 && StopResources(rt, pc)
      && if pc.StopReadLimit? || pc.StopTake? then
           && rt.takes == 0
           && if rt.sem.full then rt.gives == 1 && task == TaskDone else rt.gives == 0 && Ending(task)
         else
           && rt.gives == 1 == rt.takes && task == TaskDone
  }

  /** The limit as the start command left it. */
  predicate Fresh(rt: Shared) {
    rt.limit == rt.requested != 0 && rt.captured == []
  }

  predicate StartPhase(rt: Shared, task: TaskPc, pc: StartPc) {
    match pc
    case StartCheck => (task == TaskDone && NoHandles(rt) && Fresh(rt)) || (On(rt, task) && rt.limit < 0)
    case StartPcap => task == TaskDone && NoHandles(rt) && Fresh(rt)
    case StartRunning => task == TaskDone && NoHandles(rt) && Fresh(rt) && rt.writing
    case StartDriver | UndoTask =>
      && On(rt, task) && !rt.promiscuous && rt.queue == Queue([])
      && (task.TaskLoop? || task.TaskLimit? || task.TaskReceive?) && rt.limit != 0
    case _ =>
      && rt.running && rt.writing && !rt.promiscuous && task == TaskDone
      && (pc.StartQueue? || pc.StartSem? || pc.StartTask? ==> Fresh(rt))
      && rt.queue == (if pc.StartQueue? || pc.UndoRunning? then NoQueue else Queue([]))
      && rt.sem == (if pc.StartTask? || pc.UndoSem? then Sem(false) else NoSem)
      && (pc.StartTask? ==> rt.gives == 0 == rt.takes)
  }

  predicate Phase(rt: Shared, task: TaskPc, console: ConsolePc) {
    match console
    case Idle => (task == TaskDone && NoHandles(rt)) || On(rt, task) || SelfStopping(rt, task)
    case Starting(pc) => StartPhase(rt, task, pc)
    case Stopping(pc) => StopPhase(rt, task, pc)
  }

  predicate OnlyCurrent(s: State) {
    forall t | t in s.tasks :: t <= s.current && (t != s.current ==> s.tasks[t] == TaskDone)
  }

  ghost predicate Good(rt: Shared, task: TaskPc, console: ConsolePc) {
    !rt.fault && Conserved(rt, task, console) && Phase(rt, task, console)
  }

  ghost predicate Inv(s: State) { OnlyCurrent(s) && Good(s.rt, Cur(s), s.console) }

  // ---------------------------------------------------------------- preservation

  /** A copy a thread holds has not been freed. */
  lemma HeldOnce(rt: Shared, task: TaskPc, console: ConsolePc, p: nat)
    requires Conserved(rt, task, console) && TaskHand(task, p) + ConsoleHand(console, p) == 1
    ensures p !in rt.freed
  {
    assert Places(rt, task, console, p) <= 1;
  }

  lemma QueuePop(items: seq<nat>)
    requires items != []
    ensures multiset(items) == multiset{items[0]} + multiset(items[1..])
  {
    assert items == [items[0]] + items[1..];
  }

  lemma AppendCount(items: seq<nat>, last: nat, id: nat)
    ensures multiset(items + [last])[id] == multiset(items)[id] + if id == last then 1 else 0
  {
  }

  lemma CallbackPlaces(rt: Shared, copied: bool, id: nat)
    requires rt.queue.Queue?
    ensures Callback(rt, copied).freed[id] + Queued(Callback(rt, copied).queue, id)
      == rt.freed[id] + Queued(rt.queue, id) + if copied && id == rt.next then 1 else 0
  {
    AppendCount(rt.queue.items, rt.next, id);
  }

  lemma CallbackFault(rt: Shared, copied: bool)
    requires rt.queue.Queue? && rt.next !in rt.freed
    ensures Callback(rt, copied).fault == rt.fault
    ensures Callback(rt, copied).next == rt.next + if copied then 1 else 0
  {
  }

  lemma CallbackConserves(rt: Shared, task: TaskPc, console: ConsolePc, copied: bool)
    requires Conserved(rt, task, console) && rt.queue.Queue?
    ensures Conserved(Callback(rt, copied), task, console) && Callback(rt, copied).fault == rt.fault
  {
    hide TaskHand, ConsoleHand, Queued, Callback;
    assert Places(rt, task, console, rt.next) == 0;
    var rt' := Callback(rt, copied);
    CallbackFault(rt, copied);
    forall id: nat ensures Places(rt', task, console, id) == if id < rt'.next then 1 else 0 {
      assert Places(rt, task, console, id) == if id < rt.next then 1 else 0;
      CallbackPlaces(rt, copied, id);
    }
  }

  lemma CallbackPhase(rt: Shared, task: TaskPc, console: ConsolePc, copied: bool)
    requires Phase(rt, task, console) && rt.promiscuous
    ensures Phase(Callback(rt, copied), task, console)
  {
  }

  /** The task table after a step of `sniffer_start`, seen from the current task. */
  function StartedTask(task: TaskPc, pc: StartPc, ok: bool): TaskPc {
    if pc.UndoTask? then TaskDone else if pc.StartTask? && ok then TaskLoop else task
  }

  lemma StartPhaseKeeps(rt: Shared, task: TaskPc, pc: StartPc, ok: bool)
    requires StartPhase(rt, task, pc)
    ensures var (rt', pc') := StartStep(rt, pc, ok); Phase(rt', StartedTask(task, pc, ok), pc')
  {
  }

  lemma StartConserves(rt: Shared, task: TaskPc, pc: StartPc, ok: bool)
    requires StartPhase(rt, task, pc) && Conserved(rt, task, Starting(pc))
    ensures var (rt', pc') := StartStep(rt, pc, ok);
      Conserved(rt', StartedTask(task, pc, ok), pc') && rt'.fault == rt.fault
  {
    var (rt', pc') := StartStep(rt, pc, ok);
    forall id: nat
      ensures Places(rt', StartedTask(task, pc, ok), pc', id) == Places(rt, task, Starting(pc), id)
    {
    }
  }

  lemma StopStepResources(rt: Shared, pc: StopPc, ok: bool)
    requires StopResources(rt, pc) && (pc.StopFree? ==> pc.packet !in rt.freed)
    ensures var (rt', pc') := StopStep(rt, pc, ok);
      && rt'.fault == rt.fault
      && (pc'.Some? ==> StopResources(rt', pc'.value))
      && (pc.StopPcap? ==> NoHandles(rt') && !rt'.writing && pc'.None?)
  {
  }

  lemma DrainPlaces(rt: Shared, left: nat, ok: bool, id: nat)
    ensures var (rt', pc') := StopStep(rt, StopDrain(left), ok);
      rt'.freed == rt.freed && pc'.Some? && Queued(rt'.queue, id) + StopHand(pc'.value, id) == Queued(rt.queue, id)
  {
    if left > 0 && rt.queue.Queue? && rt.queue.items != [] { QueuePop(rt.queue.items); }
  }

  lemma StopStepConserves(rt: Shared, pc: StopPc, ok: bool, id: nat)
    requires rt.queue.Queue? ==> !pc.StopNullQueue? && (pc.StopDeleteQueue? ==> rt.queue.items == [])
    ensures var (rt', pc') := StopStep(rt, pc, ok);
      rt'.freed[id] + Queued(rt'.queue, id) + (if pc'.Some? then StopHand(pc'.value, id) else 0)
      == rt.freed[id] + Queued(rt.queue, id) + StopHand(pc, id)
  {
    if pc.StopDrain? {
      DrainPlaces(rt, pc.left, ok, id);
    } else if !pc.StopDeleteQueue? && !pc.StopNullQueue? {
      hide Queued;
      assert StopStep(rt, pc, ok).0.queue == rt.queue;
    }
  }

  lemma StopPhaseKeeps(rt: Shared, task: TaskPc, pc: StopPc, ok: bool)
    requires StopPhase(rt, task, pc) && StopReady(rt, pc) && (pc.StopFree? ==> pc.packet !in rt.freed)
    ensures var (rt', pc') := StopStep(rt, pc, ok);
      Phase(rt', task, if pc'.Some? then Stopping(pc'.value) else Idle) && rt'.fault == rt.fault
  {
    if StopResources(rt, pc) { StopStepResources(rt, pc, ok); }
  }

  lemma StopConserves(rt: Shared, task: TaskPc, pc: StopPc, ok: bool)
    requires StopPhase(rt, task, pc) && Conserved(rt, task, Stopping(pc))
    ensures var (rt', pc') := StopStep(rt, pc, ok);
      Conserved(rt', task, if pc'.Some? then Stopping(pc'.value) else Idle)
  {
    var (rt', pc') := StopStep(rt, pc, ok);
    var console' := if pc'.Some? then Stopping(pc'.value) else Idle;
    assert rt'.next == rt.next;
    forall id: nat ensures Places(rt', task, console', id) == Places(rt, task, Stopping(pc), id) {
      if StopResources(rt, pc) { StopStepConserves(rt, pc, ok, id); }
    }
  }

  // The steps of a task are those of the capture, of a self-stop, or of its end.

  lemma CapturePhase(rt: Shared, task: TaskPc, console: ConsolePc, ok: bool)
    requires Phase(rt, task, console) && Capturing(task)
    ensures var (rt', task') := TaskAdvance(rt, task, ok); Phase(rt', task', console)
  {
  }

  lemma ReceivePlaces(rt: Shared, ok: bool, id: nat)
    ensures var (rt', task') := TaskAdvance(rt, TaskReceive, ok);
      rt'.freed == rt.freed && Queued(rt'.queue, id) + TaskHand(task', id) == Queued(rt.queue, id)
  {
    if rt.queue.Queue? && rt.queue.items != [] { QueuePop(rt.queue.items); }
  }

  lemma CapturePlaces(rt: Shared, task: TaskPc, ok: bool, id: nat)
    requires Capturing(task)
    ensures var (rt', task') := TaskAdvance(rt, task, ok);
      rt'.freed[id] + Queued(rt'.queue, id) + TaskHand(task', id)
      == rt.freed[id] + Queued(rt.queue, id) + TaskHand(task, id)
  {
    hide StopStep;
    if task.TaskReceive? {
      ReceivePlaces(rt, ok, id);
    } else {
      hide Queued;
      assert TaskAdvance(rt, task, ok).0.queue == rt.queue;
    }
  }

  lemma CaptureFault(rt: Shared, task: TaskPc, console: ConsolePc, ok: bool)
    requires Phase(rt, task, console) && Capturing(task) && (task.TaskFree? ==> task.handed !in rt.freed)
    ensures TaskAdvance(rt, task, ok).0.fault == rt.fault
  {
  }

  lemma CaptureConserves(rt: Shared, task: TaskPc, console: ConsolePc, ok: bool)
    requires Capturing(task) && Conserved(rt, task, console)
    ensures var (rt', task') := TaskAdvance(rt, task, ok); Conserved(rt', task', console)
  {
    var (rt', task') := TaskAdvance(rt, task, ok);
    assert rt'.next == rt.next;
    forall id: nat ensures Places(rt', task', console, id) == Places(rt, task, console, id) {
      CapturePlaces(rt, task, ok, id);
    }
  }

  lemma EndKeeps(rt: Shared, task: TaskPc, console: ConsolePc, ok: bool)
    requires Phase(rt, task, console) && (task.TaskCheckGive? || task.TaskGive?)
    ensures var (rt', task') := TaskAdvance(rt, task, ok);
      && Phase(rt', task', console) && rt'.fault == rt.fault
      && (rt'.freed, rt'.queue, rt'.next) == (rt.freed, rt.queue, rt.next)
  {
  }

  lemma SelfStopPhase(rt: Shared, task: TaskPc, console: ConsolePc, ok: bool)
    requires Phase(rt, task, console) && task.TaskStop? && (task.stop.StopFree? ==> task.stop.packet !in rt.freed)
    requires task.stop.StopDriver? ==> ok
    ensures var (rt', task') := TaskAdvance(rt, task, ok);
      Phase(rt', task', console) && rt'.fault == rt.fault
  {
    assert console == Idle && SelfStopping(rt, task);
    StopStepResources(rt, task.stop, ok);
  }

  lemma SelfStopConserves(rt: Shared, task: TaskPc, console: ConsolePc, ok: bool)
    requires Phase(rt, task, console) && task.TaskStop? && Conserved(rt, task, console)
    ensures var (rt', task') := TaskAdvance(rt, task, ok); Conserved(rt', task', console)
  {
    assert console == Idle && SelfStopping(rt, task);
    var (rt', task') := TaskAdvance(rt, task, ok);
    assert rt'.next == rt.next;
    forall id: nat ensures Places(rt', task', console, id) == Places(rt, task, console, id) {
      StopStepConserves(rt, task.stop, ok, id);
    }
  }

  lemma TaskKeeps(rt: Shared, task: TaskPc, console: ConsolePc, ok: bool)
    requires Good(rt, task, console) && task != TaskDone && (task == TaskStop(StopDriver) ==> ok)
    ensures var (rt', task') := TaskAdvance(rt, task, ok); Good(rt', task', console)
  {
    if Capturing(task) {
      CapturePhase(rt, task, console, ok);
      if task.TaskFree? { HeldOnce(rt, task, console, task.handed); }
      CaptureFault(rt, task, console, ok);
      CaptureConserves(rt, task, console, ok);
    } else if task.TaskStop? {
      if task.stop.StopFree? { HeldOnce(rt, task, console, task.stop.packet); }
      SelfStopPhase(rt, task, console, ok);
      SelfStopConserves(rt, task, console, ok);
    } else {
      EndKeeps(rt, task, console, ok);
      var (rt', task') := TaskAdvance(rt, task, ok);
      forall id: nat ensures Places(rt', task', console, id) == Places(rt, task, console, id) {
      }
    }
  }

  lemma CommandStartKeeps(s: State, e: Event)
    requires Inv(s) && e.CommandStart? && Enabled(s, e) && Disciplined(s, e)
    ensures Inv(Apply(s, e))
  {
    var s' := Apply(s, e);
    assert Cur(s) == TaskDone || (On(s.rt, Cur(s)) && s.rt.limit < 0 && e.limit < 0);
    forall id: nat ensures Places(s'.rt, Cur(s'), s'.console, id) == Places(s.rt, Cur(s), s.console, id) {
    }
  }

  lemma CommandStopKeeps(s: State)
    requires Inv(s) && Enabled(s, CommandStop) && Disciplined(s, CommandStop)
    ensures Inv(Apply(s, CommandStop))
  {
    var s' := Apply(s, CommandStop);
    forall id: nat ensures Places(s'.rt, Cur(s'), s'.console, id) == Places(s.rt, Cur(s), s.console, id) {
    }
  }

  lemma StartKeeps(s: State, ok: bool)
    requires Inv(s) && s.console.Starting?
    ensures Inv(Apply(s, ConsoleStep(ok)))
  {
    var pc := s.console.start;
    StartPhaseKeeps(s.rt, Cur(s), pc, ok);
    StartConserves(s.rt, Cur(s), pc, ok);
    var s' := Apply(s, ConsoleStep(ok));
    assert Cur(s') == StartedTask(Cur(s), pc, ok);
  }

  lemma ApplyKeeps(s: State, e: Event)
    requires Inv(s) && Enabled(s, e) && Disciplined(s, e)
    ensures Inv(Apply(s, e))
  {
    hide Conserved, Callback, StopStep, StartStep, TaskAdvance;
    var s' := Apply(s, e);
    match e
    case CommandStart(_) => CommandStartKeeps(s, e);
    case CommandStop => CommandStopKeeps(s);
    case DriverCallback(copied) =>
      CallbackPhase(s.rt, Cur(s), s.console, copied);
      CallbackConserves(s.rt, Cur(s), s.console, copied);
    case TaskStep(t, ok) =>
      TaskKeeps(s.rt, Cur(s), s.console, ok);
    case ConsoleStep(ok) =>
      if s.console.Starting? {
        StartKeeps(s, ok);
      } else {
        var pc := s.console.stop;
        if pc.StopFree? { HeldOnce(s.rt, Cur(s), s.console, pc.packet); }
        StopPhaseKeeps(s.rt, Cur(s), pc, ok);
        StopConserves(s.rt, Cur(s), pc, ok);
      }
  }

  lemma {:induction false} RunKeepsInv(capacity: nat, es: seq<Event>)
    requires RunUnder(Strict, capacity, es)
    ensures Inv(After(capacity, es))
  {
    if es != [] {
      RunKeepsInv(capacity, es[..|es| - 1]);
      ApplyKeeps(After(capacity, es[..|es| - 1]), es[|es| - 1]);
    }
  }
}
