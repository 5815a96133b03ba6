/** Runs that go wrong: stops in a limited capture, and limits that a start may not ask for. */
module SnifferHazards {
  import opened Words
  import opened SnifferLifecycle
  import opened SnifferStopEnds
  import opened SnifferStopWaits

  /** The run `es` leads to the state `s`. */
  predicate LeadsTo(d: Discipline, capacity: nat, es: seq<Event>, s: State) {
    RunUnder(d, capacity, es) && After(capacity, es) == s
  }

  lemma Then(d: Discipline, capacity: nat, es: seq<Event>, s: State, e: Event) returns (es': seq<Event>, s': State)
    requires LeadsTo(d, capacity, es, s) && Enabled(s, e) && Allowed(d, s, e)
    ensures LeadsTo(d, capacity, es', s') && s' == Apply(s, e)
  {
    es', s' := es + [e], Apply(s, e);
    assert es'[..|es|] == es;
  }

  // ---------------------------------------------------------------- stops in a limited capture

  lemma StartingOnePacketCapture(capacity: nat) returns (es: seq<Event>, s: State)
    ensures LeadsTo(AnyStop, capacity, es, s)
    ensures s == State(Shared(capacity, 1, true, false, true, Queue([]), NoSem, 0, multiset{}, 1, [], 0, 0, false),
                       map[], 0, Starting(StartSem))
  {
    es, s := Then(AnyStop, capacity, [], Init(capacity), CommandStart(1));
    es, s := Then(AnyStop, capacity, es, s, ConsoleStep(true));
    es, s := Then(AnyStop, capacity, es, s, ConsoleStep(true));
    es, s := Then(AnyStop, capacity, es, s, ConsoleStep(true));
    es, s := Then(AnyStop, capacity, es, s, ConsoleStep(true));
  }

  lemma StartedOnePacketCapture(capacity: nat) returns (es: seq<Event>, s: State)
    ensures LeadsTo(AnyStop, capacity, es, s)
    ensures s == State(Shared(capacity, 1, true, true, true, Queue([]), Sem(false), 0, multiset{}, 1, [], 0, 0, false),
                       map[1 := TaskLoop], 1, Idle)
  {
    hide LeadsTo;
    es, s := StartingOnePacketCapture(capacity);
    es, s := Then(AnyStop, capacity, es, s, ConsoleStep(true));
    es, s := Then(AnyStop, capacity, es, s, ConsoleStep(true));
    es, s := Then(AnyStop, capacity, es, s, ConsoleStep(true));
  }

  lemma CountingThePacket(capacity: nat) returns (es: seq<Event>, s: State)
    requires 0 < capacity
    ensures LeadsTo(AnyStop, capacity, es, s)
    ensures s.rt.limit == 1 && s.rt.running && s.rt.sem == Sem(false) && s.console == Idle
    ensures s.current == 1 && s.tasks == map[1 := TaskCountDown]
  {
    hide LeadsTo;
    es, s := StartedOnePacketCapture(capacity);
    es, s := Then(AnyStop, capacity, es, s, DriverCallback(true));
    es, s := Then(AnyStop, capacity, es, s, TaskStep(1, true));
    es, s := Then(AnyStop, capacity, es, s, TaskStep(1, true));
    es, s := Then(AnyStop, capacity, es, s, TaskStep(1, true));
    es, s := Then(AnyStop, capacity, es, s, TaskStep(1, true));
    es, s := Then(AnyStop, capacity, es, s, TaskStep(1, true));
  }

  lemma StoppingMeanwhile(capacity: nat) returns (es: seq<Event>, s: State)
    requires 0 < capacity
    ensures LeadsTo(AnyStop, capacity, es, s)
    ensures s.rt.limit == 1 && !s.rt.running && !s.rt.promiscuous && s.rt.sem == Sem(false)
    ensures s.tasks == map[1 := TaskCountDown] && s.console == Stopping(StopTake)
  {
    hide LeadsTo;
    es, s := CountingThePacket(capacity);
    es, s := Then(AnyStop, capacity, es, s, CommandStop);
    es, s := Then(AnyStop, capacity, es, s, ConsoleStep(true));
    es, s := Then(AnyStop, capacity, es, s, ConsoleStep(true));
    es, s := Then(AnyStop, capacity, es, s, ConsoleStep(true));
    es, s := Then(AnyStop, capacity, es, s, ConsoleStep(true));
  }

  lemma TaskGoneMeanwhile(capacity: nat) returns (es: seq<Event>, s: State)
    requires 0 < capacity
    ensures LeadsTo(AnyStop, capacity, es, s)
    ensures !s.rt.promiscuous && s.rt.sem == Sem(false)
    ensures s.tasks == map[1 := TaskDone] && s.console == Stopping(StopTake)
  {
    hide LeadsTo;
    es, s := StoppingMeanwhile(capacity);
    es, s := Then(AnyStop, capacity, es, s, TaskStep(1, true));
    es, s := Then(AnyStop, capacity, es, s, TaskStep(1, true));
    es, s := Then(AnyStop, capacity, es, s, TaskStep(1, true));
  }

  /** A console stop during a limited capture can hang for ever: here is a run after
      which no event at all is possible. */
  lemma StopDuringLimitedCaptureCanDeadlock(capacity: nat) returns (es: seq<Event>)
    requires 0 < capacity
    ensures RunUnder(AnyStop, capacity, es)
    ensures forall e :: !Enabled(After(capacity, es), e)
  {
    var s: State;
    es, s := TaskGoneMeanwhile(capacity);
  }

  lemma TaskStopsItself(capacity: nat) returns (es: seq<Event>, s: State)
    requires 0 < capacity
    ensures LeadsTo(AnyStop, capacity, es, s)
    ensures s.rt.limit == 0 && s.rt.running && s.rt.sem == Sem(false) && s.console == Idle
    ensures s.current == 1 && s.tasks == map[1 := TaskStop(StopDriver)]
  {
    hide LeadsTo;
    es, s := CountingThePacket(capacity);
    es, s := Then(AnyStop, capacity, es, s, TaskStep(1, true));
    es, s := Then(AnyStop, capacity, es, s, TaskStep(1, true));
    es, s := Then(AnyStop, capacity, es, s, TaskStep(1, true));
    es, s := Then(AnyStop, capacity, es, s, TaskStep(1, true));
  }

  lemma ConsoleDeletesToo(capacity: nat) returns (es: seq<Event>, s: State)
    requires 0 < capacity
    ensures LeadsTo(AnyStop, capacity, es, s)
    ensures s.rt.limit == 0 && s.rt.sem == DeadSem && s.tasks == map[1 := TaskStop(StopDriver)]
  {
    hide LeadsTo;
    es, s := TaskStopsItself(capacity);
    es, s := Then(AnyStop, capacity, es, s, CommandStop);
    es, s := Then(AnyStop, capacity, es, s, ConsoleStep(true));
    es, s := Then(AnyStop, capacity, es, s, ConsoleStep(true));
    es, s := Then(AnyStop, capacity, es, s, ConsoleStep(true));
    es, s := Then(AnyStop, capacity, es, s, ConsoleStep(true));
    es, s := Then(AnyStop, capacity, es, s, ConsoleStep(true));
  }

  lemma TaskDeletesToo(capacity: nat) returns (es: seq<Event>, s: State)
    requires 0 < capacity
    ensures LeadsTo(AnyStop, capacity, es, s) && s.rt.fault
  {
    hide LeadsTo;
    es, s := ConsoleDeletesToo(capacity);
    es, s := Then(AnyStop, capacity, es, s, TaskStep(1, true));
    es, s := Then(AnyStop, capacity, es, s, TaskStep(1, true));
    es, s := Then(AnyStop, capacity, es, s, TaskStep(1, true));
    es, s := Then(AnyStop, capacity, es, s, TaskStep(1, true));
  }

  /** A console stop can meet a task that stops itself: here is a run in which both delete
      the semaphore. */
  lemma OverlappingStopsDeleteTwice(capacity: nat) returns (es: seq<Event>)
    requires 0 < capacity
    ensures RunUnder(AnyStop, capacity, es)
    ensures After(capacity, es).rt.fault
  {
    var s: State;
    es, s := TaskDeletesToo(capacity);
  }

  // ---------------------------------------------------------------- limits of a start

  /** No handle was misused, and every copy is freed, queued or held. */
  ghost predicate Sound(s: State) { !s.rt.fault && Conserved(s.rt, Cur(s), s.console) }

  /** The current task is at the top of its loop with the limit at 0, or at `pc` of the stop
      that it then runs; the rest is untouched by its steps. */
  predicate AtZero(s: State, task: TaskPc) {
    && s.current in s.tasks && s.tasks[s.current] == task
    && s.rt.limit == 0
  }

  /** What no step of such a task changes. */
  predicate SameBesides(s: State, s': State) {
    && s'.console == s.console && s'.current == s.current && s'.tasks.Keys == s.tasks.Keys
    && (forall t | t in s.tasks && t != s.current :: s'.tasks[t] == s.tasks[t])
    && s'.rt.limit == s.rt.limit && s'.rt.freed == s.rt.freed && s'.rt.next == s.rt.next
    && s'.rt.capacity == s.rt.capacity
  }

  lemma ZeroStopsItself(d: Discipline, capacity: nat, es: seq<Event>, s: State) returns (es': seq<Event>, s': State)
    requires d.Limits? && LeadsTo(d, capacity, es, s) && AtZero(s, TaskLoop)
    requires s.rt.running && s.rt.queue == Queue([]) && s.rt.sem == Sem(false)
    ensures LeadsTo(d, capacity, es', s') && AtZero(s', TaskStop(StopReadLimit)) && SameBesides(s, s')
    ensures !s'.rt.running && !s'.rt.promiscuous && s'.rt.queue == Queue([]) && s'.rt.sem == Sem(false)
  {
    hide LeadsTo, StartStep, StartTasks, Callback;
    var t := s.current;
    es', s' := Then(d, capacity, es, s, TaskStep(t, true));
    es', s' := Then(d, capacity, es', s', TaskStep(t, true));
    es', s' := Then(d, capacity, es', s', TaskStep(t, true));
    es', s' := Then(d, capacity, es', s', TaskStep(t, true));
    es', s' := Then(d, capacity, es', s', TaskStep(t, true));
  }

  lemma ZeroDeletesSemaphore(d: Discipline, capacity: nat, es: seq<Event>, s: State)
    returns (es': seq<Event>, s': State)
    requires d.Limits? && LeadsTo(d, capacity, es, s) && AtZero(s, TaskStop(StopReadLimit))
    requires !s.rt.running && !s.rt.promiscuous && s.rt.queue == Queue([]) && s.rt.sem == Sem(false)
    ensures LeadsTo(d, capacity, es', s') && AtZero(s', TaskStop(StopCount)) && SameBesides(s, s')
    ensures !s'.rt.running && !s'.rt.promiscuous && s'.rt.queue == Queue([]) && s'.rt.sem == NoSem
  {
    hide LeadsTo, StartStep, StartTasks, Callback;
    var t := s.current;
    es', s' := Then(d, capacity, es, s, TaskStep(t, true));
    es', s' := Then(d, capacity, es', s', TaskStep(t, true));
    es', s' := Then(d, capacity, es', s', TaskStep(t, true));
  }

  lemma ZeroDeletesQueue(d: Discipline, capacity: nat, es: seq<Event>, s: State) returns (es': seq<Event>, s': State)
    requires d.Limits? && LeadsTo(d, capacity, es, s) && AtZero(s, TaskStop(StopCount))
    requires !s.rt.running && !s.rt.promiscuous && s.rt.queue == Queue([]) && s.rt.sem == NoSem
    ensures LeadsTo(d, capacity, es', s') && AtZero(s', TaskStop(StopPcap)) && SameBesides(s, s')
    ensures NoHandles(s'.rt)
  {
    hide LeadsTo, StartStep, StartTasks, Callback;
    var t := s.current;
    es', s' := Then(d, capacity, es, s, TaskStep(t, true));
    es', s' := Then(d, capacity, es', s', TaskStep(t, true));
    es', s' := Then(d, capacity, es', s', TaskStep(t, true));
    es', s' := Then(d, capacity, es', s', TaskStep(t, true));
  }

  lemma ZeroEnds(d: Discipline, capacity: nat, es: seq<Event>, s: State) returns (es': seq<Event>, s': State)
    requires d.Limits? && LeadsTo(d, capacity, es, s) && AtZero(s, TaskLoop)
    requires s.rt.running && s.rt.queue == Queue([]) && s.rt.sem == Sem(false)
    ensures LeadsTo(d, capacity, es', s') && AtZero(s', TaskStop(StopPcap)) && SameBesides(s, s')
    ensures NoHandles(s'.rt)
  {
    hide LeadsTo;
    var s1, s2;
    es', s1 := ZeroStopsItself(d, capacity, es, s);
    es', s2 := ZeroDeletesSemaphore(d, capacity, es', s1);
    es', s' := ZeroDeletesQueue(d, capacity, es', s2);
  }

  /** A start that has passed its check, with the limit at 0 and everything off. */
  ghost predicate StartsAtZero(s: State) {
    && s.console == Starting(StartPcap) && s.rt.limit == 0 && NoHandles(s.rt) && !s.rt.writing
    && (forall id: nat | s.rt.next <= id :: s.rt.freed[id] == 0)
  }

  lemma StartsTaskAtZero(d: Discipline, capacity: nat, es: seq<Event>, s: State) returns (es': seq<Event>, s': State)
    requires d.Limits? && LeadsTo(d, capacity, es, s) && StartsAtZero(s)
    ensures LeadsTo(d, capacity, es', s') && AtZero(s', TaskLoop) && s'.console == Starting(StartDriver)
    ensures s'.rt.running && s'.rt.queue == Queue([]) && s'.rt.sem == Sem(false)
    ensures s'.rt.next == s.rt.next && s'.rt.freed == s.rt.freed
  {
    hide LeadsTo;
    es', s' := Then(d, capacity, es, s, ConsoleStep(true));
    es', s' := Then(d, capacity, es', s', ConsoleStep(true));
    es', s' := Then(d, capacity, es', s', ConsoleStep(true));
    es', s' := Then(d, capacity, es', s', ConsoleStep(true));
    es', s' := Then(d, capacity, es', s', ConsoleStep(true));
  }

  /** The new task stops before the start turns the driver on: the next packet is lost. */
  lemma ZeroLeaks(d: Discipline, capacity: nat, es: seq<Event>, s: State) returns (es': seq<Event>, s': State)
    requires d.Limits? && LeadsTo(d, capacity, es, s) && StartsAtZero(s)
    ensures LeadsTo(d, capacity, es', s') && !Sound(s')
  {
    hide LeadsTo;
    es', s' := StartsTaskAtZero(d, capacity, es, s);
    es', s' := ZeroEnds(d, capacity, es', s');
    es', s' := Then(d, capacity, es', s', ConsoleStep(true));
    es', s' := Then(d, capacity, es', s', DriverCallback(true));
    assert Places(s'.rt, Cur(s'), s'.console, s.rt.next) == 0;
  }

  /** `sniffer -n 0` */
  lemma ZeroIsNoLimit(again: Option<int>) returns (es: seq<Event>, s: State)
    ensures LeadsTo(Limits(0, again), 1, es, s) && !Sound(s)
  {
    var d := Limits(0, again);
    es, s := Then(d, 1, [], Init(1), CommandStart(0));
    es, s := Then(d, 1, es, s, ConsoleStep(true));
    es, s := ZeroLeaks(d, 1, es, s);
  }

  /** The first capture, with its task at the top of the loop, nothing queued, and `k`
      packets still wanted. */
  ghost predicate FirstCapture(s: State, k: int) {
    && s.current == 1 && s.tasks == map[1 := TaskLoop] && (s.console == Idle || s.console == Starting(StartCheck))
    && s.rt.limit == k && s.rt.running && s.rt.promiscuous && s.rt.writing && s.rt.capacity == 1
    && s.rt.queue == Queue([]) && s.rt.sem == Sem(false)
    && (forall id: nat | s.rt.next <= id :: s.rt.freed[id] == 0)
  }

  lemma StartsFirst(n: int, again: Option<int>) returns (es: seq<Event>, s: State)
    ensures LeadsTo(Limits(n, again), 1, es, s) && s.console == Starting(StartTask)
    ensures s.rt == Shared(1, n, true, false, true, Queue([]), Sem(false), 0, multiset{}, n, [], 0, 0, false)
    ensures s.tasks == map[] && s.current == 0
  {
    var d := Limits(n, again);
    es, s := Then(d, 1, [], Init(1), CommandStart(n));
    hide LeadsTo;
    es, s := Then(d, 1, es, s, ConsoleStep(true));
    es, s := Then(d, 1, es, s, ConsoleStep(true));
    es, s := Then(d, 1, es, s, ConsoleStep(true));
    es, s := Then(d, 1, es, s, ConsoleStep(true));
    es, s := Then(d, 1, es, s, ConsoleStep(true));
  }

  lemma CapturesFirst(n: int, again: Option<int>) returns (es: seq<Event>, s: State)
    ensures LeadsTo(Limits(n, again), 1, es, s) && FirstCapture(s, n) && s.console == Idle
  {
    hide LeadsTo;
    var d := Limits(n, again);
    es, s := StartsFirst(n, again);
    es, s := Then(d, 1, es, s, ConsoleStep(true));
    es, s := Then(d, 1, es, s, ConsoleStep(true));
  }

  lemma OnePacketLess(d: Discipline, es: seq<Event>, s: State, k: nat) returns (es': seq<Event>, s': State)
    requires d.Limits? && LeadsTo(d, 1, es, s) && FirstCapture(s, k) && 0 < k
    ensures LeadsTo(d, 1, es', s') && FirstCapture(s', k - 1) && s'.console == s.console
  {
    hide LeadsTo;
    es', s' := Then(d, 1, es, s, DriverCallback(true));
    es', s' := Then(d, 1, es', s', TaskStep(1, true));
    es', s' := Then(d, 1, es', s', TaskStep(1, true));
    es', s' := Then(d, 1, es', s', TaskStep(1, true));
    assert s'.tasks == map[1 := TaskCapture(s.rt.next)] && s'.rt.queue == Queue([]);
    es', s' := Then(d, 1, es', s', TaskStep(1, true));
    es', s' := Then(d, 1, es', s', TaskStep(1, true));
    es', s' := Then(d, 1, es', s', TaskStep(1, true));
  }

  /** The task captures all packets it wants and stops itself, up to its last check. */
  lemma {:induction false} LimitRunsOut(d: Discipline, es: seq<Event>, s: State, k: nat)
    returns (es': seq<Event>, s': State)
    requires d.Limits? && LeadsTo(d, 1, es, s) && FirstCapture(s, k)
    ensures LeadsTo(d, 1, es', s') && AtZero(s', TaskCheckGive) && s'.console == s.console
    ensures s'.tasks == map[1 := TaskCheckGive] && s'.current == 1 && NoHandles(s'.rt) && !s'.rt.writing
    ensures forall id: nat | s'.rt.next <= id :: s'.rt.freed[id] == 0
    decreases k
  {
    hide LeadsTo;
    if 0 < k {
      es', s' := OnePacketLess(d, es, s, k);
      es', s' := LimitRunsOut(d, es', s', k - 1);
    } else {
      es', s' := ZeroEnds(d, 1, es, s);
      es', s' := Then(d, 1, es', s', TaskStep(1, true));
    }
  }

  /** The task is done, and a start command comes to its check with the limit used up. */
  lemma UsedUpLeaks(d: Discipline, es: seq<Event>, s: State) returns (es': seq<Event>, s': State)
    requires d.Limits? && LeadsTo(d, 1, es, s) && AtZero(s, TaskCheckGive) && s.console == Starting(StartCheck)
    requires s.tasks == map[1 := TaskCheckGive] && s.current == 1 && NoHandles(s.rt) && !s.rt.writing
    requires forall id: nat | s.rt.next <= id :: s.rt.freed[id] == 0
    ensures LeadsTo(d, 1, es', s') && !Sound(s')
  {
    hide LeadsTo;
    es', s' := Then(d, 1, es, s, TaskStep(1, true));
    es', s' := Then(d, 1, es', s', ConsoleStep(true));
    es', s' := ZeroLeaks(d, 1, es', s');
  }

  /** A second start command that limits an unlimited capture: the capture ends before the
      command comes to its check, which then starts a capture whose limit is used up. */
  lemma LimitedLaterLeaks(n: int, m: nat) returns (es: seq<Event>, s: State)
    requires n < 0
    ensures LeadsTo(Limits(n, Some(m)), 1, es, s) && !Sound(s)
  {
    hide LeadsTo;
    var d := Limits(n, Some(m));
    es, s := CapturesFirst(n, Some(m));
    assert !AllDone(s) by { assert s.tasks[1] == TaskLoop; }
    es, s := Then(d, 1, es, s, CommandStart(m));
    es, s := LimitRunsOut(d, es, s, m);
    es, s := UsedUpLeaks(d, es, s);
  }

  /** A second start command during a limited capture: after the task has stopped itself,
      it gives a deleted semaphore, or the command starts a capture with limit 0. */
  lemma SecondStartFails(n: nat, m: int) returns (es: seq<Event>, s: State)
    requires 0 < n
    ensures LeadsTo(Limits(n, Some(m)), 1, es, s) && !Sound(s)
  {
    hide LeadsTo;
    var d := Limits(n, Some(m));
    es, s := CapturesFirst(n, Some(m));
    es, s := LimitRunsOut(d, es, s, n);
    assert !AllDone(s) by { assert s.tasks[1] == TaskCheckGive; }
    es, s := Then(d, 1, es, s, CommandStart(m));
    if m == 0 {
      es, s := UsedUpLeaks(d, es, s);
    } else {
      es, s := Then(d, 1, es, s, TaskStep(1, true));
      es, s := Then(d, 1, es, s, TaskStep(1, true));
    }
  }

  /** A task exists only since a start that asked for no limit. */
  predicate NoLimitYet(s: State) { s.rt.limit < 0 || (s.tasks == map[] && !s.console.Starting?) }

  lemma CallbackKeepsLimit(rt: Shared, copied: bool)
    ensures Callback(rt, copied).limit == rt.limit
  {
  }

  lemma StartKeepsLimit(rt: Shared, pc: StartPc, ok: bool)
    ensures StartStep(rt, pc, ok).0.limit == rt.limit
  {
  }

  lemma StopKeepsLimit(rt: Shared, pc: StopPc, ok: bool)
    ensures StopStep(rt, pc, ok).0.limit == rt.limit
  {
  }

  lemma TaskKeepsNegative(rt: Shared, task: TaskPc, ok: bool)
    ensures rt.limit < 0 ==> TaskAdvance(rt, task, ok).0.limit == rt.limit
  {
    hide StopStep;
    if task.TaskStop? { StopKeepsLimit(rt, task.stop, ok); }
  }

  lemma NegativeStays(s: State, e: Event)
    requires Enabled(s, e) && !e.CommandStart? && s.rt.limit < 0
    ensures Apply(s, e).rt.limit < 0
  {
    hide StopStep, StartStep, TaskAdvance, Callback;
    match e
    case CommandStop =>
    case DriverCallback(copied) => CallbackKeepsLimit(s.rt, copied);
    case TaskStep(t, ok) => TaskKeepsNegative(s.rt, s.tasks[t], ok);
    case ConsoleStep(ok) =>
      if s.console.Starting? { StartKeepsLimit(s.rt, s.console.start, ok); }
      else { StopKeepsLimit(s.rt, s.console.stop, ok); }
  }

  lemma NoLimitStays(n: int, m: int, s: State, e: Event)
    requires n < 0 && m < 0 && NoLimitYet(s) && Enabled(s, e) && Allowed(Limits(n, Some(m)), s, e)
    ensures NoLimitYet(Apply(s, e))
  {
    if s.rt.limit < 0 && !e.CommandStart? { NegativeStays(s, e); }
  }

  lemma {:induction false} SafeLimitsAreStrict(n: int, again: Option<int>, capacity: nat, es: seq<Event>)
    requires n != 0 && (again.Some? ==> n < 0 && again.value < 0) && RunUnder(Limits(n, again), capacity, es)
    ensures RunUnder(Strict, capacity, es) && (again.Some? ==> NoLimitYet(After(capacity, es)))
  {
    hide Apply, Enabled;
    if es != [] {
      var front := es[..|es| - 1];
      SafeLimitsAreStrict(n, again, capacity, front);
      if again.Some? { NoLimitStays(n, again.value, After(capacity, front), es[|es| - 1]); }
    } else if again.Some? {
      assert NoLimitYet(Init(capacity));
    }
  }

  lemma SoundRun(n: int, again: Option<int>, capacity: nat, es: seq<Event>)
    requires n != 0 && (again.Some? ==> n < 0 && again.value < 0) && RunUnder(Limits(n, again), capacity, es)
    ensures Sound(After(capacity, es))
  {
    SafeLimitsAreStrict(n, again, capacity, es);
    RunKeepsInv(capacity, es);
  }

  lemma UnsoundRun(d: Discipline, capacity: nat, es: seq<Event>, s: State)
    requires LeadsTo(d, capacity, es, s) && !Sound(s)
    ensures RunUnder(d, capacity, es) && !Sound(After(capacity, es))
  {
  }

  /** Starts that ask for limit `n`, and for the other limit, if there is one, while a task
      is left: every run uses its handles properly and keeps every copy if and
      only if `n` is not 0, and a start during a capture finds no limit and sets none. */
  lemma LimitsAreSafeIff(n: int, again: Option<int>)
    ensures (forall capacity: nat, es | RunUnder(Limits(n, again), capacity, es) :: Sound(After(capacity, es)))
      <==> n != 0 && (again.Some? ==> n < 0 && again.value < 0)
  {
    hide Run, After, Sound;
    if n == 0 {
      var es, s := ZeroIsNoLimit(again);
      UnsoundRun(Limits(n, again), 1, es, s);
    } else if again.Some? && n > 0 {
      var es, s := SecondStartFails(n, again.value);
      UnsoundRun(Limits(n, again), 1, es, s);
    } else if again.Some? && again.value >= 0 {
      var es, s := LimitedLaterLeaks(n, again.value);
      UnsoundRun(Limits(n, again), 1, es, s);
    } else {
      forall capacity: nat, es | RunUnder(Limits(n, again), capacity, es)
        ensures Sound(After(capacity, es))
      {
        SoundRun(n, again, capacity, es);
      }
    }
  }

  // ---------------------------------------------------------------- a stray give

  lemma {:induction false} AnyRun(d: Discipline, capacity: nat, es: seq<Event>)
    requires RunUnder(d, capacity, es)
    ensures RunUnder(Anything, capacity, es)
  {
    if es != [] { AnyRun(d, capacity, es[..|es| - 1]); }
  }

  /** The task of a used-up capture of one packet is at its last check. */
  lemma FirstAtItsEnd() returns (es: seq<Event>, s: State)
    ensures LeadsTo(Anything, 1, es, s) && s.console == Idle && s.current == 1 && s.tasks == map[1 := TaskCheckGive]
    ensures NoHandles(s.rt) && !s.rt.writing
  {
    var d := Limits(1, None);
    es, s := CapturesFirst(1, None);
    es, s := LimitRunsOut(d, es, s, 1);
    AnyRun(d, 1, es);
  }

  lemma SecondStarts() returns (es: seq<Event>, s: State)
    ensures LeadsTo(Anything, 1, es, s) && s.console == Starting(StartSem) && s.current == 1
    ensures s.tasks == map[1 := TaskCheckGive] && s.rt.limit == 2 && s.rt.running && s.rt.writing && !s.rt.promiscuous
    ensures s.rt.queue == Queue([])
  {
    hide LeadsTo;
    es, s := FirstAtItsEnd();
    es, s := Then(Anything, 1, es, s, CommandStart(2));
    es, s := Then(Anything, 1, es, s, ConsoleStep(true));
    es, s := Then(Anything, 1, es, s, ConsoleStep(true));
    es, s := Then(Anything, 1, es, s, ConsoleStep(true));
    es, s := Then(Anything, 1, es, s, ConsoleStep(true));
  }

  /** The old task sees the new limit and gives the semaphore of the new capture. */
  lemma FirstGives() returns (es: seq<Event>, s: State)
    ensures LeadsTo(Anything, 1, es, s) && s.console == Idle && s.current == 2
    ensures s.tasks == map[1 := TaskDone, 2 := TaskLoop] && s.rt.limit == 2 && s.rt.running
    ensures s.rt.queue == Queue([]) && s.rt.sem == Sem(true)
  {
    hide LeadsTo;
    es, s := SecondStarts();
    es, s := Then(Anything, 1, es, s, ConsoleStep(true));
    es, s := Then(Anything, 1, es, s, ConsoleStep(true));
    es, s := Then(Anything, 1, es, s, ConsoleStep(true));
    es, s := Then(Anything, 1, es, s, TaskStep(1, true));
    es, s := Then(Anything, 1, es, s, TaskStep(1, true));
  }

  lemma StopComesToClear() returns (es: seq<Event>, s: State)
    ensures LeadsTo(Anything, 1, es, s) && s.console == Stopping(StopClear) && s.current == 2
    ensures s.tasks == map[1 := TaskDone, 2 := TaskLoop] && s.rt.limit == 2
    ensures s.rt.queue == Queue([]) && s.rt.sem == Sem(true)
  {
    hide LeadsTo;
    es, s := FirstGives();
    es, s := Then(Anything, 1, es, s, CommandStop);
    es, s := Then(Anything, 1, es, s, ConsoleStep(true));
    es, s := Then(Anything, 1, es, s, ConsoleStep(true));
  }

  lemma StrayIsNotClean(s: State)
    requires s.rt.limit == 2 && s.rt.sem == Sem(true) && 2 in s.tasks && s.tasks[2] == TaskLoop
    ensures !CleanClear(s)
  {
    assert !HarmlessTask(s.rt.limit, s.tasks[2]);
  }

  /** Outside disciplined starts the window is not enough: a run, from boot, in which the
      task of an older capture has given the semaphore, so that the stop does not wait for
      the task of the newer one. */
  lemma StrayGiveEndsBadly() returns (es: seq<Event>)
    ensures Run(1, es) && JustCleared(1, es)
    ensures var before := After(1, es[..|es| - 1]); ClearWindow(before.rt, Cur(before))
    ensures !StopEndsWell(FromHere(After(1, es)))
  {
    hide StopEndsWell, CleanClear;
    var s: State;
    es, s := StopComesToClear();
    var front := es;
    es := es + [ConsoleStep(true)];
    assert es[..|es| - 1] == front;
    StopEndsWellIff(1, es);
    StrayIsNotClean(FromHere(After(1, es)));
  }
}
