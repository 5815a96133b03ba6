/** Which packets a capture keeps, and that the kept ones are captured. */
module SnifferPackets {
  import opened SnifferLifecycle
  import opened SnifferGuarantees
  import opened SnifferProgress

  // ---------------------------------------------------------------- what a run should keep

  predicate HasRoom(capacity: nat, s: State) { s.rt.queue.Queue? && |s.rt.queue.items| < capacity }

  /** How many copies the driver made in the whole run: the next one has this number. */
  function Copies(es: seq<Event>): nat {
    if es == [] then 0 else Copies(es[..|es| - 1]) + if es[|es| - 1] == DriverCallback(true) then 1 else 0
  }

  function Drop(s: seq<nat>, n: nat): seq<nat> { if n <= |s| then s[n..] else [] }

  /** The copies of the latest capture that found room in the queue, in order.  A start during
      a capture forgets the captured ones. */
  function Kept(capacity: nat, es: seq<Event>): seq<nat>
    requires Run(capacity, es)
  {
    if es == [] then []
    else
      var before, e := es[..|es| - 1], es[|es| - 1];
      var s, kept := After(capacity, before), Kept(capacity, before);
      if e.CommandStart? then if AllDone(s) then [] else Drop(kept, |s.rt.captured|)
      else if e == DriverCallback(true) && HasRoom(capacity, s) then kept + [Copies(before)]
      else kept
  }

  /** Since the latest start command: the copies it found on their way, the new ones, and
      those among them that met a full queue. */
  datatype Tally = Tally(carried: nat, arrived: nat, turnedAway: nat)

  function TallyOf(capacity: nat, es: seq<Event>): Tally
    requires Run(capacity, es)
  {
    if es == [] then Tally(0, 0, 0)
    else
      var before, e := es[..|es| - 1], es[|es| - 1];
      var s, tally := After(capacity, before), TallyOf(capacity, before);
      if e.CommandStart? then Tally(|Kept(capacity, es)|, 0, 0)
      else if e == DriverCallback(true) then
        Tally(tally.carried, tally.arrived + 1, tally.turnedAway + if HasRoom(capacity, s) then 0 else 1)
      else tally
  }

  /** No copy met a full queue since the latest start command that found no capture. */
  predicate NoneTurnedAway(capacity: nat, es: seq<Event>)
    requires Run(capacity, es)
  {
    es == [] ||
    (var before, e := es[..|es| - 1], es[|es| - 1];
     var s := After(capacity, before);
     (e.CommandStart? && AllDone(s))
     || (NoneTurnedAway(capacity, before) && (e == DriverCallback(true) ==> HasRoom(capacity, s))))
  }

  predicate Consecutive(kept: seq<nat>, next: nat) {
    |kept| <= next && forall i | 0 <= i < |kept| :: kept[i] == next - |kept| + i
  }

  lemma {:induction false} KeptAddsUp(capacity: nat, es: seq<Event>)
    requires Run(capacity, es)
    ensures var tally := TallyOf(capacity, es);
      |Kept(capacity, es)| + tally.turnedAway == tally.carried + tally.arrived
    ensures NoneTurnedAway(capacity, es) ==> Consecutive(Kept(capacity, es), Copies(es))
  {
    hide After, AllDone, HasRoom;
    if es != [] { KeptAddsUp(capacity, es[..|es| - 1]); }
  }

  // ---------------------------------------------------------------- what a run keeps

  predicate Draining(pc: StopPc) { pc.StopDrain? || pc.StopFree? || pc.StopDeleteQueue? }

  /** A capture, or the start of one, up to the point where a stop drains the queue. */
  predicate Keeping(s: State) {
    || s.console.Starting?
    || (s.rt.queue.Queue? && !(s.console.Stopping? && Draining(s.console.stop))
        && !(Cur(s).TaskStop? && Draining(Cur(s).stop)))
  }

  lemma CallbackKeeps(rt: Shared, task: TaskPc, copied: bool)
    requires rt.queue.Queue?
    ensures var rt' := Callback(rt, copied);
      && rt'.queue.Queue? && rt'.captured == rt.captured
      && Line(rt', task) == Line(rt, task) + (if copied && |rt.queue.items| < rt.capacity then [rt.next] else [])
  {
  }

  lemma StopKeepsNext(rt: Shared, pc: StopPc, ok: bool)
    ensures StopStep(rt, pc, ok).0.next == rt.next
  {
  }

  lemma TaskKeepsNext(rt: Shared, task: TaskPc, ok: bool)
    ensures TaskAdvance(rt, task, ok).0.next == rt.next
  {
    hide StopStep;
    if task.TaskStop? { StopKeepsNext(rt, task.stop, ok); }
  }

  lemma StartKeepsNext(rt: Shared, pc: StartPc, ok: bool)
    ensures StartStep(rt, pc, ok).0.next == rt.next
  {
  }

  lemma StartKeepsLine(rt: Shared, task: TaskPc, pc: StartPc, ok: bool)
    requires StartPhase(rt, task, pc)
    ensures var rt' := StartStep(rt, pc, ok).0;
      rt'.captured == rt.captured && Line(rt', StartedTask(task, pc, ok)) == Line(rt, task)
  {
  }

  lemma {:induction false} NextIsCopies(capacity: nat, es: seq<Event>)
    requires Run(capacity, es)
    ensures After(capacity, es).rt.next == Copies(es)
  {
    hide TaskAdvance, StopStep, StartStep;
    if es != [] {
      var s, e := After(capacity, es[..|es| - 1]), es[|es| - 1];
      NextIsCopies(capacity, es[..|es| - 1]);
      match e
      case TaskStep(t, ok) => TaskKeepsNext(s.rt, s.tasks[t], ok);
      case ConsoleStep(ok) =>
        if s.console.Starting? { StartKeepsNext(s.rt, s.console.start, ok); }
        else { StopKeepsNext(s.rt, s.console.stop, ok); }
      case _ =>
    }
  }

  /** What one step does to the copies on their way. */
  predicate LineFollows(s: State, e: Event, s': State) {
    var line := Line(s.rt, Cur(s));
    Line(s'.rt, Cur(s')) ==
      if e.CommandStart? then if AllDone(s) then [] else Drop(line, |s.rt.captured|)
      else if e == DriverCallback(true) && HasRoom(s.rt.capacity, s) then line + [s.rt.next]
      else line
  }

  /** While the driver calls back there is a queue. */
  lemma ListensToQueue(s: State)
    requires Inv(s) && s.rt.promiscuous
    ensures s.rt.queue.Queue?
  {
    hide Conserved;
  }

  lemma CallbackFollows(s: State, e: Event)
    requires Inv(s) && Enabled(s, e) && Keeping(Apply(s, e)) && e.DriverCallback?
    ensures Keeping(s) && LineFollows(s, e, Apply(s, e))
  {
    hide Callback, Line, Conserved;
    ListensToQueue(s);
    CallbackKeeps(s.rt, Cur(s), e.copied);
  }

  lemma SelfStopKeeps(s: State, e: Event)
    requires Inv(s) && Enabled(s, e) && Keeping(Apply(s, e)) && e.TaskStep? && Cur(s).TaskStop?
    ensures Keeping(s) && Line(Apply(s, e).rt, Cur(Apply(s, e))) == Line(s.rt, Cur(s))
  {
    hide Conserved;
  }

  lemma TaskFollows(s: State, e: Event)
    requires Inv(s) && Enabled(s, e) && Keeping(Apply(s, e)) && e.TaskStep?
    ensures Keeping(s) && LineFollows(s, e, Apply(s, e))
  {
    hide Conserved, StopStep;
    var task := Cur(s);
    assert e.task == s.current && Cur(Apply(s, e)) == TaskAdvance(s.rt, task, e.ok).1;
    if Capturing(task) {
      CaptureKeepsLine(s.rt, task, e.ok);
    } else if task.TaskStop? {
      SelfStopKeeps(s, e);
    }
  }

  lemma ConsoleStopKeeps(s: State, e: Event)
    requires Inv(s) && Enabled(s, e) && Keeping(Apply(s, e)) && e.ConsoleStep? && s.console.Stopping?
    ensures Keeping(s) && Line(Apply(s, e).rt, Cur(Apply(s, e))) == Line(s.rt, Cur(s))
  {
    hide Conserved;
  }

  lemma ConsoleFollows(s: State, e: Event)
    requires Inv(s) && Enabled(s, e) && Keeping(Apply(s, e)) && e.ConsoleStep?
    ensures Keeping(s) && LineFollows(s, e, Apply(s, e))
  {
    hide Conserved, StopStep, StartStep;
    var s' := Apply(s, e);
    if s.console.Starting? {
      StartKeepsLine(s.rt, Cur(s), s.console.start, e.ok);
      assert Cur(s') == StartedTask(Cur(s), s.console.start, e.ok);
    } else {
      ConsoleStopKeeps(s, e);
    }
  }

  lemma CommandFollows(s: State, e: Event)
    requires Inv(s) && Enabled(s, e) && Keeping(Apply(s, e)) && Disciplined(s, e) && (e.CommandStart? || e.CommandStop?)
    ensures (Keeping(s) || (e.CommandStart? && AllDone(s))) && LineFollows(s, e, Apply(s, e))
  {
    hide Conserved;
    var s' := Apply(s, e);
    if e.CommandStart? {
      assert Cur(s) == TaskDone ==> AllDone(s);
      assert Line(s'.rt, Cur(s')) == Drop(Line(s.rt, Cur(s)), |s.rt.captured|);
    }
  }

  lemma StepFollows(s: State, e: Event)
    requires Inv(s) && Enabled(s, e) && Keeping(Apply(s, e)) && Disciplined(s, e)
    ensures (Keeping(s) || (e.CommandStart? && AllDone(s))) && LineFollows(s, e, Apply(s, e))
  {
    hide Inv, LineFollows, Callback, StopStep, StartStep, TaskAdvance;
    match e
    case DriverCallback(_) => CallbackFollows(s, e);
    case TaskStep(_, _) => TaskFollows(s, e);
    case ConsoleStep(_) => ConsoleFollows(s, e);
    case _ => CommandFollows(s, e);
  }

  lemma NothingAtFirst(capacity: nat)
    ensures !Keeping(Init(capacity))
  {
  }

  /** Until a stop drains the queue, the captured copies, the one in hand and the queued ones
      are exactly those that found room, in order. */
  lemma {:induction false} LineIsKept(capacity: nat, es: seq<Event>)
    requires RunUnder(Strict, capacity, es) && Keeping(After(capacity, es))
    ensures var s := After(capacity, es); Line(s.rt, Cur(s)) == Kept(capacity, es)
  {
    hide Inv, Keeping, Line, Apply, Enabled, Disciplined;
    if es != [] {
      var before, e := es[..|es| - 1], es[|es| - 1];
      var s := After(capacity, before);
      RunKeepsInv(capacity, before);
      RunKeepsFit(capacity, before);
      NextIsCopies(capacity, before);
      StepFollows(s, e);
      if Keeping(s) { LineIsKept(capacity, before); }
    } else {
      NothingAtFirst(capacity);
    }
  }

  /** Every copy that finds room is kept.  Until a stop drains the queue, the captured copies,
      the one in hand and the queued ones are as many as the latest start command found on
      their way and the driver made since, less those that met a full queue; and if none did
      since the capture began, they are the consecutive numbers up to the latest copy. */
  lemma NothingIsLostWithRoom(capacity: nat, es: seq<Event>)
    requires RunUnder(Strict, capacity, es) && Keeping(After(capacity, es))
    ensures var s, tally := After(capacity, es), TallyOf(capacity, es);
      var line := Line(s.rt, Cur(s));
      && line == Kept(capacity, es) && s.rt.next == Copies(es)
      && |line| + tally.turnedAway == tally.carried + tally.arrived
      && (NoneTurnedAway(capacity, es) ==> Consecutive(line, s.rt.next))
  {
    hide Keeping, Line;
    LineIsKept(capacity, es);
    NextIsCopies(capacity, es);
    KeptAddsUp(capacity, es);
  }

  // ---------------------------------------------------------------- kept packets are captured

  /** Disciplined steps that follow while the capture is on, without another start command. */
  predicate CaptureRun(s: State, fs: seq<Event>)
    decreases |fs|, 0
  {
    fs == [] ||
    (var before := fs[..|fs| - 1];
     && CaptureRun(s, before)
     && var t, e := AfterCapture(s, before), fs[|fs| - 1];
        t.rt.running && !e.CommandStart? && Enabled(t, e) && Disciplined(t, e))
  }

  function AfterCapture(s: State, fs: seq<Event>): State
    requires CaptureRun(s, fs)
    decreases |fs|, 1
  {
    if fs == [] then s else Apply(AfterCapture(s, fs[..|fs| - 1]), fs[|fs| - 1])
  }

  /** The steps of the task up to its next capture. */
  function ToCapture(task: TaskPc): nat {
    match task
    case TaskCapture(_) => 1 case TaskReceive => 2 case TaskLimit => 3 case TaskLoop => 4
    case TaskCountDown => 5 case TaskFree(_) => 6 case _ => 0
  }

  /** The steps of the task until `n` packets are captured. */
  function ToCaptureAll(s: State, n: nat): nat {
    if n <= |s.rt.captured| then 0 else 6 * (n - |s.rt.captured| - 1) + ToCapture(Cur(s))
  }

  /** `n` packets are captured or on their way, and no more are wanted than the limit says. */
  ghost predicate Promises(s: State, n: nat) {
    && Inv(s) && Keeping(s) && !s.console.Starting?
    && n <= |Line(s.rt, Cur(s))| && (0 < s.rt.requested ==> n <= s.rt.requested)
    && (n <= |s.rt.captured| || Capturing(Cur(s)))
  }

  lemma TaskNearsCapture(rt: Shared, task: TaskPc, ok: bool, n: nat)
    requires On(rt, task) && |rt.captured| < n <= |Line(rt, task)| && (0 < rt.requested ==> n <= rt.requested)
    ensures var (rt', task') := TaskAdvance(rt, task, ok);
      && Capturing(task') && |rt.captured| <= |rt'.captured| && rt'.requested == rt.requested
      && (|rt'.captured| < n ==>
            6 * (n - |rt'.captured| - 1) + ToCapture(task') < 6 * (n - |rt.captured| - 1) + ToCapture(task))
  {
    hide StopStep;
  }

  lemma StopKeepsCaptured(rt: Shared, pc: StopPc, ok: bool)
    ensures var rt' := StopStep(rt, pc, ok).0; rt'.captured == rt.captured && rt'.requested == rt.requested
  {
  }

  lemma SelfStopKeepsCaptured(rt: Shared, task: TaskPc, ok: bool)
    requires task.TaskStop?
    ensures var rt' := TaskAdvance(rt, task, ok).0; rt'.captured == rt.captured && rt'.requested == rt.requested
  {
    hide StopStep;
    StopKeepsCaptured(rt, task.stop, ok);
  }

  lemma OffOrOn(s: State)
    requires Inv(s) && s.rt.running && !s.console.Starting?
    ensures Keeping(s) && (Capturing(Cur(s)) ==> On(s.rt, Cur(s))) && (Capturing(Cur(s)) || Cur(s).TaskStop?)
  {
    hide Conserved;
  }

  lemma OthersKeepCaptured(s: State, e: Event)
    requires Enabled(s, e) && !s.console.Starting? && !e.CommandStart? && !e.TaskStep?
    ensures var s' := Apply(s, e);
      && Cur(s') == Cur(s) && !s'.console.Starting?
      && s'.rt.captured == s.rt.captured && s'.rt.requested == s.rt.requested
  {
    hide StopStep;
    if e.ConsoleStep? { StopKeepsCaptured(s.rt, s.console.stop, e.ok); }
  }

  lemma StopIsEarly(s: State)
    requires Inv(s) && s.rt.running && !s.console.Starting?
    ensures s.rt.queue.Queue?
    ensures s.console.Stopping? ==> s.console.stop in {StopCheck, StopDriver, StopClear}
    ensures Cur(s).TaskStop? ==> Cur(s).stop in {StopCheck, StopDriver, StopClear}
  {
    hide Conserved;
  }

  lemma EarlyStop(rt: Shared, pc: StopPc, ok: bool)
    requires pc in {StopCheck, StopDriver, StopClear}
    ensures var (rt', pc') := StopStep(rt, pc, ok); rt'.queue == rt.queue && (pc'.Some? ==> !Draining(pc'.value))
  {
  }

  lemma StaysKeeping(s: State, e: Event)
    requires Inv(s) && s.rt.running && !s.console.Starting? && Enabled(s, e) && !e.CommandStart?
    ensures Keeping(Apply(s, e))
  {
    hide Conserved, Callback, StopStep;
    StopIsEarly(s);
    match e
    case DriverCallback(copied) => CallbackKeeps(s.rt, Cur(s), copied);
    case TaskStep(_, ok) => if Cur(s).TaskStop? { EarlyStop(s.rt, Cur(s).stop, ok); }
    case ConsoleStep(ok) => EarlyStop(s.rt, s.console.stop, ok);
    case _ =>
  }

  lemma TaskKeepsCaptured(rt: Shared, task: TaskPc, ok: bool)
    requires Capturing(task) || task.TaskStop?
    ensures var rt' := TaskAdvance(rt, task, ok).0; |rt.captured| <= |rt'.captured| && rt'.requested == rt.requested
  {
    hide StopStep;
    if task.TaskStop? { SelfStopKeepsCaptured(rt, task, ok); }
  }

  lemma TaskPromises(s: State, e: Event, n: nat)
    requires Promises(s, n) && s.rt.running && Enabled(s, e) && e.TaskStep?
    ensures var s' := Apply(s, e);
      && !s'.console.Starting? && s'.rt.requested == s.rt.requested
      && (n <= |s'.rt.captured| || Capturing(Cur(s')))
      && (n <= |s.rt.captured| ==> n <= |s'.rt.captured|)
      && (n <= |s'.rt.captured| || ToCaptureAll(s', n) < ToCaptureAll(s, n))
  {
    hide TaskAdvance, Line, Conserved;
    OffOrOn(s);
    assert e.task == s.current && Cur(Apply(s, e)) == TaskAdvance(s.rt, Cur(s), e.ok).1;
    if n <= |s.rt.captured| {
      TaskKeepsCaptured(s.rt, Cur(s), e.ok);
    } else {
      TaskNearsCapture(s.rt, Cur(s), e.ok, n);
    }
  }

  lemma PromisesStep(s: State, e: Event, n: nat)
    requires Promises(s, n) && s.rt.running && !e.CommandStart? && Enabled(s, e) && Disciplined(s, e)
    ensures var s' := Apply(s, e);
      && Promises(s', n) && Line(s.rt, Cur(s)) <= Line(s'.rt, Cur(s'))
      && (n <= |s.rt.captured| ==> n <= |s'.rt.captured|)
      && (n <= |s'.rt.captured|
          || ToCaptureAll(s', n) + (if e.TaskStep? then 1 else 0) <= ToCaptureAll(s, n))
  {
    hide Inv, Keeping, Line, Apply, Enabled, Disciplined;
    ApplyKeeps(s, e);
    StaysKeeping(s, e);
    StepFollows(s, e);
    if e.TaskStep? { TaskPromises(s, e, n); } else { OthersKeepCaptured(s, e); }
  }

  lemma {:induction false} PromisesRun(s: State, fs: seq<Event>, n: nat)
    requires Promises(s, n) && CaptureRun(s, fs)
    ensures var t := AfterCapture(s, fs);
      && Promises(t, n) && Line(s.rt, Cur(s)) <= Line(t.rt, Cur(t))
      && (n <= |t.rt.captured| || TaskSteps(fs) + ToCaptureAll(t, n) <= ToCaptureAll(s, n))
    decreases |fs|
  {
    hide Promises, Line, Apply, Enabled, Disciplined, ToCaptureAll;
    if fs != [] {
      var front, e := fs[..|fs| - 1], fs[|fs| - 1];
      PromisesRun(s, front, n);
      PromisesStep(AfterCapture(s, front), e, n);
    }
  }

  lemma Promised(s: State, n: nat)
    requires Inv(s) && s.rt.running && !s.console.Starting?
    requires n <= |Line(s.rt, Cur(s))| && (0 < s.rt.requested ==> n <= s.rt.requested)
    ensures Promises(s, n) && ToCaptureAll(s, n) <= if n <= |s.rt.captured| then 0 else 6 * (n - |s.rt.captured|)
  {
    hide Conserved;
    OffOrOn(s);
  }

  lemma CapturedFirst(s: State, t: State, n: nat)
    requires n <= |Line(s.rt, Cur(s))| && Line(s.rt, Cur(s)) <= Line(t.rt, Cur(t)) && n <= |t.rt.captured|
    ensures t.rt.captured[..n] == Line(s.rt, Cur(s))[..n]
  {
    var line := Line(t.rt, Cur(t));
    assert line[..|t.rt.captured|] == t.rt.captured;
    assert line[..n] == t.rt.captured[..n];
  }

  lemma StillToCapture(s: State, n: nat)
    requires Promises(s, n) && |s.rt.captured| < n
    ensures 0 < ToCaptureAll(s, n)
  {
  }

  /** The packets on their way are captured, in order and as many as wanted: six steps of the
      task per packet are enough, whatever the other threads do while the capture is on. */
  lemma KeptPacketsAreCaptured(capacity: nat, es: seq<Event>, fs: seq<Event>, n: nat)
    requires RunUnder(Strict, capacity, es)
    requires var s := After(capacity, es);
      && s.rt.running && !s.console.Starting? && CaptureRun(s, fs)
      && n <= |Line(s.rt, Cur(s))| && (0 < s.rt.requested ==> n <= s.rt.requested)
      && |s.rt.captured| <= n && 6 * (n - |s.rt.captured|) <= TaskSteps(fs)
    ensures var s, t := After(capacity, es), AfterCapture(After(capacity, es), fs);
      n <= |t.rt.captured| && t.rt.captured[..n] == Line(s.rt, Cur(s))[..n]
  {
    hide Inv, Promises, Line, Apply, Enabled, Disciplined, ToCapture;
    var s := After(capacity, es);
    RunKeepsInv(capacity, es);
    Promised(s, n);
    PromisesRun(s, fs, n);
    var t := AfterCapture(s, fs);
    if |t.rt.captured| < n { StillToCapture(t, n); }
    CapturedFirst(s, t, n);
  }
}
