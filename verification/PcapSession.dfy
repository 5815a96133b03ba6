/** The pcap session under the sniffer: `pcap` and `sniffer` console commands acting on the
    flags that decide whether a capture may start, stop or close its file. */
module PcapSession {
  datatype Destination = SdCard | Memory | Jtag
  datatype Link = Ieee80211 | Ethernet
  datatype Interf = Unknown | Wlan | Eth

  /** The session handle: none, freed, or live with the pcap header written so far. */
  datatype Header = Missing | Written(link: Link)
  datatype Handle = Null | Freed | Live(header: Header)

  datatype State = State(isOpened: bool, isWriting: bool, linkTypeSet: bool, linkType: Link,
                         handle: Handle, isRunning: bool, interf: Interf)

  const INITIAL := State(false, false, false, Ieee80211, Null, false, Unknown)

  /** What the file system, the pcap library and the kernel answer during one command. */
  datatype Answers = Answers(hostConnected: bool, fileOpened: bool, sessionCreated: bool, sessionDeleted: bool,
                             printed: bool, tempCreated: bool, tempDeleted: bool, timerStarted: bool,
                             queueCreated: bool, semaphoreCreated: bool, taskCreated: bool, promiscuousSet: bool)

  const ALL_WELL := Answers(true, true, true, true, true, true, true, true, true, true, true, true)

  datatype Command =
    | Pcap(close: bool, summary: bool, open: bool, answers: Answers)
    | Sniff(interf: Interf, answers: Answers)
    | SniffStop(answers: Answers)

  // ---------------------------------------------------------------- what each call does

  function LinkOf(interf: Interf): Link { if interf == Eth then Ethernet else Ieee80211 }

  function Opened(s: State, a: Answers): State {
    if a.fileOpened && a.sessionCreated then s.(isOpened := true, handle := Live(Missing)) else s
  }

  function Closed(s: State, a: Answers): State {
    if s.isOpened && a.sessionDeleted then s.(isOpened := false, linkTypeSet := false, handle := Null) else s
  }

  function WritingFrom(s: State, dest: Destination, link: Link, a: Answers): (State, bool) {
    if !s.isOpened then (s, false)
    else if s.linkTypeSet then
      if link != s.linkType || s.isWriting then (s, false) else (s.(isWriting := true), true)
    else if dest == Jtag && link == Ethernet && !a.timerStarted then (s.(linkType := link), false)
    else
      var header := match s.handle case Live(Missing) => Live(Written(link)) case h => h;
      (s.(linkType := link, handle := header, linkTypeSet := true, isWriting := true), true)
  }

  function PacketStart(s: State, dest: Destination, link: Link, a: Answers): (State, bool) {
    if dest == Jtag && !a.hostConnected then (s, false)
    else WritingFrom(if dest == Jtag then Opened(s, a) else s, dest, link, a)
  }

  function PacketStop(s: State, dest: Destination, a: Answers): State {
    var stopped := s.(isWriting := false);
    if dest == Jtag then Closed(stopped, a) else stopped
  }

  function SnifferStart(s: State, dest: Destination, a: Answers): (State, bool) {
    if s.isRunning || s.interf == Unknown then (s, false)
    else
      var (t, ok) := PacketStart(s, dest, LinkOf(s.interf), a);
      if ok && a.queueCreated && a.semaphoreCreated && a.taskCreated && a.promiscuousSet
      then (t.(isRunning := true), true) else (t, false)
  }

  function SnifferStop(s: State, dest: Destination, a: Answers): State {
    if !s.isRunning || s.interf == Unknown || !a.promiscuousSet then s
    else PacketStop(s.(isRunning := false), dest, a)
  }

  /** `--summary`: the state and whether the command goes on to `--open`. */
  function Summarised(s: State, dest: Destination, a: Answers): (State, bool) {
    if dest == SdCard then
      if s.isOpened then (s, !s.isWriting && a.printed)
      else if !a.fileOpened || !a.tempCreated then (s, false)
      else if !a.printed || !a.tempDeleted then (s.(handle := Live(Missing)), false)
      else (s.(handle := Freed), true)
    else (s, a.printed)
  }

  function PcapCmd(s: State, dest: Destination, close: bool, summary: bool, open: bool, a: Answers): State {
    if dest == Jtag then s
    else if close then if s.isWriting then s else Closed(s, a)
    else
      var (t, on) := if summary then Summarised(s, dest, a) else (s, true);
      if on && open then Opened(t, a) else t
  }

  /** The state after a command, and whether the command started a capture. */
  function Step(s: State, dest: Destination, c: Command): (State, bool) {
    match c
    case Pcap(close, summary, open, a) => (PcapCmd(s, dest, close, summary, open, a), false)
    case Sniff(interf, a) => SnifferStart(s.(interf := interf), dest, a)
    case SniffStop(a) => (SnifferStop(s, dest, a), false)
  }

  // ---------------------------------------------------------------- the code

  class Console {
    const dest: Destination
    var isOpened: bool
    var isWriting: bool
    var linkTypeSet: bool
    var linkType: Link
    var handle: Handle
    var isRunning: bool
    var interf: Interf

    ghost function Now(): State
      reads this
    {
      State(isOpened, isWriting, linkTypeSet, linkType, handle, isRunning, interf)
    }

    constructor (dest: Destination)
      ensures Now() == INITIAL && this.dest == dest
    {
      this.dest := dest;
      isOpened, isWriting, linkTypeSet, linkType := false, false, false, Ieee80211;
      handle, isRunning, interf := Null, false, Unknown;
    }

    method PcapOpen(a: Answers)
      modifies this
      ensures Now() == Opened(old(Now()), a)
    {
      if !a.fileOpened {
        return;
      }
      if a.sessionCreated {
        handle := Live(Missing);
        isOpened := true;
      }
    }

    method PcapClose(a: Answers)
      modifies this
      ensures Now() == Closed(old(Now()), a)
    {
      if !isOpened || !a.sessionDeleted {
        return;
      }
      isOpened := false;
      linkTypeSet := false;
      handle := Null;
    }

    method SniffPacketStart(link: Link, a: Answers) returns (ok: bool)
      modifies this
      ensures (Now(), ok) == PacketStart(old(Now()), dest, link, a)
    {
      if dest == Jtag {
        if !a.hostConnected {
          return false;
        }
        PcapOpen(a);
      }
      if !isOpened {
        return false;
      }
      if linkTypeSet {
        if link != linkType || isWriting {
          return false;
        }
      } else {
        linkType := link;
        if dest == Jtag && link == Ethernet && !a.timerStarted {
          return false;
        }
        if handle == Live(Missing) {
          handle := Live(Written(link));
        }
        linkTypeSet := true;
      }
      isWriting := true;
      return true;
    }

    method SniffPacketStop(a: Answers)
      modifies this
      ensures Now() == PacketStop(old(Now()), dest, a)
    {
      isWriting := false;
      if dest == Jtag {
        PcapClose(a);
      }
    }

    /** `sniffer_start`, with its error exits: none of them ends the pcap session. */
    method StartSniffer(a: Answers) returns (ok: bool)
      modifies this
      ensures (Now(), ok) == SnifferStart(old(Now()), dest, a)
    {
      if isRunning || interf == Unknown {
        return false;
      }
      ok := SniffPacketStart(LinkOf(interf), a);
      if !ok {
        return;
      }
      isRunning := true;
      if !a.queueCreated || !a.semaphoreCreated || !a.taskCreated || !a.promiscuousSet {
        isRunning := false;
        ok := false;
      }
    }

    method StopSniffer(a: Answers)
      modifies this
      ensures Now() == SnifferStop(old(Now()), dest, a)
    {
      if !isRunning || interf == Unknown || !a.promiscuousSet {
        return;
      }
      isRunning := false;
      SniffPacketStop(a);
    }

    method DoPcapCmd(close: bool, summary: bool, open: bool, a: Answers)
      requires dest != Jtag
      modifies this
      ensures Now() == PcapCmd(old(Now()), dest, close, summary, open, a)
    {
      if close {
        if !isWriting {
          PcapClose(a);
        }
        return;
      }
      if summary {
        if dest == SdCard {
          if isOpened {
            if isWriting || !a.printed {
              return;
            }
          } else {
            if !a.fileOpened || !a.tempCreated {
              return;
            }
            handle := Live(Missing);
            if !a.printed || !a.tempDeleted {
              return;
            }
            handle := Freed;
          }
        } else if !a.printed {
          return;
        }
      }
      if open {
        PcapOpen(a);
      }
    }

    method DoSnifferCmd(interf: Interf, a: Answers) returns (ok: bool)
      modifies this
      ensures (Now(), ok) == Step(old(Now()), dest, Sniff(interf, a))
    {
      this.interf := interf;
      ok := StartSniffer(a);
    }
  }

  // ---------------------------------------------------------------- over runs

  function After(s: State, dest: Destination, cmds: seq<Command>): State
    decreases |cmds|
  {
    if cmds == [] then s else After(Step(s, dest, cmds[0]).0, dest, cmds[1..])
  }

  predicate Inv(s: State) {
    && (s.isRunning ==> s.isWriting && s.interf != Unknown)
    && (s.isWriting ==> s.linkTypeSet)
    && (s.linkTypeSet ==> s.isOpened)
    && (s.isOpened ==> s.handle.Live?)
    && (s.handle.Live? && s.handle.header.Written? ==> s.linkTypeSet)
  }

  /** The console only ever passes a real interface to a start. */
  predicate Wellformed(cmds: seq<Command>) {
    forall i | 0 <= i < |cmds| :: cmds[i].Sniff? ==> cmds[i].interf != Unknown
  }

  lemma StepKeepsInv(s: State, dest: Destination, c: Command)
    requires Inv(s) && (c.Sniff? ==> c.interf != Unknown)
    ensures Inv(Step(s, dest, c).0)
  {
  }

  /** Over any run, with every call free to fail: running implies writing, writing implies an
      open file with a link type, and an open file has a live session. */
  lemma {:induction false} RunKeepsInv(s: State, dest: Destination, cmds: seq<Command>)
    requires Inv(s) && Wellformed(cmds)
    ensures Inv(INITIAL) && Inv(After(s, dest, cmds))
    decreases |cmds|
  {
    hide Step;
    if cmds != [] {
      StepKeepsInv(s, dest, cmds[0]);
      RunKeepsInv(Step(s, dest, cmds[0]).0, dest, cmds[1..]);
    }
  }

  /** The command closes the file. */
  predicate Closes(s: State, dest: Destination, c: Command) {
    s.isOpened && !Step(s, dest, c).0.isOpened
  }

  predicate NeverCloses(s: State, dest: Destination, cmds: seq<Command>)
    decreases |cmds|
  {
    cmds == [] || (!Closes(s, dest, cmds[0]) && NeverCloses(Step(s, dest, cmds[0]).0, dest, cmds[1..]))
  }

  lemma LinkTypeStep(s: State, dest: Destination, c: Command)
    requires Inv(s) && (c.Sniff? ==> c.interf != Unknown) && s.linkTypeSet
    ensures var t := Step(s, dest, c).0;
      Inv(t) && (Closes(s, dest, c) || (t.linkTypeSet && t.linkType == s.linkType))
  {
  }

  lemma StartSetsLink(s: State, dest: Destination, c: Command)
    requires Inv(s) && (c.Sniff? ==> c.interf != Unknown) && Step(s, dest, c).1
    ensures c.Sniff? && (s.linkTypeSet ==> s.linkType == LinkOf(c.interf))
    ensures var t := Step(s, dest, c).0; t.linkTypeSet && t.linkType == LinkOf(c.interf)
  {
  }

  lemma {:induction false} LinkTypeStays(s: State, dest: Destination, cmds: seq<Command>)
    requires Inv(s) && Wellformed(cmds) && s.linkTypeSet && NeverCloses(s, dest, cmds)
    ensures After(s, dest, cmds).linkTypeSet && After(s, dest, cmds).linkType == s.linkType
    decreases |cmds|
  {
    hide Step;
    if cmds != [] {
      var t := Step(s, dest, cmds[0]).0;
      LinkTypeStep(s, dest, cmds[0]);
      LinkTypeStays(t, dest, cmds[1..]);
    }
  }

  /** Until a close, every successful start uses the link type of the first one. */
  lemma SameLinkUntilClose(s: State, dest: Destination, first: Command, between: seq<Command>, last: Command)
    requires Inv(s) && Wellformed([first] + between + [last])
    requires Step(s, dest, first).1 && NeverCloses(Step(s, dest, first).0, dest, between)
    requires Step(After(Step(s, dest, first).0, dest, between), dest, last).1
    ensures first.Sniff? && last.Sniff? && LinkOf(last.interf) == LinkOf(first.interf)
  {
    hide Step, After, NeverCloses;
    var all := [first] + between + [last];
    assert all[0] == first && all[|all| - 1] == last;
    assert forall i | 0 <= i < |between| :: between[i] == all[i + 1];
    var t := Step(s, dest, first).0;
    StepKeepsInv(s, dest, first);
    StartSetsLink(s, dest, first);
    LinkTypeStays(t, dest, between);
    RunKeepsInv(t, dest, between);
    StartSetsLink(After(t, dest, between), dest, last);
  }

  // ---------------------------------------------------------------- the start that fails late

  /** A start failed after the pcap session had begun writing. */
  predicate Stuck(s: State) { s.isWriting && !s.isRunning }

  /** Exactly the starts that fail after `sniff_packet_start` succeeded leave this state. */
  lemma StuckExactlyAfterLateFailure(s: State, dest: Destination, c: Command)
    requires Inv(s) && !Stuck(s) && Wellformed([c])
    ensures Stuck(Step(s, dest, c).0) <==>
      && c.Sniff? && !s.isRunning && PacketStart(s.(interf := c.interf), dest, LinkOf(c.interf), c.answers).1
      && !(c.answers.queueCreated && c.answers.semaphoreCreated && c.answers.taskCreated && c.answers.promiscuousSet)
  {
    assert [c][0] == c;
  }

  predicate SomeStart(s: State, dest: Destination, cmds: seq<Command>)
    decreases |cmds|
  {
    cmds != [] && (Step(s, dest, cmds[0]).1 || SomeStart(Step(s, dest, cmds[0]).0, dest, cmds[1..]))
  }

  /** From there no command starts a capture, stops one or closes the file, ever. */
  lemma {:induction false} StuckForGood(s: State, dest: Destination, cmds: seq<Command>)
    requires Inv(s) && Wellformed(cmds) && Stuck(s)
    ensures !SomeStart(s, dest, cmds) && NeverCloses(s, dest, cmds) && Stuck(After(s, dest, cmds))
    decreases |cmds|
  {
    if cmds != [] {
      var (t, ok) := Step(s, dest, cmds[0]);
      assert Inv(t) && Stuck(t) && !ok;
      StuckForGood(t, dest, cmds[1..]);
    }
  }

  /** Some command of the sequence starts a capture on this interface. */
  predicate SomeStartOn(s: State, dest: Destination, cmds: seq<Command>, interf: Interf)
    decreases |cmds|
  {
    cmds != [] &&
    var (t, started) := Step(s, dest, cmds[0]);
    (started && cmds[0].Sniff? && cmds[0].interf == interf) || SomeStartOn(t, dest, cmds[1..], interf)
  }

  lemma {:induction false} StartOnIsStart(s: State, dest: Destination, cmds: seq<Command>, interf: Interf)
    requires SomeStartOn(s, dest, cmds, interf)
    ensures SomeStart(s, dest, cmds)
    decreases |cmds|
  {
    hide Step;
    var (t, started) := Step(s, dest, cmds[0]);
    if SomeStartOn(t, dest, cmds[1..], interf) { StartOnIsStart(t, dest, cmds[1..], interf); }
  }

  lemma Before(s: State, dest: Destination, c: Command, cmds: seq<Command>, interf: Interf)
    requires SomeStartOn(Step(s, dest, c).0, dest, cmds, interf) && Wellformed(cmds)
    requires c.Sniff? ==> c.interf != Unknown
    ensures SomeStartOn(s, dest, [c] + cmds, interf) && Wellformed([c] + cmds)
  {
    hide Step;
    assert ([c] + cmds)[1..] == cmds;
  }

  lemma StartsNow(s: State, dest: Destination, interf: Interf) returns (cmds: seq<Command>)
    requires Step(s, dest, Sniff(interf, ALL_WELL)).1 && interf != Unknown
    ensures Wellformed(cmds) && SomeStartOn(s, dest, cmds, interf)
  {
    cmds := [Sniff(interf, ALL_WELL)];
  }

  /** With the file closed and nothing running, an open and a start do it. */
  lemma ClosedStarts(s: State, dest: Destination, interf: Interf) returns (cmds: seq<Command>)
    requires Inv(s) && !s.isRunning && !s.linkTypeSet && interf != Unknown
    ensures Wellformed(cmds) && SomeStartOn(s, dest, cmds, interf)
  {
    if dest == Jtag {
      cmds := StartsNow(s, dest, interf);
    } else {
      var open := Pcap(false, false, true, ALL_WELL);
      cmds := StartsNow(Step(s, dest, open).0, dest, interf);
      Before(s, dest, open, cmds, interf);
      cmds := [open] + cmds;
    }
  }

  lemma RunningStarts(s: State, dest: Destination, interf: Interf) returns (cmds: seq<Command>)
    requires Inv(s) && s.isRunning && dest == Jtag && interf != Unknown
    ensures Wellformed(cmds) && SomeStartOn(s, dest, cmds, interf)
  {
    var stop := SniffStop(ALL_WELL);
    cmds := ClosedStarts(Step(s, dest, stop).0, dest, interf);
    Before(s, dest, stop, cmds, interf);
    cmds := [stop] + cmds;
  }

  /** With nothing running, the file is closed first: by a command, or over JTAG by the stop
      of a capture with the old link type. */
  lemma IdleStarts(s: State, dest: Destination, interf: Interf) returns (cmds: seq<Command>)
    requires Inv(s) && !s.isRunning && !s.isWriting && interf != Unknown
    ensures Wellformed(cmds) && SomeStartOn(s, dest, cmds, interf)
  {
    if !s.linkTypeSet {
      cmds := ClosedStarts(s, dest, interf);
    } else if dest == Jtag {
      var again := Sniff(if s.linkType == Ethernet then Eth else Wlan, ALL_WELL);
      var t := Step(s, dest, again).0;
      cmds := RunningStarts(t, dest, interf);
      Before(s, dest, again, cmds, interf);
      cmds := [again] + cmds;
    } else {
      var close := Pcap(true, false, false, ALL_WELL);
      cmds := ClosedStarts(Step(s, dest, close).0, dest, interf);
      Before(s, dest, close, cmds, interf);
      cmds := [close] + cmds;
    }
  }

  lemma SomethingStarts(s: State, dest: Destination, interf: Interf) returns (cmds: seq<Command>)
    requires Inv(s) && !Stuck(s) && interf != Unknown
    ensures Wellformed(cmds) && SomeStartOn(s, dest, cmds, interf)
  {
    if s.isRunning {
      var stop := SniffStop(ALL_WELL);
      var t := Step(s, dest, stop).0;
      StepKeepsInv(s, dest, stop);
      cmds := IdleStarts(t, dest, interf);
      Before(s, dest, stop, cmds, interf);
      cmds := [stop] + cmds;
    } else {
      cmds := IdleStarts(s, dest, interf);
    }
  }

  /** A reachable state still allows a capture on each interface if and only if no start
      failed late. */
  lemma CanCaptureAgainIff(s: State, dest: Destination, interf: Interf)
    requires Inv(s) && interf != Unknown
    ensures (exists cmds :: Wellformed(cmds) && SomeStartOn(s, dest, cmds, interf)) <==> !Stuck(s)
  {
    hide SomeStartOn, SomeStart, Step;
    if Stuck(s) {
      forall cmds | Wellformed(cmds)
        ensures !SomeStartOn(s, dest, cmds, interf)
      {
        StuckForGood(s, dest, cmds);
        if SomeStartOn(s, dest, cmds, interf) { StartOnIsStart(s, dest, cmds, interf); }
      }
    } else {
      var cmds := SomethingStarts(s, dest, interf);
    }
  }

  // ---------------------------------------------------------------- what each command does

  /** Where a sequence of commands leads from the start of the program. */
  predicate Reached(s: State, dest: Destination, cmds: seq<Command>) {
    Wellformed(cmds) && s == After(INITIAL, dest, cmds)
  }

  /** `pcap --close` closes the file exactly when nothing writes to it and the session can be
      deleted; otherwise it changes nothing. */
  lemma CloseIff(s: State, dest: Destination, cmds: seq<Command>, summary: bool, open: bool, a: Answers)
    requires Reached(s, dest, cmds) && dest != Jtag
    ensures var t := Step(s, dest, Pcap(true, summary, open, a)).0;
      if s.isOpened && !s.isWriting && a.sessionDeleted then
        !t.isOpened && !t.linkTypeSet && t.handle == Null && !t.isRunning && !t.isWriting && t.interf == s.interf
      else t == s
  {
    RunKeepsInv(INITIAL, dest, cmds);
  }

  /** A start works exactly when nothing runs or writes, the link type is new or the same, the
      file is open, or over JTAG can be, and the kernel and the driver agree. */
  lemma StartsIff(s: State, dest: Destination, cmds: seq<Command>, interf: Interf, a: Answers)
    requires Reached(s, dest, cmds) && interf != Unknown
    ensures Step(s, dest, Sniff(interf, a)).1 <==>
      && !s.isRunning && !s.isWriting && (s.linkTypeSet ==> s.linkType == LinkOf(interf))
      && (if dest != Jtag then s.isOpened
          else
            && a.hostConnected && (s.isOpened || (a.fileOpened && a.sessionCreated))
            && (s.linkTypeSet || interf == Wlan || a.timerStarted))
      && a.queueCreated && a.semaphoreCreated && a.taskCreated && a.promiscuousSet
    ensures var (t, started) := Step(s, dest, Sniff(interf, a));
      && t.isRunning == (s.isRunning || started)
      && (started ==> t.isWriting && t.interf == interf && t.linkType == LinkOf(interf))
  {
    RunKeepsInv(INITIAL, dest, cmds);
  }

  /** A stop ends the capture exactly when there is one and the driver agrees; over JTAG it
      then closes the file if the session can be deleted. */
  lemma StopIff(s: State, dest: Destination, cmds: seq<Command>, a: Answers)
    requires Reached(s, dest, cmds)
    ensures var t := Step(s, dest, SniffStop(a)).0;
      if !s.isRunning || !a.promiscuousSet then t == s
      else
        && !t.isRunning && !t.isWriting && t.interf == s.interf
        && (if dest == Jtag && a.sessionDeleted then !t.isOpened && !t.linkTypeSet && t.handle == Null
            else t.isOpened && t.linkTypeSet && t.linkType == s.linkType && t.handle == s.handle)
  {
    RunKeepsInv(INITIAL, dest, cmds);
  }

  /** When `pcap --open`, perhaps behind a summary, opens a closed file; a summary without it
      leaves the flags alone. */
  lemma OpensIff(s: State, dest: Destination, cmds: seq<Command>, summary: bool, open: bool, a: Answers)
    requires Reached(s, dest, cmds) && !s.isOpened
    ensures var t := Step(s, dest, Pcap(false, summary, open, a)).0;
      && (t.isOpened <==>
            && dest != Jtag && open && a.fileOpened && a.sessionCreated
            && (summary ==> a.printed && (dest == SdCard ==> a.tempCreated && a.tempDeleted)))
      && (t.isOpened ==> t.handle == Live(Missing))
      && !t.isWriting && !t.linkTypeSet && !t.isRunning
  {
    RunKeepsInv(INITIAL, dest, cmds);
  }

  // ---------------------------------------------------------------- the pcap header

  /** The live session's file begins with the header of the link type in use. */
  predicate HeaderWritten(s: State) { s.linkTypeSet ==> s.handle == Live(Written(s.linkType)) }

  /** The command creates a session while one with a link type is in use. */
  predicate Reopens(s: State, dest: Destination, c: Command) {
    s.linkTypeSet &&
    match c
    case Pcap(close, summary, open, a) =>
      && dest != Jtag && !close && open && a.fileOpened && a.sessionCreated
      && (summary ==> a.printed && (dest == SdCard ==> !s.isWriting))
    case Sniff(_, a) => dest == Jtag && !s.isRunning && a.hostConnected && a.fileOpened && a.sessionCreated
    case SniffStop(_) => false
  }

  /** Packets go to a file with its header, except exactly after a session was replaced:
      by a second `pcap --open`, or by a JTAG start after a close that failed. */
  lemma HeaderLostExactlyByReopening(s: State, dest: Destination, c: Command)
    requires Inv(s) && HeaderWritten(s) && Wellformed([c])
    ensures HeaderWritten(Step(s, dest, c).0) <==> !Reopens(s, dest, c)
  {
    assert [c][0] == c;
  }

  predicate NeverReopens(s: State, dest: Destination, cmds: seq<Command>)
    decreases |cmds|
  {
    cmds == [] || (!Reopens(s, dest, cmds[0]) && NeverReopens(Step(s, dest, cmds[0]).0, dest, cmds[1..]))
  }

  /** A run without such a command captures into a file with the right header. */
  lemma {:induction false} CaptureHasHeader(s: State, dest: Destination, cmds: seq<Command>)
    requires Inv(s) && HeaderWritten(s) && Wellformed(cmds) && NeverReopens(s, dest, cmds)
    ensures var t := After(s, dest, cmds); t.isRunning ==> t.handle == Live(Written(t.linkType))
    decreases |cmds|
  {
    if cmds != [] {
      var t := Step(s, dest, cmds[0]).0;
      assert Wellformed([cmds[0]]);
      HeaderLostExactlyByReopening(s, dest, cmds[0]);
      StepKeepsInv(s, dest, cmds[0]);
      CaptureHasHeader(t, dest, cmds[1..]);
    }
  }

  /** Nothing refuses `pcap --open` during a capture: it then goes on without a header. */
  lemma ReopenDuringCapture(interf: Interf)
    requires interf != Unknown
    ensures
      var open := Pcap(false, false, true, ALL_WELL);
      var cmds := [open, Sniff(interf, ALL_WELL), open];
      var t := After(INITIAL, SdCard, cmds);
      t.isRunning && t.handle == Live(Missing)
  {
    var open := Pcap(false, false, true, ALL_WELL);
    var s1 := Step(INITIAL, SdCard, open).0;
    var s2 := Step(s1, SdCard, Sniff(interf, ALL_WELL)).0;
    var s3 := Step(s2, SdCard, open).0;
    assert After(s2, SdCard, [open]) == After(s3, SdCard, []);
    assert [Sniff(interf, ALL_WELL), open][1..] == [open];
    assert [open, Sniff(interf, ALL_WELL), open][1..] == [Sniff(interf, ALL_WELL), open];
  }
}
