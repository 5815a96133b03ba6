/** When an ESPNOW device sends, turns to unicasts and ends, in every run. */
module EspNowTurns {
  import opened Words
  import opened EspNowFrame
  import opened EspNowNode
  import opened EspNowProtocol

  // ---------------------------------------------------------------- what each event asks for

  /** The device can list the sender of what it hears. */
  predicate Lists(c: Config, n: Node, e: Event) {
    e.HearBroadcast? && (c.Of(e.i.Other()).mac in n.at.peers || e.memory)
  }

  /** A device that is no unicast sender hears its peer in state 1, and has no smaller magic
      number; its own state does not matter. */
  predicate Invited(c: Config, n: Node, peer: Node, e: Event) {
    && Lists(c, n, e) && !n.at.unicast
    && e.k < |peer.broadcasts| && HEADER_LEN <= |peer.broadcasts[e.k]| && Fields(peer.broadcasts[e.k]).state == 1
    && c.Of(e.i).magic >= c.Of(e.i.Other()).magic
  }

  /** The device tries to send a broadcast, or a unicast. */
  predicate TriesBroadcast(n: Node, e: Event) {
    e.Start? || (e.Callback? && e.mac == BROADCAST_MAC && n.at.broadcast)
  }

  predicate TriesUnicast(c: Config, n: Node, peer: Node, e: Event) {
    (e.Callback? && e.mac != BROADCAST_MAC && |n.unicasts| < c.Of(e.i).count) || Invited(c, n, peer, e)
  }

  /** Whether the driver takes the frame. */
  predicate Taken(e: Event) { (e.Start? || e.Callback? || e.HearBroadcast?) && e.ok }

  // ---------------------------------------------------------------- what each event does

  /** What the node sent: one broadcast, one unicast to its peer, or nothing. */
  predicate SentOne(n: Node, n': Node, callbacks: multiset<Mac>, to: Option<Mac>) {
    match to
    case None => n'.broadcasts == n.broadcasts && n'.unicasts == n.unicasts && n'.awaiting == callbacks
    case Some(mac) =>
      && n'.awaiting == callbacks + multiset{mac}
      && |n'.broadcasts| == |n.broadcasts| + (if mac == BROADCAST_MAC then 1 else 0)
      && |n'.unicasts| == |n.unicasts| + (if mac == BROADCAST_MAC then 0 else 1)
      && n.broadcasts <= n'.broadcasts && n.unicasts <= n'.unicasts
  }

  predicate SendsWhatItTries(c: Config, n: Node, peer: Node, e: Event, n': Node) {
    SentOne(n, n', if e.Callback? || e.DropCallback? then n.awaiting - multiset{e.mac} else n.awaiting,
            if !Taken(e) then None
            else if TriesBroadcast(n, e) then Some(BROADCAST_MAC)
            else if TriesUnicast(c, n, peer, e) then Some(c.Of(e.i.Other()).mac)
            else None)
  }

  predicate EndsAsItMust(c: Config, n: Node, peer: Node, e: Event, n': Node) {
    n'.at.status ==
      if (TriesBroadcast(n, e) || TriesUnicast(c, n, peer, e)) && !Taken(e) then Failed
      else if e.HearBroadcast? && !Lists(c, n, e) then Failed
      else if e.Callback? && e.mac != BROADCAST_MAC && |n.unicasts| == c.Of(e.i).count then SendDone
      else n.at.status
  }

  predicate FlagsFollow(c: Config, n: Node, peer: Node, e: Event, n': Node) {
    var turns := Invited(c, n, peer, e) && Taken(e);
    && n'.started == (n.started || e.Start?)
    && n'.at.unicast == (n.at.unicast || turns)
    && n'.at.broadcast == (n.at.broadcast && !turns && !e.HearUnicast?)
    && n'.at.state == (if Lists(c, n, e) then 1 else n.at.state)
    && n'.at.peers == n.at.peers + (if Lists(c, n, e) then {c.Of(e.i.Other()).mac} else {})
  }

  /** A frame just sent carries the state of its device. */
  predicate CarriesState(n: Node, n': Node) {
    && (|n'.broadcasts| > |n.broadcasts| ==>
          var data := n'.broadcasts[|n'.broadcasts| - 1]; HEADER_LEN <= |data| && Fields(data).state == n'.at.state)
    && (|n'.unicasts| > |n.unicasts| ==>
          var data := n'.unicasts[|n'.unicasts| - 1]; HEADER_LEN <= |data| && Fields(data).state == n'.at.state)
  }

  predicate Follows(c: Config, n: Node, peer: Node, e: Event, n': Node) {
    SendsWhatItTries(c, n, peer, e, n') && EndsAsItMust(c, n, peer, e, n') && FlagsFollow(c, n, peer, e, n')
  }

  // ---------------------------------------------------------------- event by event

  lemma RecordSends(n: Node, step: (Local, Sent))
    ensures Record(n, step).at == step.0 && Record(n, step).started == n.started
    ensures SentOne(n, Record(n, step), n.awaiting, if step.1.Sent? then Some(step.1.dest) else None)
  {
  }

  /** A send callback, on the state of the task. */
  lemma OnSentDoes(crc: Crc, s: Local, mac: Mac, ok: bool, payload: seq<Byte>)
    ensures var (t, sent) := OnSent(crc, s, mac, ok, payload);
      var tries := if mac == BROADCAST_MAC then s.broadcast else s.count != 1;
      && (sent.Sent? <==> tries && ok) && (sent.Sent? ==> sent.dest == mac)
      && t.status == (if tries && !ok then Failed
                      else if mac != BROADCAST_MAC && s.count == 1 then SendDone else s.status)
      && (t.unicast, t.broadcast, t.state, t.peers) == (s.unicast, s.broadcast, s.state, s.peers)
  {
    hide Frame;
  }

  /** A broadcast that is heard, on the state of the task. */
  lemma OnBroadcastDoes(crc: Crc, s: Local, mac: Mac, state: Byte, magic: Word32, memory: bool, ok: bool,
                        payload: seq<Byte>)
    requires s.state <= 1
    ensures var (t, sent) := OnBroadcast(crc, s, mac, state, magic, memory, ok, payload);
      var lists := mac in s.peers || memory;
      var turns := lists && state == 1 && !s.unicast && s.magic >= magic;
      && (sent.Sent? <==> turns && ok) && (sent.Sent? ==> sent.dest == mac)
      && t.status == (if !lists || (turns && !ok) then Failed else s.status)
      && t.unicast == (s.unicast || (turns && ok)) && t.broadcast == (s.broadcast && !(turns && ok))
      && t.state == (if lists then 1 else s.state) && t.peers == (if lists then s.peers + {mac} else s.peers)
  {
    hide Frame;
  }

  lemma StartFollows(c: Config, n: Node, peer: Node, e: Event)
    requires e.Start?
    ensures Follows(c, n, peer, e, Advance(c, e, n, peer))
    requires n.at.dest == BROADCAST_MAC
  {
    RecordSends(n.(started := true), SendBuffer(n.at, e.ok));
  }

  lemma SentBesides(n: Node, m: Node, n': Node, callbacks: multiset<Mac>, to: Option<Mac>)
    requires SentOne(m, n', callbacks, to) && m.broadcasts == n.broadcasts && m.unicasts == n.unicasts
    ensures SentOne(n, n', callbacks, to)
  {
  }

  /** The count of the task says how many unicasts were sent. */
  lemma CallbackCounts(c: Config, n: Node, e: Event)
    requires c.Valid() && Control(c, e.i, n) && e.Callback? && n.at.status == Running && e.mac in n.awaiting
    ensures e.mac != BROADCAST_MAC ==>
      && e.mac == c.Of(e.i.Other()).mac && |n.unicasts| <= c.Of(e.i).count
      && (n.at.count == 1 <==> |n.unicasts| == c.Of(e.i).count)
  {
  }

  lemma CallbackFollows(c: Config, n: Node, peer: Node, e: Event)
    requires c.Valid() && Control(c, e.i, n) && e.Callback? && n.at.status == Running && e.mac in n.awaiting
    ensures Follows(c, n, peer, e, Advance(c, e, n, peer))
  {
    hide OnSent, Record, SentOne, Control;
    CallbackCounts(c, n, e);
    var called, step := n.(awaiting := n.awaiting - multiset{e.mac}), OnSent(c.crc, n.at, e.mac, e.ok, e.payload);
    OnSentDoes(c.crc, n.at, e.mac, e.ok, e.payload);
    RecordSends(called, step);
    SentBesides(n, called, Record(called, step), called.awaiting, if step.1.Sent? then Some(step.1.dest) else None);
  }

  lemma BroadcastFollows(c: Config, n: Node, peer: Node, e: Event)
    requires e.HearBroadcast? && e.k < |peer.broadcasts| && n.at.state <= 1 && n.at.magic == c.Of(e.i).magic
    requires var data := peer.broadcasts[e.k];
      && Accepted(c.crc, data) && Fields(data).kind == DATA_BROADCAST
      && Fields(data).magic == c.Of(e.i.Other()).magic
    ensures Follows(c, n, peer, e, Advance(c, e, n, peer))
  {
    hide OnBroadcast, Record, SentOne, Fields, Frame;
    var heard, m := n.(heard := n.heard + {e.k}), Fields(peer.broadcasts[e.k]);
    var mac := c.Of(e.i.Other()).mac;
    var step := OnBroadcast(c.crc, n.at, mac, m.state, m.magic, e.memory, e.ok, e.payload);
    OnBroadcastDoes(c.crc, n.at, mac, m.state, m.magic, e.memory, e.ok, e.payload);
    RecordSends(heard, step);
    SentBesides(n, heard, Record(heard, step), n.awaiting, if step.1.Sent? then Some(step.1.dest) else None);
  }

  lemma UnicastFollows(c: Config, n: Node, peer: Node, e: Event)
    requires e.HearUnicast? && e.k < |peer.unicasts|
    requires Accepted(c.crc, peer.unicasts[e.k]) && Fields(peer.unicasts[e.k]).kind == DATA_UNICAST
    ensures Follows(c, n, peer, e, Advance(c, e, n, peer))
  {
    hide Heard;
    UnicastHeard(c.crc, n, c.Of(e.i.Other()).mac, peer.unicasts[e.k], e.memory, e.ok, e.payload);
  }

  lemma QuietFollows(c: Config, n: Node, peer: Node, e: Event)
    requires e.DropCallback? || (e.HearNoise? && Noise(c, e.data))
    ensures Follows(c, n, peer, e, Advance(c, e, n, peer))
  {
    hide Heard;
    if e.HearNoise? { NoiseHeard(c, n, e.mac, e.data); }
  }

  lemma AdvanceFollows(c: Config, w: World, e: Event)
    requires c.Valid() && Inv(c, w) && Enabled(c, w, e)
    ensures Follows(c, w.Of(e.i), w.Of(e.i.Other()), e, Advance(c, e, w.Of(e.i), w.Of(e.i.Other())))
  {
    hide Follows, Advance, Accepted, Fields;
    var n, peer := w.Of(e.i), w.Of(e.i.Other());
    assert NodeInv(c, e.i, n) && NodeInv(c, e.i.Other(), peer) && Acquainted(c, e.i, n, peer);
    match e
    case Start(_, _) => StartFollows(c, n, peer, e);
    case Callback(_, _, _, _) => CallbackFollows(c, n, peer, e);
    case HearBroadcast(_, _, _, _, _) => BroadcastFollows(c, n, peer, e);
    case HearUnicast(_, _, _, _, _) => UnicastFollows(c, n, peer, e);
    case _ => QuietFollows(c, n, peer, e);
  }

  lemma RecordCarries(n: Node, step: (Local, Sent))
    requires step.1.Sent? ==> HEADER_LEN <= |step.1.data| && Fields(step.1.data).state == step.0.state
    ensures CarriesState(n, Record(n, step))
  {
  }

  lemma HeardIsRecord(c: Config, n: Node, from: Mac, data: seq<Byte>, memory: bool, ok: bool, payload: seq<Byte>)
    requires Accepted(c.crc, data) && Fields(data).kind == DATA_BROADCAST
    ensures var m := Fields(data);
      Heard(c.crc, n, from, data, memory, ok, payload)
      == Record(n, OnBroadcast(c.crc, n.at, from, m.state, m.magic, memory, ok, payload))
  {
  }

  lemma StartCarries(c: Config, n: Node, peer: Node, e: Event)
    requires Control(c, e.i, n) && e.Start? && !n.started
    ensures CarriesState(n, Advance(c, e, n, peer))
  {
    hide Fields, Record, Frame;
    StartSends(c, e.i, n, e.ok);
    RecordCarries(n.(started := true), SendBuffer(n.at, e.ok));
  }

  lemma CallbackCarries(c: Config, n: Node, peer: Node, e: Event)
    requires Control(c, e.i, n) && n.at.status == Running && n.started && e.Callback?
    ensures CarriesState(n, Advance(c, e, n, peer))
  {
    hide Fields, OnSent, Record, Control;
    SentSends(c, e.i, n, e.mac, e.ok, e.payload);
    RecordCarries(n.(awaiting := n.awaiting - multiset{e.mac}), OnSent(c.crc, n.at, e.mac, e.ok, e.payload));
  }

  lemma BroadcastCarries(c: Config, n: Node, peer: Node, e: Event)
    requires c.Valid() && Control(c, e.i, n) && n.at.status == Running && n.started
    requires e.HearBroadcast? && e.k < |peer.broadcasts|
    requires Accepted(c.crc, peer.broadcasts[e.k]) && Fields(peer.broadcasts[e.k]).kind == DATA_BROADCAST
    ensures CarriesState(n, Advance(c, e, n, peer))
  {
    hide Fields, OnBroadcast, Record, Heard, Control;
    var from, data, heard := c.Of(e.i.Other()).mac, peer.broadcasts[e.k], n.(heard := n.heard + {e.k});
    var m := Fields(data);
    MeetingSends(c, e.i, n, m.state, m.magic, e.memory, e.ok, e.payload);
    HeardIsRecord(c, heard, from, data, e.memory, e.ok, e.payload);
    RecordCarries(heard, OnBroadcast(c.crc, n.at, from, m.state, m.magic, e.memory, e.ok, e.payload));
  }

  lemma QuietCarries(c: Config, n: Node, peer: Node, e: Event)
    requires match e
      case HearUnicast(_, k, _, _, _) =>
        k < |peer.unicasts| && Accepted(c.crc, peer.unicasts[k]) && Fields(peer.unicasts[k]).kind == DATA_UNICAST
      case HearNoise(_, _, data) => Noise(c, data)
      case DropCallback(_, _) => true
      case _ => false
    ensures CarriesState(n, Advance(c, e, n, peer))
  {
    hide Fields, Heard;
    var from := c.Of(e.i.Other()).mac;
    match e
    case HearUnicast(_, k, memory, ok, payload) =>
      UnicastHeard(c.crc, n, from, peer.unicasts[k], memory, ok, payload);
    case HearNoise(_, mac, data) => NoiseHeard(c, n, mac, data);
    case _ =>
  }

  lemma AdvanceCarries(c: Config, w: World, e: Event)
    requires c.Valid() && Inv(c, w) && Enabled(c, w, e)
    ensures CarriesState(w.Of(e.i), Advance(c, e, w.Of(e.i), w.Of(e.i.Other())))
  {
    hide CarriesState, Advance, Accepted, Fields;
    var n, peer := w.Of(e.i), w.Of(e.i.Other());
    assert NodeInv(c, e.i, n) && NodeInv(c, e.i.Other(), peer);
    match e
    case Start(_, _) => StartCarries(c, n, peer, e);
    case Callback(_, _, _, _) => CallbackCarries(c, n, peer, e);
    case HearBroadcast(_, _, _, _, _) => BroadcastCarries(c, n, peer, e);
    case _ => QuietCarries(c, n, peer, e);
  }

  /** In every run each event has exactly this outcome for its device, and none for the
      other. */
  lemma EventOutcome(c: Config, es: seq<Event>, e: Event)
    requires c.Valid() && Run(c, es) && Enabled(c, After(c, es), e)
    ensures var w, w' := After(c, es), Apply(c, After(c, es), e);
      && Follows(c, w.Of(e.i), w.Of(e.i.Other()), e, w'.Of(e.i)) && CarriesState(w.Of(e.i), w'.Of(e.i))
      && w'.Of(e.i.Other()) == w.Of(e.i.Other())
  {
    hide Inv, Enabled, Follows, Advance, CarriesState;
    RunKeepsInv(c, es);
    AdvanceFollows(c, After(c, es), e);
    AdvanceCarries(c, After(c, es), e);
  }

  /** The peer's address gets the only unicast so far, and the broadcasts stop. */
  predicate HasTurned(n: Node, n': Node, peer: Mac) {
    && !n'.at.broadcast && n'.at.status == n.at.status
    && |n'.unicasts| == |n.unicasts| + 1 && n'.broadcasts == n.broadcasts
    && n'.awaiting == n.awaiting + multiset{peer}
  }

  lemma TurningFollows(c: Config, n: Node, peer: Node, e: Event, n': Node)
    requires c.Valid() && Follows(c, n, peer, e, n')
    ensures n'.at.unicast == (n.at.unicast || (Invited(c, n, peer, e) && e.ok))
    ensures Invited(c, n, peer, e) ==> e.HearBroadcast? && !n.at.unicast
    ensures Invited(c, n, peer, e) && e.ok ==> HasTurned(n, n', c.Of(e.i.Other()).mac)
  {
    hide Fields;
  }

  lemma NoUnicastsYet(c: Config, i: Side, n: Node)
    requires NodeInv(c, i, n) && !n.at.unicast
    ensures n.unicasts == []
  {
  }

  /** A device turns to unicasts exactly when it is invited and its send succeeds, whatever
      its own state was; it then stops its broadcasts, and its first unicast goes to the peer. */
  lemma TurnsExactlyWhen(c: Config, es: seq<Event>, e: Event, i: Side)
    requires c.Valid() && Run(c, es) && Enabled(c, After(c, es), e)
    ensures var w, w' := After(c, es), Apply(c, After(c, es), e);
      var turns := e.i == i && Invited(c, w.Of(i), w.Of(i.Other()), e) && e.ok;
      && w'.Of(i).at.unicast == (w.Of(i).at.unicast || turns)
      && (turns ==> w.Of(i).unicasts == [] && HasTurned(w.Of(i), w'.Of(i), c.Of(i.Other()).mac))
  {
    hide Advance, CarriesState, Follows, Invited, HasTurned, NodeInv, Enabled;
    RunKeepsInv(c, es);
    EventOutcome(c, es, e);
    var w := After(c, es);
    TurningFollows(c, w.Of(e.i), w.Of(e.i.Other()), e, Apply(c, w, e).Of(e.i));
    if !w.Of(i).at.unicast { NoUnicastsYet(c, i, w.Of(i)); }
  }

  // ---------------------------------------------------------------- a run that ends as it should

  lemma Onward(c: Config, es: seq<Event>, e: Event) returns (es': seq<Event>)
    requires c.Valid() && Run(c, es) && Enabled(c, After(c, es), e)
    ensures Run(c, es') && After(c, es') == Apply(c, After(c, es), e)
    ensures var w, w' := After(c, es), After(c, es');
      && Follows(c, w.Of(e.i), w.Of(e.i.Other()), e, w'.Of(e.i)) && CarriesState(w.Of(e.i), w'.Of(e.i))
      && w'.Of(e.i.Other()) == w.Of(e.i.Other())
  {
    hide Enabled, Follows, Advance, CarriesState;
    EventOutcome(c, es, e);
    es' := es + [e];
    assert es'[..|es|] == es;
  }

  lemma StartsOff(c: Config, i: Side)
    requires c.Valid()
    ensures var n := Init(c).Of(i);
      && !n.started && n.at.broadcast && !n.at.unicast && n.at.state == 0 && n.at.status == Running
      && n.broadcasts == [] == n.unicasts
  {
    hide Frame;
    InitialInv(c, i);
  }

  /** A started device on its way: state, broadcasts sent, and the state in the latest. */
  predicate Calling(n: Node, state: Byte, sent: nat, last: Byte) {
    && n.started && n.at.status == Running && n.at.broadcast && !n.at.unicast && n.at.state == state
    && |n.broadcasts| == sent > 0 && n.unicasts == [] && BROADCAST_MAC in n.awaiting
    && HEADER_LEN <= |n.broadcasts[sent - 1]| && Fields(n.broadcasts[sent - 1]).state == last
  }

  lemma StartedCalls(c: Config, n: Node, peer: Node, e: Event, n': Node)
    requires !n.started && n.at.broadcast && !n.at.unicast && n.at.state == 0 && n.at.status == Running
    requires n.broadcasts == [] == n.unicasts && e.Start? && e.ok
    requires Follows(c, n, peer, e, n') && CarriesState(n, n')
    ensures Calling(n', 0, 1, 0)
  {
  }

  lemma HeardCalls(c: Config, n: Node, peer: Node, e: Event, n': Node)
    requires Calling(n, 0, 1, 0) && Calling(peer, 0, 1, 0) && e.HearBroadcast? && e.k == 0 && e.memory
    requires Follows(c, n, peer, e, n')
    ensures Calling(n', 1, 1, 0)
  {
  }

  lemma CallsAgain(c: Config, n: Node, peer: Node, e: Event, n': Node)
    requires Calling(n, 1, 1, 0) && e.Callback? && e.mac == BROADCAST_MAC && e.ok
    requires Follows(c, n, peer, e, n') && CarriesState(n, n')
    ensures Calling(n', 1, 2, 1)
  {
  }

  /** A device that sends unicasts, so many so far. */
  predicate Unicasting(c: Config, i: Side, n: Node, sent: nat) {
    && n.at.status == Running && n.started && n.at.unicast && |n.unicasts| == sent
    && c.Of(i.Other()).mac in n.awaiting
  }

  lemma AnswerTurns(c: Config, n: Node, peer: Node, e: Event, n': Node)
    requires c.Valid() && Calling(n, 0, 1, 0) && Calling(peer, 1, 2, 1)
    requires e.HearBroadcast? && e.k == 1 && e.memory && e.ok
    requires c.Of(e.i).magic >= c.Of(e.i.Other()).magic && Follows(c, n, peer, e, n')
    ensures Unicasting(c, e.i, n', 1) && !n'.at.broadcast
  {
  }

  lemma BothCall(c: Config, i: Side) returns (es: seq<Event>)
    requires c.Valid()
    ensures Run(c, es) && Calling(After(c, es).Of(i), 0, 1, 0) && Calling(After(c, es).Of(i.Other()), 0, 1, 0)
  {
    hide Follows, CarriesState, Calling, Init, Apply;
    var j := i.Other();
    StartsOff(c, i);
    StartsOff(c, j);
    es := [];
    var w := Init(c);
    es := Onward(c, es, Start(i, true));
    var w1 := After(c, es);
    StartedCalls(c, w.Of(i), w.Of(j), Start(i, true), w1.Of(i));
    es := Onward(c, es, Start(j, true));
    StartedCalls(c, w1.Of(j), w1.Of(i), Start(j, true), After(c, es).Of(j));
  }

  /** The device hears its peer's second broadcast, which says that it was heard itself. */
  lemma ComesToUnicast(c: Config, i: Side) returns (es: seq<Event>)
    requires c.Valid() && c.Of(i).magic >= c.Of(i.Other()).magic
    ensures Run(c, es) && Unicasting(c, i, After(c, es).Of(i), 1)
  {
    hide Follows, CarriesState, Init, Apply;
    var j := i.Other();
    es := BothCall(c, i);
    var w := After(c, es);
    var e := HearBroadcast(j, 0, true, true, []);
    es := Onward(c, es, e);
    var w1 := After(c, es);
    HeardCalls(c, w.Of(j), w.Of(i), e, w1.Of(j));
    e := Callback(j, BROADCAST_MAC, true, []);
    es := Onward(c, es, e);
    var w2 := After(c, es);
    CallsAgain(c, w1.Of(j), w1.Of(i), e, w2.Of(j));
    e := HearBroadcast(i, 1, true, true, []);
    es := Onward(c, es, e);
    AnswerTurns(c, w2.Of(i), w2.Of(j), e, After(c, es).Of(i));
  }

  lemma CallbackGoesOn(c: Config, n: Node, peer: Node, e: Event, n': Node)
    requires c.Valid() && Unicasting(c, e.i, n, |n.unicasts|) && |n.unicasts| <= c.Of(e.i).count
    requires e.Callback? && e.mac == c.Of(e.i.Other()).mac && e.ok && Follows(c, n, peer, e, n')
    ensures if |n.unicasts| == c.Of(e.i).count then n'.at.status == SendDone && n'.unicasts == n.unicasts
            else Unicasting(c, e.i, n', |n.unicasts| + 1)
  {
  }

  /** A device that sends unicasts comes to its end when its callbacks arrive. */
  lemma {:induction false} ComesToItsEnd(c: Config, i: Side, es: seq<Event>) returns (es': seq<Event>)
    requires c.Valid() && Run(c, es)
    requires var n := After(c, es).Of(i); Unicasting(c, i, n, |n.unicasts|) && |n.unicasts| <= c.Of(i).count
    ensures Run(c, es')
    ensures var n := After(c, es').Of(i); n.at.status == SendDone && |n.unicasts| == c.Of(i).count
    decreases c.Of(i).count - |After(c, es).Of(i).unicasts|
  {
    hide Follows, CarriesState, Apply;
    var w, e := After(c, es), Callback(i, c.Of(i.Other()).mac, true, []);
    es' := Onward(c, es, e);
    CallbackGoesOn(c, w.Of(i), w.Of(i.Other()), e, After(c, es').Of(i));
    if |w.Of(i).unicasts| < c.Of(i).count { es' := ComesToItsEnd(c, i, es'); }
  }

  /** A device with no smaller magic number can do its work: there is a run from the start in
      which it sends all its unicasts and ends. */
  lemma LargerMagicCanFinish(c: Config, i: Side) returns (es: seq<Event>)
    requires c.Valid() && c.Of(i).magic >= c.Of(i.Other()).magic
    ensures Run(c, es)
    ensures var n := After(c, es).Of(i); n.at.status == SendDone && |n.unicasts| == c.Of(i).count
  {
    es := ComesToUnicast(c, i);
    es := ComesToItsEnd(c, i, es);
  }
}
