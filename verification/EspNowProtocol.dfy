/** Two ESPNOW devices over a channel that may lose, repeat and reorder frames, and
    corrupt them in ways the CRC detects.  Everything a device ever handed to its
    driver is kept; the channel may deliver any of it at any time, any number of times. */
module EspNowProtocol {
  import opened Words
  import opened EspNowFrame
  import opened EspNowNode

  datatype Side = Left | Right {
    function Other(): Side { if this == Left then Right else Left }
  }

  /** A device's constants: address, magic number, number of unicasts to send, and the
      payload of the broadcast it prepares first. */
  datatype Setup = Setup(mac: Mac, magic: Word32, count: Word16, payload: seq<Byte>)

  datatype Config = Config(crc: Crc, left: Setup, right: Setup) {
    function Of(i: Side): Setup { if i == Left then left else right }

    predicate Valid() {
      && left.mac != right.mac && left.mac != BROADCAST_MAC && right.mac != BROADCAST_MAC
      && 1 <= left.count && 1 <= right.count
    }
  }

  /** A device with its history: the frames it sent to the broadcast address and to
      others in order, the frames whose send callback is still to come and those whose
      callback was dropped, and the broadcasts of its peer it has received. */
  datatype Node = Node(
    at: Local, started: bool,
    awaiting: multiset<Mac>, dropped: multiset<Mac>,
    broadcasts: seq<seq<Byte>>, unicasts: seq<seq<Byte>>, heard: set<nat>)

  datatype World = World(left: Node, right: Node) {
    function Of(i: Side): Node { if i == Left then left else right }
    function With(i: Side, n: Node): World { if i == Left then World(n, right) else World(left, n) }
  }

  /** `ok` answers the send of the step, `memory` the allocation of a peer record. */
  datatype Event =
    | Start(i: Side, ok: bool)
    | Callback(i: Side, mac: Mac, ok: bool, payload: seq<Byte>)
    | DropCallback(i: Side, mac: Mac)
    | HearBroadcast(i: Side, k: nat, memory: bool, ok: bool, payload: seq<Byte>)
    | HearUnicast(i: Side, k: nat, memory: bool, ok: bool, payload: seq<Byte>)
    | HearNoise(i: Side, mac: Mac, data: seq<Byte>)

  function InitNode(c: Config, i: Side): Node {
    Node(Initial(c.crc, c.Of(i).magic, c.Of(i).count, c.Of(i).payload), false, multiset{}, multiset{}, [], [], {})
  }

  function Init(c: Config): World { World(InitNode(c, Left), InitNode(c, Right)) }

  /** A frame of another device that is rejected, or of neither type. */
  predicate Noise(c: Config, data: seq<Byte>) {
    Accepted(c.crc, data) ==> Fields(data).kind != DATA_BROADCAST && Fields(data).kind != DATA_UNICAST
  }

  predicate Enabled(c: Config, w: World, e: Event) {
    match e
    case Start(i, _) => !w.Of(i).started
    case Callback(i, mac, _, _) => w.Of(i).at.status == Running && mac in w.Of(i).awaiting
    case DropCallback(i, mac) => mac in w.Of(i).awaiting
    case HearBroadcast(i, k, _, _, _) =>
      w.Of(i).started && w.Of(i).at.status == Running && k < |w.Of(i.Other()).broadcasts|
    case HearUnicast(i, k, _, _, _) =>
      w.Of(i).started && w.Of(i).at.status == Running && k < |w.Of(i.Other()).unicasts|
    case HearNoise(i, _, data) => w.Of(i).started && w.Of(i).at.status == Running && Noise(c, data)
  }

  /** Record the outcome of a step that may have sent a frame. */
  function Record(n: Node, step: (Local, Sent)): Node {
    var (at, sent) := step;
    if sent.Nothing? then n.(at := at)
    else
      var n' := n.(at := at, awaiting := n.awaiting + multiset{sent.dest});
      if sent.dest == BROADCAST_MAC then n'.(broadcasts := n.broadcasts + [sent.data])
      else n'.(unicasts := n.unicasts + [sent.data])
  }

  // What each event does to the device it happens at.

  function Started(n: Node, ok: bool): Node { Record(n.(started := true), SendBuffer(n.at, ok)) }

  function CalledBack(crc: Crc, n: Node, mac: Mac, ok: bool, payload: seq<Byte>): Node {
    Record(n.(awaiting := n.awaiting - multiset{mac}), OnSent(crc, n.at, mac, ok, payload))
  }

  function Dropped(n: Node, mac: Mac): Node {
    n.(awaiting := n.awaiting - multiset{mac}, dropped := n.dropped + multiset{mac})
  }

  function Heard(crc: Crc, n: Node, from: Mac, data: seq<Byte>, memory: bool, ok: bool, payload: seq<Byte>): Node {
    Record(n, OnReceived(crc, n.at, from, data, memory, ok, payload))
  }

  function Advance(c: Config, e: Event, n: Node, peer: Node): Node
    requires e.HearBroadcast? ==> e.k < |peer.broadcasts|
    requires e.HearUnicast? ==> e.k < |peer.unicasts|
  {
    var from := c.Of(e.i.Other()).mac;
    match e
    case Start(_, ok) => Started(n, ok)
    case Callback(_, mac, ok, payload) => CalledBack(c.crc, n, mac, ok, payload)
    case DropCallback(_, mac) => Dropped(n, mac)
    case HearBroadcast(_, k, memory, ok, payload) =>
      Heard(c.crc, n.(heard := n.heard + {k}), from, peer.broadcasts[k], memory, ok, payload)
    case HearUnicast(_, k, memory, ok, payload) => Heard(c.crc, n, from, peer.unicasts[k], memory, ok, payload)
    case HearNoise(_, mac, data) => Heard(c.crc, n, mac, data, true, true, [])
  }

  function Apply(c: Config, w: World, e: Event): World
    requires Enabled(c, w, e)
  {
    w.With(e.i, Advance(c, e, w.Of(e.i), w.Of(e.i.Other())))
  }

  predicate Run(c: Config, es: seq<Event>)
    decreases |es|, 0
  {
    es == [] ||
    (var before := es[..|es| - 1];
     Run(c, before) && Enabled(c, After(c, before), es[|es| - 1]))
  }

  function After(c: Config, es: seq<Event>): World
    requires Run(c, es)
    decreases |es|, 1
  {
    if es == [] then Init(c) else Apply(c, After(c, es[..|es| - 1]), es[|es| - 1])
  }

  // ---------------------------------------------------------------- the invariant of one device

  /** The k-th frame is a valid frame of this type and magic, with sequence number k. */
  predicate Numbered(crc: Crc, frames: seq<seq<Byte>>, kind: Byte, magic: Word32) {
    forall k | 0 <= k < |frames| ::
      && Accepted(crc, frames[k])
      && Fields(frames[k]).kind == kind && Fields(frames[k]).magic == magic
      && Fields(frames[k]).seqNum == k % 0x1_0000
  }

  /** The unicasts sent so far and those still to be counted. */
  predicate CountsUnicasts(n: Node, count: Word16) {
    if !n.at.unicast then n.unicasts == [] && n.at.count == count
    else match n.at.status
      case Running => 1 <= n.at.count && |n.unicasts| + n.at.count == count + 1
      case SendDone => |n.unicasts| == count
      case Failed => |n.unicasts| <= count
  }

  predicate Frames(c: Config, i: Side, n: Node) {
    && Numbered(c.crc, n.broadcasts, DATA_BROADCAST, c.Of(i).magic)
    && Numbered(c.crc, n.unicasts, DATA_UNICAST, c.Of(i).magic)
  }

  /** A device whose first broadcast is prepared but not yet sent. */
  predicate Unstarted(c: Config, i: Side, n: Node) {
    && n.at.status == Running && n.at.broadcast && !n.at.unicast && n.at.state == 0
    && n.at.dest == BROADCAST_MAC && n.at.seqBroadcast == 1 && n.at.seqUnicast == 0
    && Accepted(c.crc, n.at.buffer) && Fields(n.at.buffer) == Message(DATA_BROADCAST, 0, 0, c.Of(i).magic)
    && n.awaiting == multiset{} == n.dropped && n.broadcasts == [] == n.unicasts && n.heard == {}
  }

  predicate Control(c: Config, i: Side, n: Node) {
    var me, peer := c.Of(i), c.Of(i.Other()).mac;
    && n.at.magic == me.magic
    && !(n.at.unicast && n.at.broadcast)
    && CountsUnicasts(n, me.count)
    && (forall m | m in n.awaiting :: m == BROADCAST_MAC || m == peer)
    && n.awaiting[BROADCAST_MAC] + n.dropped[BROADCAST_MAC] <= 1
    && n.awaiting[peer] + n.dropped[peer] <= 1
    && (n.at.status == Running && n.started ==>
         && n.at.seqUnicast == |n.unicasts| % 0x1_0000
         && n.at.seqBroadcast == |n.broadcasts| % 0x1_0000
         && (n.at.broadcast ==> n.awaiting[BROADCAST_MAC] + n.dropped[BROADCAST_MAC] == 1)
         && n.awaiting[peer] + n.dropped[peer] == if n.at.unicast then 1 else 0)
    && (n.at.status == SendDone ==> n.at.unicast)
    && (!n.started ==> Unstarted(c, i, n))
  }

  predicate NodeInv(c: Config, i: Side, n: Node) { Frames(c, i, n) && Control(c, i, n) }

  /** If the step sends, it sends the next frame of its type. */
  predicate SendsNext(c: Config, i: Side, n: Node, step: (Local, Sent)) {
    step.1.Sent? ==>
      && Accepted(c.crc, step.1.data)
      && Fields(step.1.data).state == step.0.state
      && Fields(step.1.data).kind == KindFor(step.1.dest) && Fields(step.1.data).magic == c.Of(i).magic
      && Fields(step.1.data).seqNum ==
           (if step.1.dest == BROADCAST_MAC then |n.broadcasts| else |n.unicasts|) % 0x1_0000
  }

  lemma RecordFrames(c: Config, i: Side, n: Node, step: (Local, Sent))
    requires Frames(c, i, n) && SendsNext(c, i, n, step)
    ensures Frames(c, i, Record(n, step))
  {
  }

  /** A frame just prepared, as the driver sends it. */
  lemma PreparedFrame(crc: Crc, s: Local, payload: seq<Byte>)
    ensures var s' := Prepared(crc, s, payload);
      Accepted(crc, s'.buffer) && Fields(s'.buffer) == NextMessage(s)
  {
    FrameRoundTrip(crc, NextMessage(s), payload);
  }

  lemma InitialLocal(crc: Crc, magic: Word32, count: Word16, payload: seq<Byte>)
    ensures var s := Initial(crc, magic, count, payload);
      && Accepted(crc, s.buffer) && Fields(s.buffer) == Message(DATA_BROADCAST, 0, 0, magic)
      && s == Blank(magic, count).(seqBroadcast := 1, buffer := s.buffer)
  {
    hide Frame, Accepted, Fields;
    PreparedFrame(crc, Blank(magic, count), payload);
  }

  lemma UnstartedInv(c: Config, i: Side, n: Node)
    requires c.Valid() && !n.started && Unstarted(c, i, n)
    requires n.at.magic == c.Of(i).magic && n.at.count == c.Of(i).count
    ensures NodeInv(c, i, n)
  {
  }

  lemma InitialInv(c: Config, i: Side)
    requires c.Valid()
    ensures NodeInv(c, i, InitNode(c, i)) && InitNode(c, i).heard == {}
    ensures InitNode(c, i).broadcasts == [] && InitNode(c, i).at.state == 0 && !InitNode(c, i).at.unicast
  {
    hide Frame, Accepted, Fields;
    var me := c.Of(i);
    var at := Initial(c.crc, me.magic, me.count, me.payload);
    InitialLocal(c.crc, me.magic, me.count, me.payload);
    UnstartedInv(c, i, InitNode(c, i));
  }

  lemma StartSends(c: Config, i: Side, n: Node, ok: bool)
    requires Unstarted(c, i, n)
    ensures SendsNext(c, i, n.(started := true), SendBuffer(n.at, ok))
  {
  }

  lemma StartKeeps(c: Config, i: Side, n: Node, ok: bool)
    requires c.Valid() && NodeInv(c, i, n) && !n.started
    ensures NodeInv(c, i, Started(n, ok))
  {
    StartSends(c, i, n, ok);
    RecordFrames(c, i, n.(started := true), SendBuffer(n.at, ok));
  }

  lemma SentSends(c: Config, i: Side, n: Node, mac: Mac, ok: bool, payload: seq<Byte>)
    requires Control(c, i, n) && n.at.status == Running && n.started
    ensures SendsNext(c, i, n, OnSent(c.crc, n.at, mac, ok, payload))
  {
    var count := if mac == BROADCAST_MAC then n.at.count else (n.at.count - 1) % 0x1_0000;
    PreparedFrame(c.crc, n.at.(count := count, dest := mac), payload);
  }

  lemma BroadcastSentControl(c: Config, i: Side, n: Node, ok: bool, payload: seq<Byte>)
    requires c.Valid() && Control(c, i, n) && n.at.status == Running && BROADCAST_MAC in n.awaiting
    ensures Control(c, i, CalledBack(c.crc, n, BROADCAST_MAC, ok, payload))
  {
    hide Frame, Fields;
  }

  lemma UnicastSentControl(c: Config, i: Side, n: Node, mac: Mac, ok: bool, payload: seq<Byte>)
    requires c.Valid() && Control(c, i, n) && n.at.status == Running && mac in n.awaiting && mac != BROADCAST_MAC
    ensures Control(c, i, CalledBack(c.crc, n, mac, ok, payload))
  {
    hide Frame, Fields;
  }

  lemma CallbackKeeps(c: Config, i: Side, n: Node, mac: Mac, ok: bool, payload: seq<Byte>)
    requires c.Valid() && NodeInv(c, i, n) && n.at.status == Running && mac in n.awaiting
    ensures NodeInv(c, i, CalledBack(c.crc, n, mac, ok, payload))
  {
    SentSends(c, i, n, mac, ok, payload);
    RecordFrames(c, i, n.(awaiting := n.awaiting - multiset{mac}), OnSent(c.crc, n.at, mac, ok, payload));
    if mac == BROADCAST_MAC { BroadcastSentControl(c, i, n, ok, payload); }
    else { UnicastSentControl(c, i, n, mac, ok, payload); }
  }

  lemma DropKeeps(c: Config, i: Side, n: Node, mac: Mac)
    requires c.Valid() && NodeInv(c, i, n) && mac in n.awaiting
    ensures NodeInv(c, i, Dropped(n, mac))
  {
  }

  lemma MeetingSends(
    c: Config, i: Side, n: Node, state: Byte, magic: Word32, memory: bool, ok: bool, payload: seq<Byte>)
    requires Control(c, i, n) && n.at.status == Running && n.started && c.Valid()
    ensures SendsNext(c, i, n, OnBroadcast(c.crc, n.at, c.Of(i.Other()).mac, state, magic, memory, ok, payload))
  {
    var mac := c.Of(i.Other()).mac;
    var state' := if n.at.state == 0 then 1 else n.at.state;
    PreparedFrame(c.crc, n.at.(peers := n.at.peers + {mac}, state := state', dest := mac), payload);
  }

  lemma MeetingControl(
    c: Config, i: Side, n: Node, state: Byte, magic: Word32, memory: bool, ok: bool, payload: seq<Byte>)
    requires c.Valid() && Control(c, i, n) && n.at.status == Running && n.started
    ensures Control(c, i, Record(n, OnBroadcast(c.crc, n.at, c.Of(i.Other()).mac, state, magic, memory, ok, payload)))
  {
    hide Frame, Fields;
  }

  lemma HearBroadcastKeeps(c: Config, i: Side, n: Node, data: seq<Byte>, memory: bool, ok: bool, payload: seq<Byte>)
    requires c.Valid() && NodeInv(c, i, n) && n.at.status == Running && n.started
    requires Accepted(c.crc, data) && Fields(data).kind == DATA_BROADCAST
    ensures NodeInv(c, i, Heard(c.crc, n, c.Of(i.Other()).mac, data, memory, ok, payload))
  {
    var mac := c.Of(i.Other()).mac;
    var m := Fields(data);
    var step := OnBroadcast(c.crc, n.at, mac, m.state, m.magic, memory, ok, payload);
    assert Heard(c.crc, n, mac, data, memory, ok, payload) == Record(n, step);
    MeetingSends(c, i, n, m.state, m.magic, memory, ok, payload);
    MeetingControl(c, i, n, m.state, m.magic, memory, ok, payload);
    RecordFrames(c, i, n, step);
  }

  lemma UnicastHeard(crc: Crc, n: Node, from: Mac, data: seq<Byte>, memory: bool, ok: bool, payload: seq<Byte>)
    requires Accepted(crc, data) && Fields(data).kind == DATA_UNICAST
    ensures Heard(crc, n, from, data, memory, ok, payload) == n.(at := n.at.(broadcast := false))
  {
  }

  lemma NoiseHeard(c: Config, n: Node, from: Mac, data: seq<Byte>)
    requires Noise(c, data)
    ensures Heard(c.crc, n, from, data, true, true, []) == n
  {
  }

  lemma HearUnicastKeeps(c: Config, i: Side, n: Node, data: seq<Byte>, memory: bool, ok: bool, payload: seq<Byte>)
    requires c.Valid() && NodeInv(c, i, n) && n.at.status == Running && n.started
    requires Accepted(c.crc, data) && Fields(data).kind == DATA_UNICAST
    ensures NodeInv(c, i, Heard(c.crc, n, c.Of(i.Other()).mac, data, memory, ok, payload))
  {
    UnicastHeard(c.crc, n, c.Of(i.Other()).mac, data, memory, ok, payload);
  }

  lemma ListedMore(c: Config, i: Side, n: Node, heard: set<nat>)
    requires NodeInv(c, i, n) && n.started
    ensures NodeInv(c, i, n.(heard := heard))
  {
  }

  // ---------------------------------------------------------------- the invariant of both

  /** What the devices know of each other.  A device in state 1 has heard its peer and
      listed it; only such a device sends state 1, and only on hearing that does the
      other, with no smaller magic number, turn to unicasts. */
  predicate Acquainted(c: Config, i: Side, n: Node, peer: Node)
    requires Frames(c, i, n)
  {
    && n.at.state <= 1
    && (n.at.state == 1 ==> n.heard != {} && c.Of(i.Other()).mac in n.at.peers)
    && (forall k | k in n.heard :: k < |peer.broadcasts|)
    && (forall k | 0 <= k < |n.broadcasts| ::
          Fields(n.broadcasts[k]).state <= 1 && (Fields(n.broadcasts[k]).state == 1 ==> n.at.state == 1))
    && (n.at.unicast ==>
          && c.Of(i.Other()).mac in n.at.peers && peer.at.state == 1
          && c.Of(i).magic >= c.Of(i.Other()).magic)
  }

  predicate Inv(c: Config, w: World) {
    && NodeInv(c, Left, w.left) && NodeInv(c, Right, w.right)
    && Acquainted(c, Left, w.left, w.right) && Acquainted(c, Right, w.right, w.left)
  }

  /** A step that leaves a device's state bit alone, except perhaps from 0 to 1. */
  lemma RecordAcquainted(c: Config, i: Side, n: Node, peer: Node, step: (Local, Sent))
    requires Frames(c, i, n) && Acquainted(c, i, n, peer) && SendsNext(c, i, n, step)
    requires n.at.state <= step.0.state <= 1
    requires step.0.state == 1 ==> n.heard != {} && c.Of(i.Other()).mac in step.0.peers
    requires step.0.unicast ==>
      c.Of(i.Other()).mac in step.0.peers && peer.at.state == 1 && c.Of(i).magic >= c.Of(i.Other()).magic
    ensures Frames(c, i, Record(n, step)) && Acquainted(c, i, Record(n, step), peer)
  {
    RecordFrames(c, i, n, step);
  }

  lemma StartAcquainted(c: Config, i: Side, n: Node, peer: Node, ok: bool)
    requires c.Valid() && NodeInv(c, i, n) && Acquainted(c, i, n, peer) && !n.started
    ensures Frames(c, i, Started(n, ok)) && Acquainted(c, i, Started(n, ok), peer)
  {
    StartSends(c, i, n, ok);
    RecordAcquainted(c, i, n.(started := true), peer, SendBuffer(n.at, ok));
  }

  lemma CallbackAcquainted(c: Config, i: Side, n: Node, peer: Node, mac: Mac, ok: bool, payload: seq<Byte>)
    requires c.Valid() && NodeInv(c, i, n) && Acquainted(c, i, n, peer)
    requires n.at.status == Running && mac in n.awaiting
    ensures var n' := CalledBack(c.crc, n, mac, ok, payload); Frames(c, i, n') && Acquainted(c, i, n', peer)
  {
    SentSends(c, i, n, mac, ok, payload);
    RecordAcquainted(c, i, n.(awaiting := n.awaiting - multiset{mac}), peer, OnSent(c.crc, n.at, mac, ok, payload));
  }

  lemma HearBroadcastAcquainted(
    c: Config, i: Side, n: Node, peer: Node, k: nat, memory: bool, ok: bool, payload: seq<Byte>)
    requires c.Valid() && NodeInv(c, i, n) && Acquainted(c, i, n, peer) && n.at.status == Running && n.started
    requires Frames(c, i.Other(), peer) && Acquainted(c, i.Other(), peer, n) && k < |peer.broadcasts|
    ensures
      var hearing := n.(heard := n.heard + {k});
      var n' := Heard(c.crc, hearing, c.Of(i.Other()).mac, peer.broadcasts[k], memory, ok, payload);
      Frames(c, i, n') && Acquainted(c, i, n', peer)
  {
    var mac := c.Of(i.Other()).mac;
    var m := Fields(peer.broadcasts[k]);
    var n1 := n.(heard := n.heard + {k});
    assert k in n1.heard;
    var step := OnBroadcast(c.crc, n.at, mac, m.state, m.magic, memory, ok, payload);
    assert Heard(c.crc, n1, mac, peer.broadcasts[k], memory, ok, payload) == Record(n1, step);
    MeetingSends(c, i, n, m.state, m.magic, memory, ok, payload);
    RecordAcquainted(c, i, n1, peer, step);
  }

  lemma NodeInvFrames(c: Config, i: Side, n: Node)
    requires NodeInv(c, i, n)
    ensures Frames(c, i, n)
  {
  }

  lemma DropAcquainted(c: Config, i: Side, n: Node, peer: Node, mac: Mac)
    requires Frames(c, i, n) && Acquainted(c, i, n, peer) && mac in n.awaiting
    ensures Frames(c, i, Dropped(n, mac)) && Acquainted(c, i, Dropped(n, mac), peer)
  {
  }

  lemma HearUnicastAcquainted(
    c: Config, i: Side, n: Node, peer: Node, k: nat, memory: bool, ok: bool, payload: seq<Byte>)
    requires Frames(c, i, n) && Acquainted(c, i, n, peer) && Frames(c, i.Other(), peer) && k < |peer.unicasts|
    ensures var n' := Heard(c.crc, n, c.Of(i.Other()).mac, peer.unicasts[k], memory, ok, payload);
      Frames(c, i, n') && Acquainted(c, i, n', peer)
  {
    UnicastHeard(c.crc, n, c.Of(i.Other()).mac, peer.unicasts[k], memory, ok, payload);
  }

  lemma AdvanceAcquainted(c: Config, w: World, e: Event)
    requires c.Valid() && Inv(c, w) && Enabled(c, w, e)
    ensures var n' := Advance(c, e, w.Of(e.i), w.Of(e.i.Other()));
      Frames(c, e.i, n') && Acquainted(c, e.i, n', w.Of(e.i.Other()))
  {
    hide Started, CalledBack, Heard, Accepted, Fields, NodeInv, Acquainted, Dropped, Frames, Control;
    var n, peer := w.Of(e.i), w.Of(e.i.Other());
    NodeInvFrames(c, e.i, n);
    NodeInvFrames(c, e.i.Other(), peer);
    match e
    case Start(i, ok) => StartAcquainted(c, i, n, peer, ok);
    case Callback(i, mac, ok, payload) => CallbackAcquainted(c, i, n, peer, mac, ok, payload);
    case DropCallback(i, mac) => DropAcquainted(c, i, n, peer, mac);
    case HearBroadcast(i, k, memory, ok, payload) =>
      HearBroadcastAcquainted(c, i, n, peer, k, memory, ok, payload);
    case HearUnicast(i, k, memory, ok, payload) =>
      HearUnicastAcquainted(c, i, n, peer, k, memory, ok, payload);
    case HearNoise(i, mac, data) => NoiseHeard(c, n, mac, data);
  }

  /** Nothing a device does takes back what it knows or resumes its broadcasts. */
  predicate Grows(s: Local, s': Local) {
    && (s.state == 1 ==> s'.state == 1) && (s.unicast ==> s'.unicast) && (!s.broadcast ==> !s'.broadcast)
    && s.peers <= s'.peers
  }

  lemma SentGrows(crc: Crc, s: Local, mac: Mac, ok: bool, payload: seq<Byte>)
    ensures Grows(s, OnSent(crc, s, mac, ok, payload).0)
  {
  }

  lemma ReceivedGrows(crc: Crc, s: Local, mac: Mac, data: seq<Byte>, memory: bool, ok: bool, payload: seq<Byte>)
    ensures Grows(s, OnReceived(crc, s, mac, data, memory, ok, payload).0)
  {
  }

  lemma RecordGrows(n: Node, step: (Local, Sent))
    ensures n.broadcasts <= Record(n, step).broadcasts && n.unicasts <= Record(n, step).unicasts
    ensures Record(n, step).at == step.0
  {
  }

  lemma HeardGrows(crc: Crc, n: Node, from: Mac, data: seq<Byte>, memory: bool, ok: bool, payload: seq<Byte>)
    ensures var n' := Heard(crc, n, from, data, memory, ok, payload);
      Grows(n.at, n'.at) && n.broadcasts <= n'.broadcasts && n.unicasts <= n'.unicasts
  {
    ReceivedGrows(crc, n.at, from, data, memory, ok, payload);
    RecordGrows(n, OnReceived(crc, n.at, from, data, memory, ok, payload));
  }

  lemma AdvanceGrows(c: Config, e: Event, n: Node, peer: Node)
    requires e.HearBroadcast? ==> e.k < |peer.broadcasts|
    requires e.HearUnicast? ==> e.k < |peer.unicasts|
    ensures var n' := Advance(c, e, n, peer);
      Grows(n.at, n'.at) && n.broadcasts <= n'.broadcasts && n.unicasts <= n'.unicasts
  {
    var from := c.Of(e.i.Other()).mac;
    match e
    case Start(_, ok) => RecordGrows(n.(started := true), SendBuffer(n.at, ok));
    case Callback(_, mac, ok, payload) =>
      SentGrows(c.crc, n.at, mac, ok, payload);
      RecordGrows(n.(awaiting := n.awaiting - multiset{mac}), OnSent(c.crc, n.at, mac, ok, payload));
    case DropCallback(_, mac) =>
    case HearBroadcast(_, k, memory, ok, payload) =>
      HeardGrows(c.crc, n.(heard := n.heard + {k}), from, peer.broadcasts[k], memory, ok, payload);
    case HearUnicast(_, k, memory, ok, payload) => HeardGrows(c.crc, n, from, peer.unicasts[k], memory, ok, payload);
    case HearNoise(_, mac, data) => HeardGrows(c.crc, n, mac, data, true, true, []);
  }

  lemma AdvanceKeeps(c: Config, w: World, e: Event)
    requires c.Valid() && Inv(c, w) && Enabled(c, w, e)
    ensures NodeInv(c, e.i, Advance(c, e, w.Of(e.i), w.Of(e.i.Other())))
  {
    hide Started, CalledBack, Heard, Accepted, Fields;
    var n, peer := w.Of(e.i), w.Of(e.i.Other());
    assert NodeInv(c, e.i, n) && NodeInv(c, e.i.Other(), peer);
    match e
    case Start(i, ok) => StartKeeps(c, i, n, ok);
    case Callback(i, mac, ok, payload) => CallbackKeeps(c, i, n, mac, ok, payload);
    case DropCallback(i, mac) => DropKeeps(c, i, n, mac);
    case HearBroadcast(i, k, memory, ok, payload) =>
      ListedMore(c, i, n, n.heard + {k});
      HearBroadcastKeeps(c, i, n.(heard := n.heard + {k}), peer.broadcasts[k], memory, ok, payload);
    case HearUnicast(i, k, memory, ok, payload) =>
      HearUnicastKeeps(c, i, n, peer.unicasts[k], memory, ok, payload);
    case HearNoise(i, mac, data) => NoiseHeard(c, n, mac, data);
  }

  lemma ApplyKeeps(c: Config, w: World, e: Event)
    requires c.Valid() && Inv(c, w) && Enabled(c, w, e)
    ensures Inv(c, Apply(c, w, e))
  {
    hide Advance, Accepted, Fields, Control;
    AdvanceKeeps(c, w, e);
    AdvanceAcquainted(c, w, e);
    AdvanceGrows(c, e, w.Of(e.i), w.Of(e.i.Other()));
  }

  lemma {:induction false} RunKeepsInv(c: Config, es: seq<Event>)
    requires c.Valid() && Run(c, es)
    ensures Inv(c, After(c, es))
  {
    if es != [] {
      RunKeepsInv(c, es[..|es| - 1]);
      ApplyKeeps(c, After(c, es[..|es| - 1]), es[|es| - 1]);
    } else {
      InitialInv(c, Left);
      InitialInv(c, Right);
    }
  }
}
