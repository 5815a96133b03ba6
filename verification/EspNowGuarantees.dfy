/** What every run of two ESPNOW devices guarantees. */
module EspNowGuarantees {
  import opened Words
  import opened EspNowFrame
  import opened EspNowNode
  import opened EspNowProtocol

  predicate BothUnicast(w: World) { w.left.at.unicast && w.right.at.unicast }

  // ---------------------------------------------------------------- who sends

  /** Only a device with the larger magic number turns to unicasts, and the other never
      sends one. */
  lemma OnlyLargerMagicSendsUnicasts(c: Config, es: seq<Event>, i: Side)
    requires c.Valid() && Run(c, es) && c.left.magic != c.right.magic
    ensures var w := After(c, es);
      w.Of(i).at.unicast || w.Of(i).unicasts != [] ==>
        && c.Of(i).magic > c.Of(i.Other()).magic
        && !w.Of(i.Other()).at.unicast && w.Of(i.Other()).unicasts == []
  {
    RunKeepsInv(c, es);
  }

  /** A device that turned to unicasts has listed its peer, and the peer has before that
      received one of its broadcasts, set its state and listed it. */
  lemma UnicastAfterMutualDiscovery(c: Config, es: seq<Event>, i: Side)
    requires c.Valid() && Run(c, es) && After(c, es).Of(i).at.unicast
    ensures var me, peer := After(c, es).Of(i), After(c, es).Of(i.Other());
      && c.Of(i.Other()).mac in me.at.peers
      && peer.at.state == 1 && c.Of(i).mac in peer.at.peers
      && exists k :: k in peer.heard && k < |me.broadcasts|
  {
    RunKeepsInv(c, es);
    var me, peer := After(c, es).Of(i), After(c, es).Of(i.Other());
    assert Acquainted(c, i.Other(), peer, me);
    var k :| k in peer.heard;
  }

  /** Every frame a device ever sent is one its peer accepts, of the type of its
      destination and numbered consecutively from 0 modulo 65536; the unicast flag
      excludes the broadcast flag; at most one frame of each type awaits its callback. */
  lemma DeviceDiscipline(c: Config, es: seq<Event>, i: Side)
    requires c.Valid() && Run(c, es)
    ensures var n := After(c, es).Of(i);
      && !(n.at.unicast && n.at.broadcast)
      && Numbered(c.crc, n.broadcasts, DATA_BROADCAST, c.Of(i).magic)
      && Numbered(c.crc, n.unicasts, DATA_UNICAST, c.Of(i).magic)
      && (forall mac | mac in n.awaiting :: n.awaiting[mac] == 1)
  {
    RunKeepsInv(c, es);
  }

  /** "Send done" is reached after exactly the configured number of unicasts, and until
      then no device sends more. */
  lemma SendDoneAfterExactCount(c: Config, es: seq<Event>, i: Side)
    requires c.Valid() && Run(c, es)
    ensures var n := After(c, es).Of(i);
      && |n.unicasts| <= c.Of(i).count
      && (n.at.status == SendDone ==> |n.unicasts| == c.Of(i).count)
  {
    RunKeepsInv(c, es);
  }

  /** As long as no callback was dropped, a running device that broadcasts, or has
      turned to unicasts, has exactly one frame of that type on its way to a callback:
      the loop of callbacks that keeps it sending never stops by itself. */
  lemma SendingGoesOn(c: Config, es: seq<Event>, i: Side)
    requires c.Valid() && Run(c, es)
    requires After(c, es).Of(i).started && After(c, es).Of(i).at.status == Running
    requires After(c, es).Of(i).dropped == multiset{}
    ensures var n := After(c, es).Of(i);
      && (n.at.broadcast ==> n.awaiting[BROADCAST_MAC] == 1)
      && (n.at.unicast <==> c.Of(i.Other()).mac in n.awaiting)
  {
    RunKeepsInv(c, es);
  }

  /** Broadcasting, once stopped, is never resumed, and what was sent stays sent. */
  lemma NoStepTakesBack(c: Config, es: seq<Event>, e: Event, i: Side)
    requires c.Valid() && Run(c, es) && Enabled(c, After(c, es), e)
    ensures var n, n' := After(c, es).Of(i), Apply(c, After(c, es), e).Of(i);
      && (!n.at.broadcast ==> !n'.at.broadcast) && (n.at.unicast ==> n'.at.unicast)
      && n.broadcasts <= n'.broadcasts && n.unicasts <= n'.unicasts
  {
    var w := After(c, es);
    AdvanceGrows(c, e, w.Of(e.i), w.Of(e.i.Other()));
  }

  /** A device that receives a unicast stops its broadcasts. */
  lemma UnicastStopsReceiver(c: Config, es: seq<Event>, e: Event)
    requires c.Valid() && Run(c, es) && Enabled(c, After(c, es), e) && e.HearUnicast?
    ensures !Apply(c, After(c, es), e).Of(e.i).at.broadcast
  {
    RunKeepsInv(c, es);
    var w := After(c, es);
    assert NodeInv(c, e.i.Other(), w.Of(e.i.Other()));
  }

  // ---------------------------------------------------------------- equal magic numbers

  /** A device on its way to being heard: state `state`, and `sent` broadcasts, of which
      the last carries state `last`. */
  predicate Calling(c: Config, i: Side, n: Node, state: Byte, sent: nat, last: Byte) {
    && n.started && n.at.status == Running && n.at.broadcast && !n.at.unicast
    && n.at.state == state && n.at.magic == c.Of(i).magic
    && BROADCAST_MAC in n.awaiting && |n.broadcasts| == sent > 0
    && Accepted(c.crc, n.broadcasts[sent - 1])
    && Fields(n.broadcasts[sent - 1]).kind == DATA_BROADCAST
    && Fields(n.broadcasts[sent - 1]).state == last
    && Fields(n.broadcasts[sent - 1]).magic == c.Of(i).magic
  }

  lemma Calls(c: Config, i: Side, n: Node)
    requires NodeInv(c, i, n) && !n.started
    ensures Calling(c, i, Started(n, true), 0, 1, 0)
  {
  }

  lemma Hears(c: Config, i: Side, n: Node, peer: Node, k: nat)
    requires Calling(c, i, n, 0, 1, 0) && Calling(c, i.Other(), peer, peer.at.state, 1, 0)
    ensures Calling(c, i, Advance(c, HearBroadcast(i, 0, true, true, []), n, peer), 1, 1, 0)
  {
  }

  lemma CallsAgain(c: Config, i: Side, n: Node, peer: Node)
    requires Calling(c, i, n, 1, 1, 0)
    ensures Calling(c, i, Advance(c, Callback(i, BROADCAST_MAC, true, []), n, peer), 1, 2, 1)
  {
    hide Frame, Accepted, Fields;
    PreparedFrame(c.crc, n.at.(dest := BROADCAST_MAC), []);
  }

  lemma Answers(c: Config, i: Side, n: Node, peer: Node)
    requires c.Valid() && Calling(c, i, n, 1, 2, 1) && |peer.broadcasts| == 2
    requires Accepted(c.crc, peer.broadcasts[1]) && Fields(peer.broadcasts[1]).kind == DATA_BROADCAST
    requires Fields(peer.broadcasts[1]).state == 1 && Fields(peer.broadcasts[1]).magic <= n.at.magic
    ensures var n' := Advance(c, HearBroadcast(i, 1, true, true, []), n, peer);
      n'.at.unicast && n'.broadcasts == n.broadcasts
  {
    hide Frame, Accepted, Fields;
  }

  lemma Then(c: Config, es: seq<Event>, e: Event) returns (es': seq<Event>)
    requires Run(c, es) && Enabled(c, After(c, es), e)
    ensures Run(c, es') && After(c, es') == Apply(c, After(c, es), e)
  {
    es' := es + [e];
    assert es'[..|es|] == es;
  }

  /** Both devices broadcast, hear the other, and broadcast again in state 1. */
  lemma BothCall(c: Config) returns (es: seq<Event>)
    requires c.Valid()
    ensures Run(c, es) && Calling(c, Left, After(c, es).left, 0, 1, 0) && Calling(c, Right, After(c, es).right, 0, 1, 0)
  {
    hide Frame, Accepted, Fields, Prepared;
    InitialInv(c, Left);
    InitialInv(c, Right);
    Calls(c, Left, InitNode(c, Left));
    Calls(c, Right, InitNode(c, Right));
    es := Then(c, [], Start(Left, true));
    es := Then(c, es, Start(Right, true));
  }

  lemma BothHear(c: Config) returns (es: seq<Event>)
    requires c.Valid()
    ensures Run(c, es) && Calling(c, Left, After(c, es).left, 1, 1, 0) && Calling(c, Right, After(c, es).right, 1, 1, 0)
  {
    es := BothCall(c);
    var w := After(c, es);
    Hears(c, Left, w.left, w.right, 0);
    es := Then(c, es, HearBroadcast(Left, 0, true, true, []));
    Hears(c, Right, w.right, After(c, es).left, 0);
    es := Then(c, es, HearBroadcast(Right, 0, true, true, []));
  }

  lemma BothCallAgain(c: Config) returns (es: seq<Event>)
    requires c.Valid()
    ensures Run(c, es) && Calling(c, Left, After(c, es).left, 1, 2, 1) && Calling(c, Right, After(c, es).right, 1, 2, 1)
  {
    es := BothHear(c);
    var w := After(c, es);
    CallsAgain(c, Left, w.left, w.right);
    es := Then(c, es, Callback(Left, BROADCAST_MAC, true, []));
    CallsAgain(c, Right, w.right, After(c, es).left);
    es := Then(c, es, Callback(Right, BROADCAST_MAC, true, []));
  }

  lemma EqualMagicsBothTurn(c: Config) returns (es: seq<Event>)
    requires c.Valid() && c.left.magic == c.right.magic
    ensures Run(c, es) && BothUnicast(After(c, es))
  {
    es := BothCallAgain(c);
    var w := After(c, es);
    Answers(c, Left, w.left, w.right);
    es := Then(c, es, HearBroadcast(Left, 1, true, true, []));
    Answers(c, Right, w.right, After(c, es).left);
    es := Then(c, es, HearBroadcast(Right, 1, true, true, []));
  }

  lemma DifferentMagicsNeverBoth(c: Config, es: seq<Event>)
    requires c.Valid() && c.left.magic != c.right.magic && Run(c, es)
    ensures !BothUnicast(After(c, es))
  {
    OnlyLargerMagicSendsUnicasts(c, es, Left);
  }

  /** The devices are never both unicast senders, in any run, if and only if their magic
      numbers differ. */
  lemma NeverBothUnicastIffMagicsDiffer(c: Config)
    requires c.Valid()
    ensures (forall es | Run(c, es) :: !BothUnicast(After(c, es))) <==> c.left.magic != c.right.magic
  {
    hide Apply, Init, Enabled, BothUnicast;
    if c.left.magic == c.right.magic {
      var es := EqualMagicsBothTurn(c);
      assert Run(c, es) && BothUnicast(After(c, es));
    } else {
      forall es | Run(c, es) ensures !BothUnicast(After(c, es)) { DifferentMagicsNeverBoth(c, es); }
    }
  }
}
