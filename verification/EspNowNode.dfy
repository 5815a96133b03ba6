/** One ESPNOW device: the event loop of its task, which starts with broadcasts and
    switches to unicasts.  `Local` is the state of the task; the step functions say
    what each event does to it; the class updates the same state in place. */
module EspNowNode {
  import opened Words
  import opened EspNowFrame

  type Mac = m: seq<Byte> | |m| == 6 witness [0, 0, 0, 0, 0, 0]

  const BROADCAST_MAC: Mac := [0xFF, 0xFF, 0xFF, 0xFF, 0xFF, 0xFF]

  /** Running, ended after the configured number of unicasts, or ended by an error. */
  datatype Status = Running | SendDone | Failed

  /** `send_param`, the two sequence counters and the peer list. */
  datatype Local = Local(
    unicast: bool, broadcast: bool, state: Byte, magic: Word32, count: Word16,
    dest: Mac, seqBroadcast: Word16, seqUnicast: Word16, peers: set<Mac>,
    status: Status, buffer: seq<Byte>)

  /** A frame handed to the driver with success. */
  datatype Sent = Nothing | Sent(dest: Mac, data: seq<Byte>)

  function KindFor(dest: Mac): Byte { if dest == BROADCAST_MAC then DATA_BROADCAST else DATA_UNICAST }

  /** The fields of the next frame to the current destination. */
  function NextMessage(s: Local): Message {
    Message(KindFor(s.dest), s.state,
            if s.dest == BROADCAST_MAC then s.seqBroadcast else s.seqUnicast, s.magic)
  }

  /** `example_espnow_data_prepare`: fill the buffer, advance the counter of its type. */
  function Prepared(crc: Crc, s: Local, payload: seq<Byte>): Local {
    var s' := s.(buffer := Frame(crc, NextMessage(s), payload));
    if s.dest == BROADCAST_MAC then s'.(seqBroadcast := (s.seqBroadcast + 1) % 0x1_0000)
    else s'.(seqUnicast := (s.seqUnicast + 1) % 0x1_0000)
  }

  /** `example_espnow_init`: the first broadcast is already prepared. */
  function Blank(magic: Word32, count: Word16): Local {
    Local(false, true, 0, magic, count, BROADCAST_MAC, 0, 0, {BROADCAST_MAC}, Running, [])
  }

  function Initial(crc: Crc, magic: Word32, count: Word16, payload: seq<Byte>): Local {
    Prepared(crc, Blank(magic, count), payload)
  }

  /** `esp_now_send` of the buffer to the destination; a failure ends the task. */
  function SendBuffer(s: Local, ok: bool): (Local, Sent) {
    if ok then (s, Sent(s.dest, s.buffer)) else (s.(status := Failed), Nothing)
  }

  /** The send callback for a frame to `mac`. */
  function OnSent(crc: Crc, s: Local, mac: Mac, ok: bool, payload: seq<Byte>): (Local, Sent) {
    if mac == BROADCAST_MAC && !s.broadcast then (s, Nothing)
    else
      var s1 := if mac == BROADCAST_MAC then s else s.(count := (s.count - 1) % 0x1_0000);
      if mac != BROADCAST_MAC && s1.count == 0 then (s1.(status := SendDone), Nothing)
      else SendBuffer(Prepared(crc, s1.(dest := mac), payload), ok)
  }

  /** A broadcast from `mac` that carries `peerState` and `peerMagic`; `memory` says
      whether the peer record can be allocated. */
  function OnBroadcast(crc: Crc, s: Local, mac: Mac, peerState: Byte, peerMagic: Word32,
                       memory: bool, ok: bool, payload: seq<Byte>): (Local, Sent)
  {
    if mac !in s.peers && !memory then (s.(status := Failed), Nothing)
    else
      var s1 := s.(peers := s.peers + {mac}, state := if s.state == 0 then 1 else s.state);
      if peerState == 1 && !s.unicast && s.magic >= peerMagic then
        var (s2, sent) := SendBuffer(Prepared(crc, s1.(dest := mac), payload), ok);
        (if ok then s2.(broadcast := false, unicast := true) else s2, sent)
      else (s1, Nothing)
  }

  /** The receive callback for the bytes `data` from `mac`. */
  function OnReceived(crc: Crc, s: Local, mac: Mac, data: seq<Byte>, memory: bool, ok: bool, payload: seq<Byte>)
    : (Local, Sent)
  {
    if !Accepted(crc, data) then (s, Nothing)
    else
      var m := Fields(data);
      if m.kind == DATA_BROADCAST then OnBroadcast(crc, s, mac, m.state, m.magic, memory, ok, payload)
      else if m.kind == DATA_UNICAST then (s.(broadcast := false), Nothing)
      else (s, Nothing)
  }

  // ---------------------------------------------------------------- the device

  class Device {
    const crc: Crc
    const buffer: array<Byte>
    var unicast: bool
    var broadcast: bool
    var state: Byte
    const magic: Word32
    var count: Word16
    var dest: Mac
    var seqBroadcast: Word16
    var seqUnicast: Word16
    var peers: set<Mac>
    var status: Status
    // the locals of the task that outlive one event
    var recvState: Byte
    var recvSeq: Word16
    var recvMagic: int

    ghost function View(): Local
      reads this, buffer
    {
      Local(unicast, broadcast, state, magic, count, dest, seqBroadcast, seqUnicast, peers, status, buffer[..])
    }

    predicate Fits(payload: seq<Byte>) { buffer.Length == HEADER_LEN + |payload| }

    constructor (crc: Crc, magic: Word32, count: Word16, payload: seq<Byte>)
      ensures this.crc == crc && Fits(payload) && fresh(buffer)
      ensures View() == Initial(crc, magic, count, payload)
    {
      this.crc, this.magic, this.count := crc, magic, count;
      unicast, broadcast, state, status := false, true, 0, Running;
      seqBroadcast, seqUnicast, dest, peers := 0, 0, BROADCAST_MAC, {BROADCAST_MAC};
      recvState, recvSeq, recvMagic := 0, 0, 0;
      buffer := new Byte[HEADER_LEN + |payload|](_ => 0);
      new;
      PrepareData(payload);
    }

    method PrepareData(payload: seq<Byte>)
      requires Fits(payload)
      modifies this, buffer
      ensures View() == Prepared(crc, old(View()), payload)
      ensures (recvState, recvSeq, recvMagic) == old((recvState, recvSeq, recvMagic))
    {
      var m := Message(KindFor(dest), state, if dest == BROADCAST_MAC then seqBroadcast else seqUnicast, magic);
      if dest == BROADCAST_MAC {
        seqBroadcast := (seqBroadcast + 1) % 0x1_0000;
      } else {
        seqUnicast := (seqUnicast + 1) % 0x1_0000;
      }
      Prepare(crc, buffer, m, payload);
    }

    /** Hand the buffer to the driver, which answers `ok`. */
    method Send(ok: bool) returns (sent: Sent)
      modifies this
      ensures (View(), sent) == SendBuffer(old(View()), ok)
      ensures (recvState, recvSeq, recvMagic) == old((recvState, recvSeq, recvMagic))
    {
      if ok {
        sent := Sent(dest, buffer[..]);
      } else {
        status := Failed;
        sent := Nothing;
      }
    }

    method HandleSent(mac: Mac, ok: bool, payload: seq<Byte>) returns (sent: Sent)
      requires Fits(payload)
      modifies this, buffer
      ensures (View(), sent) == OnSent(crc, old(View()), mac, ok, payload)
    {
      var isBroadcast := mac == BROADCAST_MAC;
      if isBroadcast && !broadcast {
        return Nothing;
      }
      if !isBroadcast {
        count := (count - 1) % 0x1_0000;
        if count == 0 {
          status := SendDone;
          return Nothing;
        }
      }
      dest := mac;
      PrepareData(payload);
      sent := Send(ok);
    }

    method HandleBroadcast(mac: Mac, memory: bool, ok: bool, payload: seq<Byte>) returns (sent: Sent)
      requires Fits(payload)
      modifies this, buffer
      ensures (View(), sent) ==
        OnBroadcast(crc, old(View()), mac, old(recvState), AsUint32(old(recvMagic)), memory, ok, payload)
    {
      hide Frame, AsUint32;
      sent := Nothing;
      if mac !in peers {
        if !memory {
          status := Failed;
          return;
        }
        peers := peers + {mac};
      }
      assert peers == old(peers) + {mac};
      if state == 0 {
        state := 1;
      }
      if recvState == 1 {
        if !unicast && magic >= AsUint32(recvMagic) {
          dest := mac;
          PrepareData(payload);
          sent := Send(ok);
          if ok {
            broadcast, unicast := false, true;
          }
        }
      }
    }

    method HandleReceived(mac: Mac, data: array<Byte>, memory: bool, ok: bool, payload: seq<Byte>) returns (sent: Sent)
      requires Fits(payload) && data != buffer
      modifies this, buffer, data
      ensures (View(), sent) == OnReceived(crc, old(View()), mac, old(data[..]), memory, ok, payload)
    {
      sent := Nothing;
      var ret;
      ret, recvState, recvSeq, recvMagic := Parse(crc, data, recvState, recvSeq, recvMagic);
      if ret == DATA_BROADCAST {
        sent := HandleBroadcast(mac, memory, ok, payload);
      } else if ret == DATA_UNICAST {
        broadcast := false;
      }
    }
  }
}
