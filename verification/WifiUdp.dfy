/** Sending over UDP: a packet of any length leaves as datagrams of at most 1460 bytes. */
module WifiUdp {
  import opened Words

  const DATAGRAM := 1460

  type Datagram = seq<Byte>

  // ---------------------------------------------------------------- the split into datagrams

  /** Full datagrams and then the rest; nothing written is one empty datagram. */
  function Chunks(bytes: seq<Byte>): (cs: seq<Datagram>)
    ensures |cs| > 0
  {
    if |bytes| <= DATAGRAM then [bytes] else [bytes[..DATAGRAM]] + Chunks(bytes[DATAGRAM..])
  }

  function Concat(cs: seq<Datagram>): seq<Byte> {
    if cs == [] then [] else cs[0] + Concat(cs[1..])
  }

  /** All but the last are full, and the last is empty only when it is the only one. */
  predicate WellSplit(cs: seq<Datagram>) {
    && |cs| > 0
    && (forall i | 0 <= i < |cs| - 1 :: |cs[i]| == DATAGRAM)
    && |cs[|cs| - 1]| <= DATAGRAM && (|cs| > 1 ==> |cs[|cs| - 1]| > 0)
  }

  lemma {:induction false} ChunksAreWellSplit(bytes: seq<Byte>)
    ensures WellSplit(Chunks(bytes)) && Concat(Chunks(bytes)) == bytes
  {
    if |bytes| > DATAGRAM {
      ChunksAreWellSplit(bytes[DATAGRAM..]);
      var rest := Chunks(bytes[DATAGRAM..]);
      assert Chunks(bytes)[1..] == rest;
      assert bytes == bytes[..DATAGRAM] + bytes[DATAGRAM..];
      assert |rest| == 1 ==> rest[0] == bytes[DATAGRAM..];
    } else {
      assert Concat([bytes]) == bytes + Concat([]);
    }
  }

  /** How many datagrams there are: the length divided by 1460, rounded up, and at least one. */
  lemma {:induction false} ChunksCount(bytes: seq<Byte>)
    ensures |Chunks(bytes)| == if bytes == [] then 1 else (|bytes| + 1459) / 1460
  {
    if |bytes| > DATAGRAM {
      ChunksCount(bytes[DATAGRAM..]);
      assert |bytes[DATAGRAM..]| == |bytes| - 1460;
    }
  }

  lemma ConcatNonEmpty(cs: seq<Datagram>)
    requires |cs| > 0 && |cs[|cs| - 1]| > 0
    ensures |Concat(cs)| > 0
  {
    if |cs| > 1 {
      ConcatNonEmpty(cs[1..]);
    }
  }

  /** It is the only such split. */
  lemma {:induction false} SplitIsUnique(cs: seq<Datagram>)
    requires WellSplit(cs)
    ensures cs == Chunks(Concat(cs))
  {
    var bytes := Concat(cs);
    if |cs| == 1 {
      assert bytes == cs[0] + Concat(cs[1..]) == cs[0];
    } else {
      var rest := cs[1..];
      SplitIsUnique(rest);
      ConcatNonEmpty(rest);
      assert bytes[..DATAGRAM] == cs[0] && bytes[DATAGRAM..] == Concat(rest);
      assert cs == [cs[0]] + rest;
    }
  }

  /** One more byte: it goes to the last datagram, or starts a new one when that is full. */
  lemma {:induction false} ChunksAppend(bytes: seq<Byte>, x: Byte)
    ensures var cs := Chunks(bytes);
      var last := cs[|cs| - 1];
      Chunks(bytes + [x]) ==
        if |last| == DATAGRAM then cs + [[x]] else cs[..|cs| - 1] + [last + [x]]
  {
    if |bytes| > DATAGRAM {
      var cs, rest := Chunks(bytes), bytes[DATAGRAM..];
      ChunksAppend(rest, x);
      assert (bytes + [x])[..DATAGRAM] == bytes[..DATAGRAM];
      assert (bytes + [x])[DATAGRAM..] == rest + [x];
      assert cs[..|cs| - 1] == [bytes[..DATAGRAM]] + Chunks(rest)[..|Chunks(rest)| - 1];
    } else if |bytes| == DATAGRAM {
      assert (bytes + [x])[..DATAGRAM] == bytes && (bytes + [x])[DATAGRAM..] == [x];
    }
  }

  // ---------------------------------------------------------------- the sender's state

  /** The bytes waiting in the buffer and the datagrams handed to the socket, in order. */
  datatype Tx = Tx(pending: seq<Byte>, sent: seq<Datagram>)

  function Sent(t: Tx): Tx { t.(sent := t.sent + [t.pending]) }

  function Put(t: Tx, b: Byte): Tx {
    if |t.pending| == DATAGRAM then Sent(t).(pending := [b]) else t.(pending := t.pending + [b])
  }

  function PutAll(t: Tx, bytes: seq<Byte>): Tx {
    if bytes == [] then t else Put(PutAll(t, bytes[..|bytes| - 1]), bytes[|bytes| - 1])
  }

  /** A packet written in several calls, each a byte or a block. */
  function Written(blocks: seq<seq<Byte>>): seq<Byte> {
    if blocks == [] then [] else Written(blocks[..|blocks| - 1]) + blocks[|blocks| - 1]
  }

  function PutBlocks(t: Tx, blocks: seq<seq<Byte>>): Tx {
    if blocks == [] then t else PutAll(PutBlocks(t, blocks[..|blocks| - 1]), blocks[|blocks| - 1])
  }

  lemma {:induction false} PutAllAppends(t: Tx, a: seq<Byte>, b: seq<Byte>)
    ensures PutAll(t, a + b) == PutAll(PutAll(t, a), b)
  {
    if b == [] {
      assert a + b == a;
    } else {
      PutAllAppends(t, a, b[..|b| - 1]);
      assert (a + b)[..|a + b| - 1] == a + b[..|b| - 1];
    }
  }

  lemma {:induction false} PutBlocksIsPutAll(t: Tx, blocks: seq<seq<Byte>>)
    ensures PutBlocks(t, blocks) == PutAll(t, Written(blocks))
  {
    if blocks != [] {
      PutBlocksIsPutAll(t, blocks[..|blocks| - 1]);
      PutAllAppends(t, Written(blocks[..|blocks| - 1]), blocks[|blocks| - 1]);
    }
  }

  /** What has left and what waits are together the split of the bytes so far. */
  lemma {:induction false} PutAllSplits(t: Tx, bytes: seq<Byte>)
    requires t.pending == []
    ensures Sent(PutAll(t, bytes)).sent == t.sent + Chunks(bytes)
  {
    if bytes == [] {
    } else {
      var front, x := bytes[..|bytes| - 1], bytes[|bytes| - 1];
      PutAllSplits(t, front);
      ChunksAppend(front, x);
      assert front + [x] == bytes;
      var u, cs := PutAll(t, front), Chunks(front);
      assert u.sent + [u.pending] == t.sent + cs;
      assert (u.sent + [u.pending])[|u.sent|] == u.pending && |u.sent| == |t.sent| + |cs| - 1;
      assert u.pending == cs[|cs| - 1];
      assert u.sent == (u.sent + [u.pending])[..|u.sent|] == t.sent + cs[..|cs| - 1];
    }
  }

  /** From `beginPacket` through any writes to `endPacket`, whatever the socket answers: the
      datagrams are the split of the written bytes, and their concatenation is these bytes. */
  lemma PacketIsSplit(sent: seq<Datagram>, blocks: seq<seq<Byte>>)
    ensures var t := Sent(PutBlocks(Tx([], sent), blocks));
      var cs := Chunks(Written(blocks));
      t.sent == sent + cs && WellSplit(cs) && Concat(cs) == Written(blocks)
  {
    var t := Tx([], sent);
    PutBlocksIsPutAll(t, blocks);
    PutAllSplits(t, Written(blocks));
    ChunksAreWellSplit(Written(blocks));
  }

  // ---------------------------------------------------------------- the code

  class WiFiUDP {
    var txBuffer: array?<Byte>
    var txBufferLen: nat
    var udpServer: int
    var remotePort: Word16
    var sent: seq<Datagram>
    /** What the socket answers to the i-th send. */
    const answers: nat -> bool

    predicate Valid()
      reads this, txBuffer
    {
      txBuffer != null && txBuffer.Length == DATAGRAM && txBufferLen <= DATAGRAM
    }

    ghost function View(): Tx
      requires Valid()
      reads this, txBuffer
    {
      Tx(txBuffer[..txBufferLen], sent)
    }

    constructor (answers: nat -> bool, remotePort: Word16)
      ensures txBuffer == null && udpServer == -1 && sent == [] && this.answers == answers
      ensures this.remotePort == remotePort
    {
      this.answers, this.remotePort := answers, remotePort;
      txBuffer, txBufferLen, udpServer, sent := null, 0, -1, [];
    }

    /** `beginPacket()`; `newSocket` is the descriptor that `socket` returns, -1 on failure. */
    method BeginPacket(newSocket: int) returns (ok: bool)
      requires txBuffer != null ==> Valid()
      modifies this
      ensures sent == old(sent) && remotePort == old(remotePort)
      ensures txBuffer == null || fresh(txBuffer) || txBuffer == old(txBuffer)
      ensures ok <==> remotePort != 0 && udpServer != -1
      ensures remotePort == 0 ==>
        txBuffer == old(txBuffer) && txBufferLen == old(txBufferLen) && udpServer == old(udpServer)
      ensures remotePort != 0 ==> Valid() && View() == Tx([], sent)
      ensures remotePort != 0 ==> udpServer == if old(udpServer) != -1 then old(udpServer) else newSocket
    {
      if remotePort == 0 {
        return false;
      }
      if txBuffer == null {
        txBuffer := new Byte[DATAGRAM];
      }
      txBufferLen := 0;
      if udpServer != -1 {
        return true;
      }
      udpServer := newSocket;
      if udpServer == -1 {
        return false;
      }
      return true;
    }

    method EndPacket() returns (ok: bool)
      requires Valid()
      modifies `sent
      ensures Valid() && View() == Sent(old(View())) && ok == answers(|old(sent)|)
    {
      ok := answers(|sent|);
      sent := sent + [txBuffer[..txBufferLen]];
    }

    method WriteByte(data: Byte) returns (n: nat)
      requires Valid()
      modifies `txBufferLen, `sent, txBuffer
      ensures Valid() && View() == Put(old(View()), data) && n == 1
    {
      if txBufferLen == DATAGRAM {
        var _ := EndPacket();
        txBufferLen := 0;
      }
      txBuffer[txBufferLen] := data;
      txBufferLen := txBufferLen + 1;
      return 1;
    }

    method Write(buffer: seq<Byte>) returns (n: nat)
      requires Valid()
      modifies `txBufferLen, `sent, txBuffer
      ensures Valid() && View() == PutAll(old(View()), buffer) && n == |buffer|
    {
      var i := 0;
      while i < |buffer|
        invariant 0 <= i <= |buffer|
        invariant Valid() && View() == PutAll(old(View()), buffer[..i])
      {
        assert buffer[..i + 1][..i] == buffer[..i];
        var _ := WriteByte(buffer[i]);
        i := i + 1;
      }
      assert buffer[..|buffer|] == buffer;
      return i;
    }
  }
}
