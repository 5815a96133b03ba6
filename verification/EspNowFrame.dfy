/** The ESPNOW data frame: a packed little-endian header of ten bytes (type, state,
    sequence number, CRC16, magic number) followed by a random payload.  The CRC is
    any function of the bytes. */
module EspNowFrame {
  import opened Words

  type Crc = seq<Byte> -> Word16

  const HEADER_LEN := 10

  const DATA_BROADCAST: Byte := 0
  const DATA_UNICAST: Byte := 1

  /** What the header carries beside the CRC. */
  datatype Message = Message(kind: Byte, state: Byte, seqNum: Word16, magic: Word32)

  // ---------------------------------------------------------------- byte layout

  function GetLe16(lo: Byte, hi: Byte): Word16 { lo + 0x100 * hi }

  function Header(m: Message, crc: Word16): (header: seq<Byte>)
    ensures |header| == HEADER_LEN
  {
    [m.kind, m.state, m.seqNum % 0x100, m.seqNum / 0x100, crc % 0x100, crc / 0x100] + Le32Bytes(m.magic)
  }

  function Layout(m: Message, crc: Word16, payload: seq<Byte>): seq<Byte> { Header(m, crc) + payload }

  /** A finished frame: its CRC field holds the CRC of the frame with that field zero. */
  function Frame(crc: Crc, m: Message, payload: seq<Byte>): seq<Byte> {
    Layout(m, crc(Layout(m, 0, payload)), payload)
  }

  function Fields(data: seq<Byte>): Message
    requires HEADER_LEN <= |data|
  {
    Message(data[0], data[1], GetLe16(data[2], data[3]), GetLe32(data[6], data[7], data[8], data[9]))
  }

  function ZeroCrc(data: seq<Byte>): seq<Byte>
    requires HEADER_LEN <= |data|
  {
    data[4 := 0][5 := 0]
  }

  /** The frames a receiver accepts. */
  predicate Accepted(crc: Crc, data: seq<Byte>) {
    HEADER_LEN <= |data| && crc(ZeroCrc(data)) == GetLe16(data[4], data[5])
  }

  lemma FieldsOfLayout(m: Message, crc: Word16, payload: seq<Byte>)
    ensures var data := Layout(m, crc, payload);
      && Fields(data) == m && GetLe16(data[4], data[5]) == crc && ZeroCrc(data) == Layout(m, 0, payload)
  {
    Le32RoundTrip(m.magic);
    var data, header := Layout(m, crc, payload), Header(m, crc);
    assert forall k :: 0 <= k < HEADER_LEN ==> data[k] == header[k];
    assert ZeroCrc(data) == header[4 := 0][5 := 0] + payload;
    assert header[4 := 0][5 := 0] == Header(m, 0);
  }

  /** Parsing undoes preparing, for every message, payload and CRC function. */
  lemma FrameRoundTrip(crc: Crc, m: Message, payload: seq<Byte>)
    ensures var data := Frame(crc, m, payload); Accepted(crc, data) && Fields(data) == m
  {
    FieldsOfLayout(m, crc(Layout(m, 0, payload)), payload);
  }

  lemma LayoutOfFields(data: seq<Byte>)
    requires HEADER_LEN <= |data|
    ensures data == Layout(Fields(data), GetLe16(data[4], data[5]), data[HEADER_LEN..])
  {
    Le32BytesOf(data[6], data[7], data[8], data[9]);
    assert Le32Bytes(Fields(data).magic) == data[6..HEADER_LEN];
    var header := Header(Fields(data), GetLe16(data[4], data[5]));
    assert header == data[..HEADER_LEN];
  }

  /** A frame is accepted if and only if it is the finished frame of the fields and the
      payload read from it. */
  lemma AcceptedIffFrame(crc: Crc, data: seq<Byte>)
    ensures Accepted(crc, data) <==>
      HEADER_LEN <= |data| && data == Frame(crc, Fields(data), data[HEADER_LEN..])
  {
    if HEADER_LEN <= |data| {
      LayoutOfFields(data);
      FieldsOfLayout(Fields(data), GetLe16(data[4], data[5]), data[HEADER_LEN..]);
      FieldsOfLayout(Fields(data), crc(ZeroCrc(data)), data[HEADER_LEN..]);
    }
  }

  /** A frame that was changed outside its CRC field is rejected unless the CRC cannot tell
      the two apart. */
  lemma CorruptionIsRejected(crc: Crc, data: seq<Byte>, other: seq<Byte>)
    requires Accepted(crc, data) && HEADER_LEN <= |other| && other[4..6] == data[4..6]
    ensures Accepted(crc, other) <==>
      crc(other[..4] + [0, 0] + other[6..]) == crc(data[..4] + [0, 0] + data[6..])
  {
    assert ZeroCrc(data) == data[..4] + [0, 0] + data[6..];
    assert ZeroCrc(other) == other[..4] + [0, 0] + other[6..];
    assert data[4..6] == [data[4], data[5]] && other[4..6] == [other[4], other[5]];
  }

  lemma TwoBytes(lo: Byte, hi: Byte)
    ensures LeValue([lo, hi]) == GetLe16(lo, hi)
  {
    assert [lo, hi][1..] == [hi] && LeValue([hi]) == hi;
  }

  /** Where the fields of a frame lie, each lowest byte first. */
  lemma FieldsOnTheWire(crc: Crc, m: Message, payload: seq<Byte>)
    ensures var data := Frame(crc, m, payload);
      && |data| == 10 + |payload| && data[10..] == payload
      && data[0] == m.kind && data[1] == m.state
      && LeValue(data[2..4]) == m.seqNum && LeValue(data[6..10]) == m.magic
      && LeValue(data[4..6]) == crc(data[..4] + [0, 0] + data[6..])
  {
    var data := Frame(crc, m, payload);
    FrameRoundTrip(crc, m, payload);
    TwoBytes(data[2], data[3]);
    TwoBytes(data[4], data[5]);
    Le32IsLeValue(m.magic);
    assert data[2..4] == [data[2], data[3]] && data[4..6] == [data[4], data[5]];
    assert data[6..10] == [data[6], data[7], data[8], data[9]];
    assert ZeroCrc(data) == data[..4] + [0, 0] + data[6..];
  }

  // ---------------------------------------------------------------- the magic number

  /** The receiver stores the magic number in an `int`, and compares it as unsigned. */
  function AsInt32(u: Word32): int { if u < 0x8000_0000 then u else u - 0x1_0000_0000 }

  function AsUint32(i: int): Word32 { i % 0x1_0000_0000 }

  lemma MagicSurvivesInt(u: Word32)
    ensures AsUint32(AsInt32(u)) == u
  {
  }

  // ---------------------------------------------------------------- in place

  /** Fill `buffer` with a frame. */
  method Prepare(crc: Crc, buffer: array<Byte>, m: Message, payload: seq<Byte>)
    requires buffer.Length == HEADER_LEN + |payload|
    modifies buffer
    ensures buffer[..] == Frame(crc, m, payload)
  {
    var header := Header(m, 0);
    forall i | 0 <= i < HEADER_LEN { buffer[i] := header[i]; }
    forall i | 0 <= i < |payload| { buffer[HEADER_LEN + i] := payload[i]; }
    assert buffer[..] == Layout(m, 0, payload);
    var c := crc(buffer[..]);
    buffer[4], buffer[5] := c % 0x100, c / 0x100;
    assert header[4 := c % 0x100][5 := c / 0x100] == Header(m, c);
  }

  /** Parse `data`, zeroing its CRC field on the way.  The outputs keep the values
      given when the frame is too short. */
  method Parse(crc: Crc, data: array<Byte>, state0: Byte, seq0: Word16, magic0: int)
    returns (ret: int, state: Byte, seqNum: Word16, magic: int)
    modifies data
    ensures ret == if Accepted(crc, old(data[..])) then Fields(old(data[..])).kind else -1
    ensures if data.Length < HEADER_LEN then (state, seqNum, magic) == (state0, seq0, magic0)
            else var m := Fields(old(data[..])); (state, seqNum, AsUint32(magic)) == (m.state, m.seqNum, m.magic)
    ensures data[..] == if data.Length < HEADER_LEN then old(data[..]) else ZeroCrc(old(data[..]))
  {
    state, seqNum, magic := state0, seq0, magic0;
    if data.Length < HEADER_LEN {
      return -1, state, seqNum, magic;
    }
    state := data[1];
    seqNum := GetLe16(data[2], data[3]);
    magic := AsInt32(GetLe32(data[6], data[7], data[8], data[9]));
    var stored := GetLe16(data[4], data[5]);
    data[4], data[5] := 0, 0;
    var computed := crc(data[..]);
    ret := if computed == stored then data[0] else -1;
    MagicSurvivesInt(GetLe32(data[6], data[7], data[8], data[9]));
  }
}
