/** The unsigned integers of the C code, and their bytes in memory. */
module Words {
  type Byte = x: int | 0 <= x < 0x100
  type Word16 = x: int | 0 <= x < 0x1_0000
  type Word32 = x: int | 0 <= x < 0x1_0000_0000

  datatype Option<T> = None | Some(value: T)

  /** A 32-bit word from its bytes, lowest first. */
  function GetLe32(b0: Byte, b1: Byte, b2: Byte, b3: Byte): Word32 {
    b0 + 0x100 * b1 + 0x1_0000 * b2 + 0x100_0000 * b3
  }

  function Le32Bytes(n: Word32): seq<Byte> {
    [n % 0x100, n / 0x100 % 0x100, n / 0x1_0000 % 0x100, n / 0x100_0000]
  }

  /** The number that bytes make up, lowest first. */
  function LeValue(bytes: seq<Byte>): nat { if bytes == [] then 0 else bytes[0] + 0x100 * LeValue(bytes[1..]) }

  lemma Le32RoundTrip(n: Word32)
    ensures GetLe32(n % 0x100, n / 0x100 % 0x100, n / 0x1_0000 % 0x100, n / 0x100_0000) == n
  {
    assert n / 0x1_0000 == n / 0x100 / 0x100;
    assert n / 0x100_0000 == n / 0x1_0000 / 0x100;
  }

  lemma Le32BytesOf(b0: Byte, b1: Byte, b2: Byte, b3: Byte)
    ensures Le32Bytes(GetLe32(b0, b1, b2, b3)) == [b0, b1, b2, b3]
  {
    var n := GetLe32(b0, b1, b2, b3);
    assert n / 0x100 == b1 + 0x100 * b2 + 0x1_0000 * b3;
    assert n / 0x1_0000 == b2 + 0x100 * b3;
    assert n / 0x100_0000 == b3;
  }

  lemma FourBytes(b0: Byte, b1: Byte, b2: Byte, b3: Byte)
    ensures LeValue([b0, b1, b2, b3]) == GetLe32(b0, b1, b2, b3)
  {
    assert [b0, b1, b2, b3][1..] == [b1, b2, b3] && [b1, b2, b3][1..] == [b2, b3] && [b2, b3][1..] == [b3];
    assert LeValue([b3]) == b3;
    assert LeValue([b2, b3]) == b2 + 0x100 * b3;
    assert LeValue([b1, b2, b3]) == b1 + 0x100 * b2 + 0x1_0000 * b3;
  }

  /** The bytes of a word in memory have its value. */
  lemma Le32IsLeValue(n: Word32)
    ensures |Le32Bytes(n)| == 4 && LeValue(Le32Bytes(n)) == n
  {
    Le32RoundTrip(n);
    FourBytes(n % 0x100, n / 0x100 % 0x100, n / 0x1_0000 % 0x100, n / 0x100_0000);
  }
}
