/** The hex line decoder of the network test interface. */
module HexLine {
  import opened Words

  predicate IsSeparator(c: char) { c == '-' || c == ' ' }

  predicate IsDigit(c: char) { '0' <= c <= '9' || 'a' <= c <= 'f' }

  function DigitValue(c: char): (d: int)
    requires IsDigit(c)
    ensures 0 <= d < 16
  {
    if c <= '9' then c as int - '0' as int else c as int - 'a' as int + 10
  }

  function Times16(b: Byte): Byte { b as int * 16 % 0x100 }

  function Plus(b: Byte, d: int): Byte { (b as int + d) % 0x100 }

  /** One more digit shifts into a byte, in 8-bit arithmetic. */
  function Shift(b: Byte, d: int): Byte { Plus(Times16(b), d) }

  function Separators(line: string): nat {
    if line == [] then 0
    else Separators(line[..|line| - 1]) + if IsSeparator(line[|line| - 1]) then 1 else 0
  }

  /** Every digit belongs to a byte of the buffer. */
  predicate Fits(line: string, size: nat) {
    forall i | 0 <= i < |line| && IsDigit(line[i]) :: Separators(line[..i]) < size
  }

  // ---------------------------------------------------------------- the fields of a line

  /** The digits of the k-th field. */
  function Field(line: string, k: nat): seq<int> {
    if line == [] then []
    else
      var front, c := line[..|line| - 1], line[|line| - 1];
      Field(front, k) + if IsDigit(c) && Separators(front) == k then [DigitValue(c)] else []
  }

  function ShiftAll(b: Byte, digits: seq<int>): Byte {
    if digits == [] then b else Shift(ShiftAll(b, digits[..|digits| - 1]), digits[|digits| - 1])
  }

  function Count(line: string): nat {
    if line == [] then 0 else Separators(line) + 1
  }

  lemma AddChar(line: string, c: char, k: nat)
    ensures Separators(line + [c]) == Separators(line) + if IsSeparator(c) then 1 else 0
    ensures Field(line + [c], k) ==
      Field(line, k) + if IsDigit(c) && Separators(line) == k then [DigitValue(c)] else []
  {
    assert (line + [c])[..|line|] == line;
  }

  lemma AddCharTo(line: string, i: nat, k: nat)
    requires i < |line|
    ensures var c := line[i];
      && Separators(line[..i + 1]) == Separators(line[..i]) + (if IsSeparator(c) then 1 else 0)
      && Field(line[..i + 1], k) ==
         Field(line[..i], k) + if IsDigit(c) && Separators(line[..i]) == k then [DigitValue(c)] else []
  {
    AddChar(line[..i], line[i], k);
    assert line[..i + 1] == line[..i] + [line[i]];
  }

  lemma EmptyLine()
    ensures Separators("") == 0 && (forall k: nat :: Field("", k) == []) && forall b: Byte :: ShiftAll(b, []) == b
  {
  }

  lemma ShiftLast(b: Byte, digits: seq<int>, d: int)
    ensures ShiftAll(b, digits + [d]) == Shift(ShiftAll(b, digits), d)
  {
    assert (digits + [d])[..|digits|] == digits;
  }

  /** `process_line`: the k-th byte has the digits of the k-th field shifted in. */
  method ProcessLine(line: string, packet: array<Byte>) returns (count: nat)
    requires Fits(line, packet.Length)
    modifies packet
    ensures count == Count(line)
    ensures forall k: nat | k < packet.Length :: packet[k] == ShiftAll(old(packet[k]), Field(line, k))
  {
    hide Field, Separators, ShiftAll, Times16, Plus;
    EmptyLine();
    assert line[..0] == "";
    count := 0;
    for i := 0 to |line|
      invariant count == Separators(line[..i])
      invariant forall k: nat | k < packet.Length :: packet[k] == ShiftAll(old(packet[k]), Field(line[..i], k))
    {
      var c := line[i];
      ghost var before, at := packet[..], count;
      if c == '-' || c == ' ' {
        count := count + 1;
      } else if '0' <= c <= '9' {
        packet[count] := Times16(packet[count]);
        packet[count] := Plus(packet[count], c as int - '0' as int);
      } else if 'a' <= c <= 'f' {
        packet[count] := Times16(packet[count]);
        packet[count] := Plus(packet[count], c as int - 'a' as int + 10);
      }
      AddCharTo(line, i, 0);
      forall k: nat | k < packet.Length
        ensures packet[k] == ShiftAll(old(packet[k]), Field(line[..i + 1], k))
      {
        AddCharTo(line, i, k);
        assert before[k] == ShiftAll(old(packet[k]), Field(line[..i], k));
        if IsDigit(c) && k == at {
          ShiftLast(old(packet[k]), Field(line[..i], k), DigitValue(c));
          assert packet[k] == Shift(before[k], DigitValue(c));
        } else {
          assert packet[k] == before[k];
          assert Field(line[..i + 1], k) == Field(line[..i], k);
        }
      }
    }
    assert line[..|line|] == line;
    if |line| > 0 {
      count := count + 1;
    }
  }

  lemma InText(c: char)
    requires IsSeparator(c) || IsDigit(c)
    ensures c in "0123456789abcdef- "
  {
    if IsDigit(c) { assert "0123456789abcdef"[DigitValue(c)] == c; assert c in "0123456789abcdef"; }
    var all := "0123456789abcdef- ";
    if c == '-' { assert all[16] == c; } else if c == ' ' { assert all[17] == c; }
    else { assert all[DigitValue(c)] == c; }
  }

  /** Any other character, upper-case digits among them, is skipped wherever it stands. */
  lemma {:induction false} OthersAreSkipped(line: string, c: char, rest: string, k: nat)
    requires c !in "0123456789abcdef- "
    ensures Separators(line + [c] + rest) == Separators(line + rest)
    ensures Field(line + [c] + rest, k) == Field(line + rest, k)
  {
    hide Field, Separators;
    if rest == "" {
      if IsSeparator(c) || IsDigit(c) { InText(c); }
      AddChar(line, c, k);
      assert line + [c] + rest == line + [c] && line + rest == line;
    } else {
      var front, last := rest[..|rest| - 1], rest[|rest| - 1];
      OthersAreSkipped(line, c, front, k);
      AddChar(line + [c] + front, last, k);
      AddChar(line + front, last, k);
      assert line + [c] + rest == line + [c] + front + [last] && line + rest == line + front + [last];
    }
  }

  // ---------------------------------------------------------------- the old contents

  lemma Times16Is(c: Byte)
    ensures Times16(c) == 16 * (c as int % 16)
  {
    assert c as int * 16 == 0x100 * (c as int / 16) + 16 * (c as int % 16);
  }

  lemma ShiftTwice(c: Byte, d: int, e: int)
    requires 0 <= d < 16 && 0 <= e < 16
    ensures Shift(Shift(c, d), e) == 16 * d + e
  {
    var r: int := c as int % 16;
    Times16Is(c);
    assert 16 * r + d < 0x100 && Shift(c, d) == 16 * r + d;
    Times16Is(16 * r + d);
    assert (16 * r + d) % 16 == d;
  }

  /** Two digits erase what the byte held: the last two are its value. */
  lemma TwoDigitsErase(b: Byte, digits: seq<int>)
    requires |digits| >= 2 && forall i | 0 <= i < |digits| :: 0 <= digits[i] < 16
    ensures ShiftAll(b, digits) == 16 * digits[|digits| - 2] + digits[|digits| - 1]
  {
    var n := |digits|;
    hide ShiftAll;
    var c, d, e := ShiftAll(b, digits[..n - 2]), digits[n - 2], digits[n - 1];
    ShiftLast(b, digits[..n - 2], d);
    ShiftLast(b, digits[..n - 2] + [d], e);
    assert digits == digits[..n - 2] + [d] + [e];
    ShiftTwice(c, d, e);
  }

  lemma OneShiftDiffers(d: int)
    requires 0 <= d < 16
    ensures Shift(0, d) != Shift(1, d)
  {
  }

  /** The byte depends on what the buffer held exactly when its field has fewer than two
      digits. */
  lemma IndependentIff(digits: seq<int>)
    requires forall i | 0 <= i < |digits| :: 0 <= digits[i] < 16
    ensures (forall b: Byte, c: Byte :: ShiftAll(b, digits) == ShiftAll(c, digits)) <==> |digits| >= 2
  {
    hide ShiftAll, Shift;
    EmptyLine();
    if |digits| >= 2 {
      forall b: Byte, c: Byte
        ensures ShiftAll(b, digits) == ShiftAll(c, digits)
      {
        TwoDigitsErase(b, digits);
        TwoDigitsErase(c, digits);
      }
    } else if |digits| == 1 {
      assert digits == [] + [digits[0]];
      ShiftLast(0, [], digits[0]);
      ShiftLast(1, [], digits[0]);
      OneShiftDiffers(digits[0]);
    } else {
      assert digits == [];
      assert ShiftAll(0, digits) != ShiftAll(1, digits);
    }
  }

  // ---------------------------------------------------------------- the printed form

  function HexChar(d: int): (c: char)
    requires 0 <= d < 16
    ensures IsDigit(c) && DigitValue(c) == d
  {
    "0123456789abcdef"[d]
  }

  /** Two lower-case digits per byte; `seps[i]` stands before byte i, for i > 0. */
  function Print(bytes: seq<Byte>, seps: string): string
    requires |seps| >= |bytes|
  {
    if bytes == [] then ""
    else
      var n := |bytes| - 1;
      Print(bytes[..n], seps) + (if n == 0 then "" else [seps[n]])
      + [HexChar(bytes[n] / 16), HexChar(bytes[n] % 16)]
  }

  ghost predicate AllSeparators(seps: string) { forall i | 0 <= i < |seps| :: seps[i] == '-' || seps[i] == ' ' }

  lemma EmptyPrint(seps: string)
    ensures Print([], seps) == ""
  {
  }

  /** What the last printed byte adds. */
  lemma PrintedByte(bytes: seq<Byte>, seps: string, k: nat)
    requires |seps| >= |bytes| > 0 && AllSeparators(seps)
    requires Count(Print(bytes[..|bytes| - 1], seps)) == |bytes| - 1
    ensures Count(Print(bytes, seps)) == |bytes|
    ensures var n := |bytes| - 1;
      Field(Print(bytes, seps), k) ==
        Field(Print(bytes[..n], seps), k) + if k == n then [bytes[n] / 16, bytes[n] % 16] else []
  {
    hide Field, Separators, HexChar;
    EmptyLine();
    var n := |bytes| - 1;
    var front := Print(bytes[..n], seps);
    var head := if n == 0 then front else front + [seps[n]];
    var hi, lo := HexChar(bytes[n] / 16), HexChar(bytes[n] % 16);
    if n > 0 {
      AddChar(front, seps[n], k);
    }
    AddChar(head, hi, k);
    AddChar(head + [hi], lo, k);
    assert Print(bytes, seps) == head + [hi] + [lo];
  }

  /** Field k of a printed byte string holds the two digits of byte k. */
  lemma {:induction false} PrintedFields(bytes: seq<Byte>, seps: string, k: nat)
    requires |seps| >= |bytes| && AllSeparators(seps)
    ensures Count(Print(bytes, seps)) == |bytes|
    ensures Field(Print(bytes, seps), k) == if k < |bytes| then [bytes[k] / 16, bytes[k] % 16] else []
  {
    hide Field, Separators, Print;
    EmptyLine();
    if bytes == [] {
      EmptyPrint(seps);
    } else {
      var n := |bytes| - 1;
      PrintedFields(bytes[..n], seps, k);
      PrintedByte(bytes, seps, k);
    }
  }

  /** Printed and read back, every byte string comes back whatever the buffer held. */
  lemma RoundTrip(bytes: seq<Byte>, seps: string, k: nat, old_: Byte)
    requires |seps| >= |bytes| && AllSeparators(seps)
    ensures Count(Print(bytes, seps)) == |bytes|
    ensures ShiftAll(old_, Field(Print(bytes, seps), k)) == if k < |bytes| then bytes[k] else old_
  {
    PrintedFields(bytes, seps, k);
    if k < |bytes| {
      TwoDigitsErase(old_, [bytes[k] / 16, bytes[k] % 16]);
    }
  }

  lemma {:induction false} SeparatorsGrow(line: string, i: nat)
    requires i <= |line|
    ensures Separators(line[..i]) <= Separators(line)
    decreases |line|
  {
    if i < |line| {
      SeparatorsGrow(line[..|line| - 1], i);
      assert line[..|line| - 1][..i] == line[..i];
    } else {
      assert line[..i] == line;
    }
  }

  /** A printed byte string fits every buffer that holds the bytes. */
  lemma {:induction false} PrintedFits(bytes: seq<Byte>, seps: string, size: nat)
    requires |bytes| <= |seps| && |bytes| <= size && AllSeparators(seps)
    ensures Fits(Print(bytes, seps), size)
  {
    var line := Print(bytes, seps);
    PrintedFields(bytes, seps, 0);
    forall i | 0 <= i < |line| && IsDigit(line[i])
      ensures Separators(line[..i]) < size
    {
      SeparatorsGrow(line, i);
    }
  }
}
