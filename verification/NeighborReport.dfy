/** The neighbor report of a roaming station: a sequence of Neighbor Report elements,
    each with optional subelements, turned into the neighbor list of a BSS transition
    query. */
module NeighborReport {
  import opened Words

  const EID_NEIGHBOR_REPORT: Byte := 52
  const ETH_ALEN := 6
  const NR_IE_MIN_LEN := 13
  const MAX_NEIGHBOR_LEN := 512

  // ---------------------------------------------------------------- elements

  /** What the list says about one neighbor. */
  datatype Entry = Entry(bssid: seq<Byte>, info: Word32, opClass: Byte, channel: Byte, phyType: Byte) {
    predicate Valid() { |bssid| == ETH_ALEN }
  }

  datatype Subelement = Subelement(id: Byte, body: seq<Byte>)

  /** An element: its entry, its subelements, and at most two bytes after them. */
  datatype Element = Element(entry: Entry, subs: seq<Subelement>, rest: seq<Byte>)

  function EntryBytes(e: Entry): seq<Byte> { e.bssid + Le32Bytes(e.info) + [e.opClass, e.channel, e.phyType] }

  function SubBytes(s: Subelement): seq<Byte>
    requires |s.body| < 0x100
  {
    [s.id, |s.body|] + s.body
  }

  predicate SubsSized(subs: seq<Subelement>) { forall i | 0 <= i < |subs| :: |subs[i].body| < 0x100 }

  function SubsBytes(subs: seq<Subelement>): seq<Byte>
    requires SubsSized(subs)
  {
    if subs == [] then [] else SubBytes(subs[0]) + SubsBytes(subs[1..])
  }

  predicate ElementValid(n: Element) {
    && n.entry.Valid() && SubsSized(n.subs) && |n.rest| <= 2
    && NR_IE_MIN_LEN + |SubsBytes(n.subs)| + |n.rest| < 0x100
  }

  function ElementBytes(n: Element): seq<Byte>
    requires ElementValid(n)
  {
    var tail := SubsBytes(n.subs) + n.rest;
    [EID_NEIGHBOR_REPORT, NR_IE_MIN_LEN + |tail|] + EntryBytes(n.entry) + tail
  }

  predicate AllValid(ns: seq<Element>) { forall i | 0 <= i < |ns| :: ElementValid(ns[i]) }

  function ReportBytes(ns: seq<Element>): seq<Byte>
    requires AllValid(ns)
  {
    if ns == [] then [] else ElementBytes(ns[0]) + ReportBytes(ns[1..])
  }

  function Entries(ns: seq<Element>): seq<Entry> { seq(|ns|, i requires 0 <= i < |ns| => ns[i].entry) }

  // ---------------------------------------------------------------- parsing

  /** The walk over subelements ends without one that is too long. */
  predicate SubsOk(r: seq<Byte>) {
    |r| <= 2 || (2 + r[1] <= |r| && SubsOk(r[2 + r[1]..]))
  }

  function EntryAt(r: seq<Byte>): Entry
    requires 2 + NR_IE_MIN_LEN <= |r|
  {
    Entry(r[2..2 + ETH_ALEN], GetLe32(r[8], r[9], r[10], r[11]), r[12], r[13], r[14])
  }

  /** The element at the start of `r` is acceptable. */
  predicate ElementOk(r: seq<Byte>)
    requires 2 + NR_IE_MIN_LEN <= |r|
  {
    r[0] == EID_NEIGHBOR_REPORT && NR_IE_MIN_LEN <= r[1] && 2 + r[1] <= |r|
    && SubsOk(r[2 + NR_IE_MIN_LEN..2 + r[1]])
  }

  function ParseEntries(r: seq<Byte>): Option<seq<Entry>> {
    if |r| < 2 + NR_IE_MIN_LEN then Some([])
    else if !ElementOk(r) then None
    else
      match ParseEntries(r[2 + r[1]..])
      case None => None
      case Some(es) => Some([EntryAt(r)] + es)
  }

  lemma SubFirst(s: Subelement, more: seq<Byte>)
    requires |s.body| < 0x100
    ensures var r := SubBytes(s) + more; |r| >= 2 && 2 + r[1] <= |r| && r[2 + r[1]..] == more
  {
  }

  lemma {:induction false} SubsRoundTrip(subs: seq<Subelement>, rest: seq<Byte>)
    requires SubsSized(subs) && |rest| <= 2
    ensures SubsOk(SubsBytes(subs) + rest)
  {
    hide SubBytes;
    if subs != [] {
      var more := SubsBytes(subs[1..]) + rest;
      SubsRoundTrip(subs[1..], rest);
      SubFirst(subs[0], more);
      assert SubsBytes(subs) + rest == SubBytes(subs[0]) + more;
    }
  }

  lemma EntryAtBytes(head: seq<Byte>, e: Entry, more: seq<Byte>)
    requires |head| == 2 && e.Valid()
    ensures |EntryBytes(e)| == NR_IE_MIN_LEN && EntryAt(head + EntryBytes(e) + more) == e
  {
    hide GetLe32;
    Le32RoundTrip(e.info);
    var r := head + EntryBytes(e) + more;
    assert r[2..2 + ETH_ALEN] == e.bssid;
  }

  lemma ElementRoundTrip(n: Element, more: seq<Byte>)
    requires ElementValid(n)
    ensures var r := ElementBytes(n) + more;
      && 2 + NR_IE_MIN_LEN <= |r| && ElementOk(r) && EntryAt(r) == n.entry && r[2 + r[1]..] == more
  {
    hide SubsBytes, SubsOk, EntryAt, EntryBytes;
    var tail := SubsBytes(n.subs) + n.rest;
    var head, r := [EID_NEIGHBOR_REPORT, NR_IE_MIN_LEN + |tail|], ElementBytes(n) + more;
    SubsRoundTrip(n.subs, n.rest);
    EntryAtBytes(head, n.entry, tail + more);
    assert r == head + EntryBytes(n.entry) + (tail + more);
    assert r[2 + NR_IE_MIN_LEN..2 + r[1]] == tail;
  }

  /** Where the parts of an element lie in the report. */
  lemma ElementOnTheWire(n: Element, more: seq<Byte>)
    requires ElementValid(n)
    ensures var r := ElementBytes(n) + more;
      && r[0] == 52 && r[1] == 13 + |SubsBytes(n.subs)| + |n.rest| && r[2..8] == n.entry.bssid
      && LeValue(r[8..12]) == n.entry.info
      && (r[12], r[13], r[14]) == (n.entry.opClass, n.entry.channel, n.entry.phyType)
      && r[15..] == SubsBytes(n.subs) + n.rest + more
  {
    hide SubsBytes, Le32Bytes;
    Le32IsLeValue(n.entry.info);
    var r := ElementBytes(n) + more;
    assert r[8..12] == Le32Bytes(n.entry.info);
  }

  /** Parsing undoes serialising: any well-formed elements, followed by fewer bytes than
      an element needs, yield exactly their entries in order. */
  lemma {:induction false} ParseUndoesSerialise(ns: seq<Element>, tail: seq<Byte>)
    requires AllValid(ns) && |tail| < 2 + NR_IE_MIN_LEN
    ensures ParseEntries(ReportBytes(ns) + tail) == Some(Entries(ns))
  {
    hide ElementOk, EntryAt, ElementBytes, ElementValid;
    var r := ReportBytes(ns) + tail;
    if ns == [] {
      assert r == tail && Entries(ns) == [];
    } else {
      var more := ReportBytes(ns[1..]) + tail;
      ParseUndoesSerialise(ns[1..], tail);
      assert r == ElementBytes(ns[0]) + more;
      ElementRoundTrip(ns[0], more);
      assert Entries(ns) == [ns[0].entry] + Entries(ns[1..]);
    }
  }

  lemma {:induction false} SubsOfRegion(r: seq<Byte>) returns (subs: seq<Subelement>, rest: seq<Byte>)
    requires SubsOk(r)
    ensures SubsSized(subs) && |rest| <= 2 && r == SubsBytes(subs) + rest
  {
    if |r| <= 2 {
      subs, rest := [], r;
    } else {
      var first := Subelement(r[0], r[2..2 + r[1]]);
      var more;
      more, rest := SubsOfRegion(r[2 + r[1]..]);
      subs := [first] + more;
      assert r == SubBytes(first) + r[2 + r[1]..];
      assert subs[1..] == more;
    }
  }

  lemma CutInFour(r: seq<Byte>, i: nat, j: nat, k: nat)
    requires i <= j <= k <= |r|
    ensures r == r[..i] + r[i..j] + r[j..k] + r[k..]
  {
  }

  lemma EntryBytesAt(r: seq<Byte>)
    requires 2 + NR_IE_MIN_LEN <= |r|
    ensures EntryAt(r).Valid() && EntryBytes(EntryAt(r)) == r[2..2 + NR_IE_MIN_LEN]
  {
    hide GetLe32, Le32Bytes;
    Le32BytesOf(r[8], r[9], r[10], r[11]);
  }

  lemma HeadAt(r: seq<Byte>)
    requires 2 + NR_IE_MIN_LEN <= |r| && ElementOk(r)
    ensures r[..2] == [EID_NEIGHBOR_REPORT, r[1]]
  {
  }

  lemma ElementParts(n: Element, region: seq<Byte>)
    requires ElementValid(n) && region == SubsBytes(n.subs) + n.rest
    ensures ElementBytes(n) == [EID_NEIGHBOR_REPORT, NR_IE_MIN_LEN + |region|] + EntryBytes(n.entry) + region
  {
  }

  lemma ElementAt(r: seq<Byte>, n: Element)
    requires 2 + NR_IE_MIN_LEN <= |r| && ElementOk(r) && n.entry == EntryAt(r)
    requires SubsSized(n.subs) && |n.rest| <= 2 && r[2 + NR_IE_MIN_LEN..2 + r[1]] == SubsBytes(n.subs) + n.rest
    ensures ElementValid(n)
    ensures ElementBytes(n) == r[..2] + r[2..2 + NR_IE_MIN_LEN] + r[2 + NR_IE_MIN_LEN..2 + r[1]]
  {
    hide EntryAt, EntryBytes, SubsOk, SubsBytes, ElementBytes;
    EntryBytesAt(r);
    HeadAt(r);
    ElementParts(n, r[2 + NR_IE_MIN_LEN..2 + r[1]]);
  }

  lemma ElementOfBytes(r: seq<Byte>) returns (n: Element)
    requires 2 + NR_IE_MIN_LEN <= |r| && ElementOk(r)
    ensures ElementValid(n) && n.entry == EntryAt(r) && r == ElementBytes(n) + r[2 + r[1]..]
  {
    hide EntryAt, SubsOk, SubsBytes, ElementBytes, ElementValid;
    var subs, rest := SubsOfRegion(r[2 + NR_IE_MIN_LEN..2 + r[1]]);
    n := Element(EntryAt(r), subs, rest);
    ElementAt(r, n);
    CutInFour(r, 2, 2 + NR_IE_MIN_LEN, 2 + r[1] as int);
  }

  /** A report is accepted only if it is a list of well-formed elements, followed by
      fewer bytes than an element needs. */
  lemma {:induction false} AcceptedIsSerialised(r: seq<Byte>) returns (ns: seq<Element>, tail: seq<Byte>)
    requires ParseEntries(r).Some?
    ensures AllValid(ns) && |tail| < 2 + NR_IE_MIN_LEN && r == ReportBytes(ns) + tail
    ensures ParseEntries(r).value == Entries(ns)
  {
    hide SubsOk, EntryAt, ElementBytes, ElementValid;
    if |r| < 2 + NR_IE_MIN_LEN {
      ns, tail := [], r;
      assert Entries(ns) == [];
    } else {
      var first := ElementOfBytes(r);
      var more;
      more, tail := AcceptedIsSerialised(r[2 + r[1]..]);
      ns := [first] + more;
      assert ns[1..] == more;
      assert Entries(ns) == [first.entry] + Entries(more);
    }
  }

  ghost predicate Serialises(r: seq<Byte>, ns: seq<Element>, tail: seq<Byte>) {
    AllValid(ns) && |tail| < 2 + NR_IE_MIN_LEN && r == ReportBytes(ns) + tail
  }

  /** Exactly the serialised lists of well-formed elements are accepted. */
  lemma AcceptedIffSerialised(r: seq<Byte>)
    ensures ParseEntries(r).Some? <==> exists ns, tail :: Serialises(r, ns, tail)
  {
    hide ParseEntries, ReportBytes, AllValid;
    if ParseEntries(r).Some? {
      var ns, tail := AcceptedIsSerialised(r);
      assert Serialises(r, ns, tail);
    } else if exists ns, tail :: Serialises(r, ns, tail) {
      var ns, tail :| Serialises(r, ns, tail);
      ParseUndoesSerialise(ns, tail);
    }
  }

  // ---------------------------------------------------------------- the text

  function Digit(d: nat): char
    requires d < 16
  {
    "0123456789abcdef"[d]
  }

  /** `%u` */
  function Dec(n: nat): string { if n < 10 then [Digit(n)] else Dec(n / 10) + [Digit(n % 10)] }

  /** `%0wx`: hexadecimal, padded with zeros to at least `width` digits. */
  function Hex(n: nat, width: nat): string
    decreases n, width
  {
    if n < 16 && width <= 1 then [Digit(n)]
    else Hex(n / 16, if width == 0 then 0 else width - 1) + [Digit(n % 16)]
  }

  /** The MAC address with colons. */
  function MacText(m: seq<Byte>): string {
    if m == [] then "" else if |m| == 1 then Hex(m[0], 2) else Hex(m[0], 2) + ":" + MacText(m[1..])
  }

  /** The text printed for one neighbor. */
  function AddressText(e: Entry): string { " neighbor=" + MacText(e.bssid) + "," + ("0x" + Hex(e.info, 4)) + "," }

  function ClassText(e: Entry): string { Dec(e.opClass) + "," + Dec(e.channel) + "," }

  function Line(e: Entry): string { AddressText(e) + ClassText(e) + Dec(e.phyType) }

  function Lines(es: seq<Entry>): string {
    if es == [] then "" else Lines(es[..|es| - 1]) + Line(es[|es| - 1])
  }

  predicate EntriesValid(es: seq<Entry>) { forall i | 0 <= i < |es| :: es[i].Valid() }

  /** What the buffer shows of a text: all of it, or as much as fits before the
      terminating zero. */
  function Shown(text: string): string { if |text| < MAX_NEIGHBOR_LEN then text else text[..MAX_NEIGHBOR_LEN - 1] }

  /** Some piece is printed behind the end of the buffer; if any is, the last one is. */
  predicate Overruns(es: seq<Entry>) {
    es != [] && |Lines(es)| - |Dec(es[|es| - 1].phyType)| > MAX_NEIGHBOR_LEN
  }

  function Pow16(k: nat): nat { if k == 0 then 1 else 16 * Pow16(k - 1) }

  lemma {:induction false} HexLength(n: nat, width: nat, most: nat)
    requires n < Pow16(most) && width <= most && 0 < most
    ensures |Hex(n, width)| <= most
  {
    assert Pow16(1) == 16;
    if 1 < most && !(n < 16 && width <= 1) {
      assert n < 16 * Pow16(most - 1);
      HexLength(n / 16, if width == 0 then 0 else width - 1, most - 1);
    }
  }

  lemma Pow16Values()
    ensures Pow16(2) == 0x100 && Pow16(8) == 0x1_0000_0000
  {
    assert Pow16(4) == 16 * 16 * Pow16(2) && Pow16(8) == 16 * 16 * Pow16(6) && Pow16(6) == 16 * 16 * Pow16(4);
  }

  lemma MacLength(m: seq<Byte>)
    requires 0 < |m|
    ensures |MacText(m)| <= 3 * |m| - 1
  {
    Pow16Values();
    HexLength(m[0], 2, 2);
  }

  const LONGEST_LINE := 50

  lemma DecLength(n: Byte)
    ensures |Dec(n)| <= 3
  {
    assert n / 10 / 10 < 10;
    assert |Dec(n / 10 / 10)| == 1;
  }

  lemma LineLength(e: Entry)
    requires e.Valid()
    ensures |Line(e)| <= LONGEST_LINE
  {
    DecLength(e.opClass);
    DecLength(e.channel);
    DecLength(e.phyType);
    MacLength(e.bssid);
    Pow16Values();
    HexLength(e.info, 4, 8);
  }

  lemma {:induction false} LinesLength(es: seq<Entry>)
    requires EntriesValid(es)
    ensures |Lines(es)| <= LONGEST_LINE * |es|
  {
    if es != [] {
      LinesLength(es[..|es| - 1]);
      LineLength(es[|es| - 1]);
    }
  }

  /** The neighbor with the longest text. */
  const LONGEST := Entry([0xFF, 0xFF, 0xFF, 0xFF, 0xFF, 0xFF], 0xFFFF_FFFF, 0xFF, 0xFF, 0xFF)

  lemma LongestLine()
    ensures LONGEST.Valid() && |Line(LONGEST)| == LONGEST_LINE
  {
    assert |Hex(0xFF, 2)| == 2;
    var m := LONGEST.bssid;
    assert |MacText(m[5..])| == 2 && |MacText(m[4..])| == 5 && |MacText(m[3..])| == 8;
    assert |MacText(m[2..])| == 11 && |MacText(m[1..])| == 14 && |MacText(m)| == 17;
    assert |Hex(0xFFFF_FFFF, 4)| == 8;
    assert |Dec(0xFF)| == 3;
  }

  lemma {:induction false} LongestLines(n: nat)
    ensures |Lines(seq(n, _ => LONGEST))| == LONGEST_LINE * n
  {
    if n > 0 {
      var es := seq(n, _ => LONGEST);
      LongestLines(n - 1);
      LongestLine();
      assert es[..n - 1] == seq(n - 1, _ => LONGEST);
    }
  }

  /** The text of any n neighbors fits the buffer with its terminating zero if and only
      if n is at most ten. */
  lemma TextFitsIffTen(n: nat)
    ensures (forall es | EntriesValid(es) && |es| == n :: |Lines(es)| < MAX_NEIGHBOR_LEN) <==> n <= 10
  {
    if n <= 10 {
      forall es | EntriesValid(es) && |es| == n ensures |Lines(es)| < MAX_NEIGHBOR_LEN { LinesLength(es); }
    } else {
      var es := seq(n, _ => LONGEST);
      LongestLines(n);
      LongestLine();
      assert EntriesValid(es) && |es| == n;
    }
  }

  // ---------------------------------------------------------------- in place

  /** `buf` holds `text` as a C string, cut to its size. */
  ghost predicate Holds(buf: seq<char>, text: string) {
    |buf| == MAX_NEIGHBOR_LEN && Shown(text) <= buf && buf[|Shown(text)|] == '\0'
  }

  /** `snprintf` of a piece behind the text: the size it passes is what is left of the
      buffer, which is meaningless once the text is longer than the buffer. */
  method Print(buf: array<char>, len: nat, overrun: bool, piece: string, ghost text: string)
    returns (len': nat, overrun': bool)
    requires buf.Length == MAX_NEIGHBOR_LEN && |text| == len && (!overrun ==> Holds(buf[..], text))
    modifies buf
    ensures len' == |text + piece|
    ensures overrun' <==> overrun || len > MAX_NEIGHBOR_LEN
    ensures !overrun' ==> Holds(buf[..], text + piece)
  {
    len', overrun' := len + |piece|, overrun || len > MAX_NEIGHBOR_LEN;
    if !overrun' && len < MAX_NEIGHBOR_LEN {
      var room := MAX_NEIGHBOR_LEN - 1 - len;
      var n := if |piece| <= room then |piece| else room;
      forall i | 0 <= i < n { buf[len + i] := piece[i]; }
      buf[len + n] := '\0';
    }
  }

  lemma Appended(text: string, a: string, b: string)
    ensures (text + a) + b == text + (a + b)
  {
  }

  method PrintAddress(buf: array<char>, len: nat, overrun: bool, e: Entry, ghost text: string)
    returns (len': nat, overrun': bool)
    requires buf.Length == MAX_NEIGHBOR_LEN && |text| == len && (!overrun ==> Holds(buf[..], text))
    modifies buf
    ensures len' == |text + AddressText(e)|
    ensures overrun' ==> overrun || |text + AddressText(e)| > MAX_NEIGHBOR_LEN
    ensures overrun ==> overrun'
    ensures !overrun' ==> Holds(buf[..], text + AddressText(e))
  {
    hide Holds;
    var mac, info := MacText(e.bssid), "0x" + Hex(e.info, 4);
    ghost var t1 := " neighbor=";
    ghost var t2 := t1 + mac;
    ghost var t3 := t2 + ",";
    ghost var t4 := t3 + info;
    len', overrun' := Print(buf, len, overrun, " neighbor=", text);
    len', overrun' := Print(buf, len', overrun', mac, text + t1);
    Appended(text, t1, mac);
    len', overrun' := Print(buf, len', overrun', ",", text + t2);
    Appended(text, t2, ",");
    len', overrun' := Print(buf, len', overrun', info, text + t3);
    Appended(text, t3, info);
    len', overrun' := Print(buf, len', overrun', ",", text + t4);
    Appended(text, t4, ",");
  }

  method PrintClass(buf: array<char>, len: nat, overrun: bool, e: Entry, ghost text: string)
    returns (len': nat, overrun': bool)
    requires buf.Length == MAX_NEIGHBOR_LEN && |text| == len && (!overrun ==> Holds(buf[..], text))
    modifies buf
    ensures len' == |text + ClassText(e) + Dec(e.phyType)|
    ensures overrun' <==> overrun || |text + ClassText(e)| > MAX_NEIGHBOR_LEN
    ensures !overrun' ==> Holds(buf[..], text + ClassText(e) + Dec(e.phyType))
  {
    hide Holds;
    ghost var t1 := Dec(e.opClass);
    ghost var t2 := t1 + ",";
    ghost var t3 := t2 + Dec(e.channel);
    len', overrun' := Print(buf, len, overrun, Dec(e.opClass), text);
    len', overrun' := Print(buf, len', overrun', ",", text + t1);
    Appended(text, t1, ",");
    len', overrun' := Print(buf, len', overrun', Dec(e.channel), text + t2);
    Appended(text, t2, Dec(e.channel));
    len', overrun' := Print(buf, len', overrun', ",", text + t3);
    Appended(text, t3, ",");
    len', overrun' := Print(buf, len', overrun', Dec(e.phyType), text + ClassText(e));
  }

  /** The ten pieces of one neighbor. */
  method PrintNeighbor(buf: array<char>, len: nat, overrun: bool, e: Entry, ghost text: string)
    returns (len': nat, overrun': bool)
    requires buf.Length == MAX_NEIGHBOR_LEN && |text| == len && (!overrun ==> Holds(buf[..], text))
    modifies buf
    ensures len' == |text + Line(e)|
    ensures overrun' <==> overrun || |text + Line(e)| - |Dec(e.phyType)| > MAX_NEIGHBOR_LEN
    ensures !overrun' ==> Holds(buf[..], text + Line(e))
  {
    hide Holds, AddressText, ClassText;
    len', overrun' := PrintAddress(buf, len, overrun, e, text);
    len', overrun' := PrintClass(buf, len', overrun', e, text + AddressText(e));
    Appended(text, AddressText(e), ClassText(e));
    Appended(text, AddressText(e) + ClassText(e), Dec(e.phyType));
  }

  /** The list, or none: what the buffer holds, unless a piece overran it; or a write to
      a buffer that could not be allocated. */
  datatype NeighborList = NoList | List(text: string, overrun: bool) | NullWrite

  lemma EmptyHolds(buf: seq<char>)
    requires |buf| == MAX_NEIGHBOR_LEN && buf[0] == '\0'
    ensures Holds(buf, Lines([])) && Lines([]) == "" && !Overruns([])
  {
  }

  lemma HeldText(buf: seq<char>, text: string)
    ensures Holds(buf, text) ==>
      |buf| == MAX_NEIGHBOR_LEN
      && buf[..if |text| < MAX_NEIGHBOR_LEN then |text| else MAX_NEIGHBOR_LEN - 1] == Shown(text)
  {
  }

  lemma OneMoreLine(es: seq<Entry>, e: Entry)
    ensures Lines(es + [e]) == Lines(es) + Line(e)
    ensures Overruns(es + [e]) <==> Overruns(es) || |Lines(es) + Line(e)| - |Dec(e.phyType)| > MAX_NEIGHBOR_LEN
  {
    assert (es + [e])[..|es|] == es;
  }

  /** The walk over the subelements between `pos` and `end`. */
  method SkipSubelements(report: seq<Byte>, start: nat, end: nat) returns (ok: bool)
    requires start <= end <= |report|
    ensures ok <==> SubsOk(report[start..end])
  {
    var pos := start;
    while end - pos > 2
      invariant start <= pos <= end
      invariant SubsOk(report[start..end]) <==> SubsOk(report[pos..end])
    {
      ghost var region := report[pos..end];
      var sLen := report[pos + 1];
      pos := pos + 2;
      if sLen > end - pos {
        return false;
      }
      assert region[2 + region[1]..] == report[pos + sLen..end];
      pos := pos + sLen;
    }
    return true;
  }

  /** The element at `data`: whether it is acceptable, its entry, and its end. */
  method ReadElement(report: seq<Byte>, data: nat) returns (ok: bool, e: Entry, end: nat)
    requires data + 2 + NR_IE_MIN_LEN <= |report|
    ensures ok <==> ElementOk(report[data..])
    ensures ok ==> data < end <= |report|
    ensures ok ==> e == EntryAt(report[data..]) && report[end..] == report[data..][2 + report[data..][1]..]
  {
    hide SubsOk, GetLe32;
    ghost var r := report[data..];
    e, end := Entry([], 0, 0, 0, 0), 0;
    var nrLen := report[data + 1];
    if report[data] != EID_NEIGHBOR_REPORT || nrLen < NR_IE_MIN_LEN {
      return false, e, end;
    }
    if 2 + nrLen > |report| - data {
      return false, e, end;
    }
    end := data + 2 + nrLen;
    assert r[2 + NR_IE_MIN_LEN..2 + r[1]] == report[data + 2 + NR_IE_MIN_LEN..end];
    ok := SkipSubelements(report, data + 2 + NR_IE_MIN_LEN, end);
    if !ok {
      return;
    }
    var nr := data + 2;
    e := Entry(report[nr..nr + ETH_ALEN],
               GetLe32(report[nr + 6], report[nr + 7], report[nr + 8], report[nr + 9]),
               report[nr + ETH_ALEN + 4], report[nr + ETH_ALEN + 5], report[nr + ETH_ALEN + 6]);
  }

  /** The same loop without a buffer: it gets as far as the first piece of text. */
  method WithoutBuffer(report: seq<Byte>) returns (list: NeighborList)
    ensures list == if 2 + NR_IE_MIN_LEN <= |report| && ElementOk(report) then NullWrite else NoList
  {
    list := NoList;
    if |report| >= 2 + NR_IE_MIN_LEN {
      assert report[0..] == report;
      var ok, _, _ := ReadElement(report, 0);
      if ok {
        list := NullWrite;
      }
    }
  }

  /** `get_btm_neighbor_list`; an empty report stands for the null pointer too. */
  method GetBtmNeighborList(report: seq<Byte>, memory: bool) returns (list: NeighborList)
    ensures list.NullWrite? <==> !memory && 2 + NR_IE_MIN_LEN <= |report| && ElementOk(report)
    ensures list.NoList? <==>
      if memory then report == [] || ParseEntries(report) == None
      else |report| < 2 + NR_IE_MIN_LEN || !ElementOk(report)
    ensures list.List? ==>
      var es := ParseEntries(report).value;
      && (list.overrun <==> Overruns(es))
      && (!list.overrun ==> list.text == Shown(Lines(es)))
  {
    hide Holds, Line, Lines, Overruns, ElementOk, EntryAt;
    if |report| == 0 {
      return NoList;
    }
    if !memory {
      list := WithoutBuffer(report);
      return;
    }
    var buf := new char[MAX_NEIGHBOR_LEN](_ => '\0');
    EmptyHolds(buf[..]);
    var data: nat, reportLen, len, overrun := 0, |report|, 0, false;
    ghost var es: seq<Entry> := [];
    assert report[data..] == report;
    assert ParseEntries(report).Some? ==> [] + ParseEntries(report).value == ParseEntries(report).value;
    while reportLen >= 2 + NR_IE_MIN_LEN
      invariant 0 <= reportLen && data + reportLen == |report|
      invariant len == |Lines(es)| && (overrun <==> Overruns(es))
      invariant !overrun ==> Holds(buf[..], Lines(es))
      invariant ParseEntries(report) ==
        match ParseEntries(report[data..]) case None => None case Some(more) => Some(es + more)
    {
      var ok, e, end := ReadElement(report, data);
      if !ok {
        return NoList;
      }
      len, overrun := PrintNeighbor(buf, len, overrun, e, Lines(es));
      OneMoreLine(es, e);
      assert ParseEntries(report[end..]).Some? ==>
        es + ([e] + ParseEntries(report[end..]).value) == (es + [e]) + ParseEntries(report[end..]).value;
      es := es + [e];
      reportLen := reportLen - (end - data);
      data := end;
    }
    assert es + [] == es;
    HeldText(buf[..], Lines(es));
    list := List(buf[..if len < MAX_NEIGHBOR_LEN then len else MAX_NEIGHBOR_LEN - 1], overrun);
  }
}
