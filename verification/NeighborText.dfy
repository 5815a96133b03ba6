/** The neighbor list loses nothing: the text determines the entries it was made of. */
module NeighborText {
  import opened Words
  import opened NeighborReport

  // ---------------------------------------------------------------- numbers

  predicate IsDigit(c: char) { '0' <= c <= '9' || 'a' <= c <= 'f' }

  predicate Digits(s: string) { forall i | 0 <= i < |s| :: IsDigit(s[i]) }

  function ValueOf(c: char): nat
    requires IsDigit(c)
  {
    if c <= '9' then (c - '0') as nat else (c - 'a') as nat + 10
  }

  function Value(s: string, base: nat): nat
    requires Digits(s)
  {
    if s == "" then 0 else base * Value(s[..|s| - 1], base) + ValueOf(s[|s| - 1])
  }

  lemma DigitValue(d: nat)
    requires d < 16
    ensures IsDigit(Digit(d)) && ValueOf(Digit(d)) == d
  {
  }

  lemma ValueSnoc(s: string, d: nat, base: nat)
    requires Digits(s) && d < 16
    ensures Digits(s + [Digit(d)]) && Value(s + [Digit(d)], base) == base * Value(s, base) + d
  {
    DigitValue(d);
    assert (s + [Digit(d)])[..|s|] == s;
  }

  lemma {:induction false} DecValue(n: nat)
    ensures Digits(Dec(n)) && Value(Dec(n), 10) == n
  {
    if n < 10 {
      ValueSnoc("", n, 10);
      assert Dec(n) == "" + [Digit(n)];
    } else {
      DecValue(n / 10);
      ValueSnoc(Dec(n / 10), n % 10, 10);
    }
  }

  lemma {:induction false} HexValue(n: nat, width: nat)
    ensures Digits(Hex(n, width)) && Value(Hex(n, width), 16) == n
    decreases n, width
  {
    if n < 16 && width <= 1 {
      ValueSnoc("", n, 16);
      assert Hex(n, width) == "" + [Digit(n)];
    } else {
      var w := if width == 0 then 0 else width - 1;
      HexValue(n / 16, w);
      ValueSnoc(Hex(n / 16, w), n % 16, 16);
    }
  }

  lemma HexByteLength(b: Byte)
    ensures |Hex(b, 2)| == 2
  {
    assert |Hex(b / 16, 1)| == 1;
  }

  // ---------------------------------------------------------------- the only numerals

  /** Digits of this base, at least one. */
  predicate Numeral(s: string, base: nat) {
    s != "" && Digits(s) && forall i | 0 <= i < |s| :: ValueOf(s[i]) < base
  }

  /** Not longer than `width`, or without a leading zero. */
  predicate Tight(s: string, width: nat) { |s| > 1 && |s| > width ==> s[0] != '0' }

  lemma {:induction false} DecIsNumeral(n: nat)
    ensures Numeral(Dec(n), 10) && Tight(Dec(n), 1) && (Dec(n)[0] == '0' ==> n == 0)
  {
    if n < 10 {
      DigitValue(n);
    } else {
      DecIsNumeral(n / 10);
      DigitValue(n % 10);
    }
  }

  lemma {:induction false} HexIsNumeral(n: nat, width: nat)
    ensures Numeral(Hex(n, width), 16) && Tight(Hex(n, width), width) && width <= |Hex(n, width)|
    ensures |Hex(n, width)| > width && Hex(n, width)[0] == '0' ==> n == 0
    decreases n, width
  {
    if n < 16 && width <= 1 {
      DigitValue(n);
    } else {
      HexIsNumeral(n / 16, if width == 0 then 0 else width - 1);
      DigitValue(n % 16);
    }
  }

  lemma SameDigit(c: char, d: char)
    requires IsDigit(c) && IsDigit(d) && ValueOf(c) == ValueOf(d)
    ensures c == d
  {
  }

  lemma NextMultiple(v: nat, base: nat)
    ensures base * (v + 1) == base * v + base
  {
  }

  lemma {:induction false} Multiples(u: nat, v: nat, base: nat)
    requires u < v
    ensures base * u + base <= base * v
  {
    NextMultiple(v - 1, base);
    if u < v - 1 { Multiples(u, v - 1, base); }
  }

  /** Equal values have equal last digits, and equal values before them. */
  lemma LastDigits(s: string, t: string, base: nat)
    requires Numeral(s, base) && Numeral(t, base) && Value(s, base) == Value(t, base)
    ensures s[|s| - 1] == t[|t| - 1] && Value(s[..|s| - 1], base) == Value(t[..|t| - 1], base)
  {
    var u, v := Value(s[..|s| - 1], base), Value(t[..|t| - 1], base);
    if u < v { Multiples(u, v, base); } else if v < u { Multiples(v, u, base); }
    assert ValueOf(s[|s| - 1]) < base && ValueOf(t[|t| - 1]) < base;
    SameDigit(s[|s| - 1], t[|t| - 1]);
  }

  lemma SameDigitZero(c: char)
    requires IsDigit(c) && c != '0'
    ensures 0 < ValueOf(c)
  {
  }

  /** A numeral without a leading zero has no value below its first digit. */
  lemma {:induction false} Leading(s: string, base: nat)
    requires Numeral(s, base) && s[0] != '0' && 1 < base
    ensures 0 < Value(s, base)
  {
    if |s| == 1 {
      assert Value(s[..0], base) == 0;
      SameDigitZero(s[0]);
    } else {
      Leading(s[..|s| - 1], base);
    }
  }

  /** Two numerals of one length and one value are the same. */
  lemma {:induction false} OneNumeral(s: string, t: string, base: nat)
    requires Numeral(s, base) && Numeral(t, base) && |s| == |t| && Value(s, base) == Value(t, base) && 1 < base
    ensures s == t
  {
    LastDigits(s, t, base);
    if |s| > 1 { OneNumeral(s[..|s| - 1], t[..|t| - 1], base); }
    assert s == s[..|s| - 1] + [s[|s| - 1]] && t == t[..|t| - 1] + [t[|t| - 1]];
  }

  /** Of two numerals of one value a longer one begins with a zero. */
  lemma {:induction false} LongerHasZero(s: string, t: string, base: nat)
    requires Numeral(s, base) && Numeral(t, base) && |s| < |t| && Value(s, base) == Value(t, base) && 1 < base
    ensures t[0] == '0'
  {
    LastDigits(s, t, base);
    if |s| > 1 {
      LongerHasZero(s[..|s| - 1], t[..|t| - 1], base);
    } else if t[0] != '0' {
      Leading(t[..|t| - 1], base);
      assert false;
    }
  }

  /** The decimal text is the only numeral of its value without a leading zero. */
  lemma OnlyDec(s: string, n: nat)
    requires Numeral(s, 10) && Tight(s, 1) && Value(s, 10) == n
    ensures s == Dec(n)
  {
    DecIsNumeral(n);
    DecValue(n);
    if |s| < |Dec(n)| { LongerHasZero(s, Dec(n), 10); }
    else if |Dec(n)| < |s| { LongerHasZero(Dec(n), s, 10); }
    else { OneNumeral(s, Dec(n), 10); }
  }

  /** The padded hexadecimal text is the only numeral of its value with at least this width
      and no more zeros in front than that takes. */
  lemma OnlyHex(s: string, n: nat, width: nat)
    requires Numeral(s, 16) && Tight(s, width) && width <= |s| && Value(s, 16) == n
    ensures s == Hex(n, width)
  {
    HexIsNumeral(n, width);
    HexValue(n, width);
    if |s| < |Hex(n, width)| { LongerHasZero(s, Hex(n, width), 16); }
    else if |Hex(n, width)| < |s| { LongerHasZero(Hex(n, width), s, 16); }
    else { OneNumeral(s, Hex(n, width), 16); }
  }

  // ---------------------------------------------------------------- separators

  predicate Without(s: string, c: char) { forall i | 0 <= i < |s| :: s[i] != c }

  /** Two texts that are equal up to and including the first separator and after it. */
  lemma SplitAtFirst(a: string, x: string, b: string, y: string, c: char)
    requires a + [c] + x == b + [c] + y && Without(a, c) && Without(b, c)
    ensures a == b && x == y
  {
    var s, t := a + [c] + x, b + [c] + y;
    assert s[|a|] == c && t[|b|] == c;
    assert a == s[..|a|] && b == t[..|b|];
    assert x == s[|a| + 1..] && y == t[|b| + 1..];
  }

  lemma {:induction false} MacDeterminesBytes(m: seq<Byte>, n: seq<Byte>)
    requires |m| == |n| && MacText(m) == MacText(n)
    ensures m == n
  {
    if m != [] {
      HexByteLength(m[0]);
      HexByteLength(n[0]);
      assert Hex(m[0], 2) == MacText(m)[..2] == MacText(n)[..2] == Hex(n[0], 2);
      HexValue(m[0], 2);
      HexValue(n[0], 2);
      if |m| > 1 {
        assert MacText(m[1..]) == MacText(m)[3..] == MacText(n)[3..] == MacText(n[1..]);
        MacDeterminesBytes(m[1..], n[1..]);
      }
      assert m == [m[0]] + m[1..] && n == [n[0]] + n[1..];
    }
  }

  lemma {:induction false} MacSeparators(m: seq<Byte>)
    ensures Without(MacText(m), ',') && Without(MacText(m), ' ')
  {
    if m != [] {
      HexValue(m[0], 2);
      MacSeparators(m[1..]);
    }
  }

  // ---------------------------------------------------------------- lines

  lemma Regrouped(m: string, h: string, o: string, c: string, p: string)
    ensures m + "," + h + "," + (o + "," + c + ",") + p == m + [','] + (h + [','] + (o + [','] + (c + [','] + p)))
  {
    var rest := c + [','] + p;
    assert (o + "," + c + ",") + p == o + [','] + rest;
    assert m + "," + h + "," + (o + "," + c + ",") + p == m + [','] + h + [','] + ((o + "," + c + ",") + p);
  }

  lemma LineShape(e: Entry)
    ensures Line(e) == (" neighbor=" + MacText(e.bssid)) + [','] + (("0x" + Hex(e.info, 4)) + [','] +
      (Dec(e.opClass) + [','] + (Dec(e.channel) + [','] + Dec(e.phyType))))
  {
    hide Hex, Dec, MacText;
    Regrouped(" neighbor=" + MacText(e.bssid), "0x" + Hex(e.info, 4), Dec(e.opClass), Dec(e.channel), Dec(e.phyType));
  }

  lemma FieldsHaveNoSeparators(e: Entry)
    ensures Without(" neighbor=" + MacText(e.bssid), ',') && Without("0x" + Hex(e.info, 4), ',')
    ensures Without(Dec(e.opClass), ',') && Without(Dec(e.channel), ',')
  {
    MacSeparators(e.bssid);
    HexValue(e.info, 4);
    DecValue(e.opClass);
    DecValue(e.channel);
  }

  lemma WithoutJoin(a: string, b: string, c: char)
    requires Without(a, c) && Without(b, c)
    ensures Without(a + b, c)
  {
  }

  lemma SpacelessFields(e: Entry)
    ensures Without("neighbor=" + MacText(e.bssid) + [','], ' ') && Without("0x" + Hex(e.info, 4) + [','], ' ')
    ensures Without(Dec(e.opClass) + [','], ' ') && Without(Dec(e.channel) + [','], ' ') && Without(Dec(e.phyType), ' ')
  {
    hide Hex, Dec, MacText;
    MacSeparators(e.bssid);
    HexValue(e.info, 4);
    DecValue(e.opClass);
    DecValue(e.channel);
    DecValue(e.phyType);
  }

  lemma OneSpace(e: Entry)
    ensures Line(e) != "" && Line(e)[0] == ' ' && Without(Line(e)[1..], ' ')
  {
    hide Hex, Dec, MacText, Line, Without;
    LineShape(e);
    SpacelessFields(e);
    var mac := "neighbor=" + MacText(e.bssid);
    var o, c, p := Dec(e.opClass), Dec(e.channel) + [','], Dec(e.phyType);
    var h := "0x" + Hex(e.info, 4);
    WithoutJoin(c, p, ' ');
    WithoutJoin(o + [','], c + p, ' ');
    WithoutJoin(h + [','], (o + [',']) + (c + p), ' ');
    WithoutJoin(mac + [','], (h + [',']) + ((o + [',']) + (c + p)), ' ');
    assert Line(e) == [' '] + ((mac + [',']) + ((h + [',']) + ((o + [',']) + (c + p))));
  }

  lemma LineDeterminesEntry(d: Entry, e: Entry)
    requires d.Valid() && e.Valid() && Line(d) == Line(e)
    ensures d == e
  {
    hide Line;
    LineShape(d);
    LineShape(e);
    FieldsHaveNoSeparators(d);
    FieldsHaveNoSeparators(e);
    var dRest2 := Dec(d.channel) + [','] + Dec(d.phyType);
    var eRest2 := Dec(e.channel) + [','] + Dec(e.phyType);
    var dRest1 := Dec(d.opClass) + [','] + dRest2;
    var eRest1 := Dec(e.opClass) + [','] + eRest2;
    var dHex, eHex := "0x" + Hex(d.info, 4), "0x" + Hex(e.info, 4);
    SplitAtFirst(" neighbor=" + MacText(d.bssid), dHex + [','] + dRest1,
                 " neighbor=" + MacText(e.bssid), eHex + [','] + eRest1, ',');
    SplitAtFirst(dHex, dRest1, eHex, eRest1, ',');
    SplitAtFirst(Dec(d.opClass), dRest2, Dec(e.opClass), eRest2, ',');
    SplitAtFirst(Dec(d.channel), Dec(d.phyType), Dec(e.channel), Dec(e.phyType), ',');
    assert MacText(d.bssid) == (" neighbor=" + MacText(d.bssid))[10..];
    assert MacText(e.bssid) == (" neighbor=" + MacText(e.bssid))[10..];
    MacDeterminesBytes(d.bssid, e.bssid);
    assert Hex(d.info, 4) == dHex[2..] && Hex(e.info, 4) == eHex[2..];
    HexValue(d.info, 4);
    HexValue(e.info, 4);
    DecValue(d.opClass);
    DecValue(e.opClass);
    DecValue(d.channel);
    DecValue(e.channel);
    DecValue(d.phyType);
    DecValue(e.phyType);
  }

  /** The parts of a text between the separators. */
  function Split(s: string, c: char): seq<string> {
    if s == "" then [""]
    else if s[0] == c then [""] + Split(s[1..], c)
    else
      var parts := Split(s[1..], c);
      if parts == [] then [] else [[s[0]] + parts[0]] + parts[1..]
  }

  lemma {:induction false} SplitFirst(a: string, c: char, rest: string)
    requires Without(a, c)
    ensures Split(a + [c] + rest, c) == [a] + Split(rest, c) && Split(a, c) == [a]
  {
    if a != "" {
      SplitFirst(a[1..], c, rest);
      assert (a + [c] + rest)[1..] == a[1..] + [c] + rest;
      assert a == [a[0]] + a[1..];
    } else {
      assert ("" + [c] + rest)[1..] == rest;
    }
  }

  lemma HexWithoutColon(b: Byte)
    ensures Without(Hex(b, 2), ':')
  {
    HexValue(b, 2);
  }

  /** The parts of the MAC text are its bytes, two digits each. */
  lemma {:induction false} MacReads(m: seq<Byte>)
    requires m != []
    ensures Split(MacText(m), ':') == seq(|m|, i requires 0 <= i < |m| => Hex(m[i], 2))
  {
    hide Split, Hex;
    HexWithoutColon(m[0]);
    if |m| == 1 {
      SplitFirst(Hex(m[0], 2), ':', "");
    } else {
      MacReads(m[1..]);
      SplitFirst(Hex(m[0], 2), ':', MacText(m[1..]));
      assert MacText(m) == Hex(m[0], 2) + [':'] + MacText(m[1..]);
    }
  }

  lemma PhyHasNoSeparator(e: Entry)
    ensures Without(Dec(e.phyType), ',')
  {
    DecValue(e.phyType);
  }

  /** A line read back: its parts between commas are the address with its bytes between
      colons, the information word in hexadecimal, and the three numbers in this order. */
  lemma LineReads(e: Entry)
    requires e.Valid()
    ensures var parts := Split(Line(e), ',');
      && |parts| == 5 && " neighbor=" <= parts[0] && "0x" <= parts[1]
      && Split(parts[0][10..], ':') == seq(ETH_ALEN, i requires 0 <= i < ETH_ALEN => Hex(e.bssid[i], 2))
      && parts[1][2..] == Hex(e.info, 4)
      && parts[2] == Dec(e.opClass) && parts[3] == Dec(e.channel) && parts[4] == Dec(e.phyType)
  {
    hide Line, Split, Hex, Dec, MacText, Without;
    LineShape(e);
    FieldsHaveNoSeparators(e);
    PhyHasNoSeparator(e);
    var mac, info := " neighbor=" + MacText(e.bssid), "0x" + Hex(e.info, 4);
    var rest3 := Dec(e.phyType);
    var rest2 := Dec(e.channel) + [','] + rest3;
    var rest1 := Dec(e.opClass) + [','] + rest2;
    var rest0 := info + [','] + rest1;
    SplitFirst(mac, ',', rest0);
    SplitFirst(info, ',', rest1);
    SplitFirst(Dec(e.opClass), ',', rest2);
    SplitFirst(Dec(e.channel), ',', rest3);
    SplitFirst(rest3, ',', "");
    MacReads(e.bssid);
    assert mac[10..] == MacText(e.bssid) && info[2..] == Hex(e.info, 4);
  }

  /** Two texts whose last space starts their last line. */
  lemma SplitAtLast(x: string, l: string, y: string, m: string)
    requires x + l == y + m && l != "" && m != ""
    requires l[0] == ' ' == m[0] && Without(l[1..], ' ') && Without(m[1..], ' ')
    ensures x == y && l == m
  {
    var s := x + l;
    assert s[|x|] == ' ' && (y + m)[|y|] == ' ';
    assert x == s[..|x|] && y == (y + m)[..|y|];
    assert l == s[|x|..] && m == (y + m)[|y|..];
  }

  /** Different lists of neighbors have different texts. */
  lemma {:induction false} TextDeterminesEntries(ds: seq<Entry>, es: seq<Entry>)
    requires EntriesValid(ds) && EntriesValid(es) && Lines(ds) == Lines(es)
    ensures ds == es
  {
    hide Line;
    if ds != [] { OneSpace(ds[|ds| - 1]); }
    if es != [] { OneSpace(es[|es| - 1]); }
    if ds != [] && es != [] {
      var d, e := ds[|ds| - 1], es[|es| - 1];
      SplitAtLast(Lines(ds[..|ds| - 1]), Line(d), Lines(es[..|es| - 1]), Line(e));
      LineDeterminesEntry(d, e);
      TextDeterminesEntries(ds[..|ds| - 1], es[..|es| - 1]);
      assert ds == ds[..|ds| - 1] + [d] && es == es[..|es| - 1] + [e];
    }
  }

  lemma EntriesOfValid(ns: seq<Element>)
    requires AllValid(ns)
    ensures EntriesValid(Entries(ns)) && |Entries(ns)| == |ns|
  {
  }

  /** The buffer shows 511 characters at most, and a text of that length in full. */
  lemma ShownInFullIff(text: string)
    ensures Shown(text) <= text && (Shown(text) == text <==> |text| <= 511)
    ensures |text| >= 511 ==> |Shown(text)| == 511
  {
  }

  lemma TenFit(es: seq<Entry>)
    requires EntriesValid(es) && |es| <= 10
    ensures !Overruns(es) && Shown(Lines(es)) == Lines(es)
  {
    hide Lines;
    LinesLength(es);
  }

  /** What a report of at most ten well-formed elements gives: a text that holds all of
      them in order, from which they can be read back. */
  lemma ReportRoundTrip(ns: seq<Element>, ms: seq<Element>, tail: seq<Byte>)
    requires AllValid(ns) && AllValid(ms) && |tail| < 2 + NR_IE_MIN_LEN && |ns| <= 10
    ensures ParseEntries(ReportBytes(ns) + tail) == Some(Entries(ns))
    ensures !Overruns(Entries(ns)) && Shown(Lines(Entries(ns))) == Lines(Entries(ns))
    ensures Lines(Entries(ns)) == Lines(Entries(ms)) ==> Entries(ns) == Entries(ms)
  {
    hide Lines, ParseEntries, ReportBytes, EntriesValid, Entries, Overruns, Shown;
    ParseUndoesSerialise(ns, tail);
    EntriesOfValid(ns);
    EntriesOfValid(ms);
    TenFit(Entries(ns));
    if Lines(Entries(ns)) == Lines(Entries(ms)) { TextDeterminesEntries(Entries(ns), Entries(ms)); }
  }
}
