/** The Wi-Fi filter names of the `sniffer` command: an open-addressing hash table with
    exactly as many slots as names, and the filter word that the -F options add up to. */
module FilterTable {
  import opened Words
  import opened Pigeonhole

  const FILTER_MASK_ALL: Word32 := 0xFFFF_FFFF
  const FILTER_KEYS: seq<string> := ["mgmt", "data", "ctrl", "misc", "mpdu", "ampdu", "fcsfail"]

  datatype Slot = Free | Taken(name: string, val: Word32)

  /** The slot reached from `start` after `d` steps around a table of `n` slots. */
  function Around(start: nat, d: nat, n: nat): (s: nat)
    requires start < n && d <= n
    ensures s < n
  {
    if start + d < n then start + d else start + d - n
  }

  /** Going once around visits every slot exactly once. */
  lemma AroundVisits(start: nat, s: nat, n: nat) returns (d: nat)
    requires start < n && s < n
    ensures d < n && Around(start, d, n) == s
    ensures forall e | 0 <= e < n && Around(start, e, n) == s :: e == d
  {
    d := if start <= s then s - start else s + n - start;
  }

  /** From each slot the next one is its neighbour, and after the last comes the first. */
  lemma AroundSteps(start: nat, d: nat, n: nat)
    requires start < n && d < n
    ensures var s := Around(start, d, n); Around(start, d + 1, n) == if s + 1 == n then 0 else s + 1
    ensures Around(start, 0, n) == start
  {
  }

  // ---------------------------------------------------------------- the hash

  /** The sum of the characters in 32-bit arithmetic. */
  function CharSum(str: string): Word32 {
    if str == [] then 0
    else (CharSum(str[..|str| - 1]) + str[|str| - 1] as int) % 0x1_0000_0000
  }

  lemma SumsModulo(x: nat, y: nat, z: nat)
    ensures ((x + y) % 0x1_0000_0000 + z) % 0x1_0000_0000 == (x + (y + z) % 0x1_0000_0000) % 0x1_0000_0000
  {
    var q, r := (x + y) / 0x1_0000_0000, (y + z) / 0x1_0000_0000;
    assert (x + y) % 0x1_0000_0000 + z == x + y + z - q * 0x1_0000_0000;
    assert x + (y + z) % 0x1_0000_0000 == x + y + z - r * 0x1_0000_0000;
  }

  lemma OneChar(str: string, c: char)
    ensures CharSum(str + [c]) == (CharSum(str) + c as int) % 0x1_0000_0000
  {
    assert (str + [c])[..|str|] == str;
  }

  lemma EmptySum(c: char)
    ensures CharSum("") == 0 && CharSum([c]) == c as int
  {
    OneChar("", c);
    assert "" + [c] == [c];
  }

  lemma Appended(a: string, front: string, last: char)
    requires CharSum(a + front) == (CharSum(a) + CharSum(front)) % 0x1_0000_0000
    ensures CharSum(a + (front + [last])) == (CharSum(a) + CharSum(front + [last])) % 0x1_0000_0000
  {
    hide CharSum;
    OneChar(front, last);
    OneChar(a + front, last);
    SumsModulo(CharSum(a), CharSum(front), last as int);
    assert a + (front + [last]) == a + front + [last];
  }

  /** The sum of a concatenation is the sum of the sums, and that of one character its code. */
  lemma {:induction false} CharSumAdds(a: string, b: string)
    ensures CharSum(a + b) == (CharSum(a) + CharSum(b)) % 0x1_0000_0000
    ensures |a| == 1 ==> CharSum(a) == a[0] as int
  {
    hide CharSum;
    EmptySum(if a == "" then 'a' else a[0]);
    if b == [] {
      assert a + b == a;
    } else {
      var front, last := b[..|b| - 1], b[|b| - 1];
      CharSumAdds(a, front);
      Appended(a, front, last);
      assert b == front + [last];
    }
    if |a| == 1 { assert a == [a[0]]; }
  }

  method HashFunc(str: string, maxNum: nat) returns (idx: nat)
    requires maxNum > 0
    ensures idx == CharSum(str) % maxNum
  {
    var ret: Word32 := 0;
    for p := 0 to |str|
      invariant ret == CharSum(str[..p])
    {
      assert str[..p + 1][..p] == str[..p];
      ret := (ret + str[p] as int) % 0x1_0000_0000;
    }
    assert str[..|str|] == str;
    idx := ret % maxNum;
  }

  // ---------------------------------------------------------------- what a search finds

  /** `strncmp(name, key, strlen(key)) == 0`: the name begins with the key. */
  predicate Matches(slot: Slot, key: string) { slot.Taken? && key <= slot.name }

  /** The first step, from step `d` on, at which the slot's name begins with the key; the
      number of slots when there is none. */
  function FirstMatch(table: seq<Slot>, key: string, start: nat, d: nat): (r: nat)
    requires start < |table| && d <= |table|
    ensures d <= r <= |table|
    ensures forall e | d <= e < r :: !Matches(table[Around(start, e, |table|)], key)
    ensures r < |table| ==> Matches(table[Around(start, r, |table|)], key)
    decreases |table| - d
  {
    if d == |table| then d
    else if Matches(table[Around(start, d, |table|)], key) then d
    else FirstMatch(table, key, start, d + 1)
  }

  function Lookup(table: seq<Slot>, key: string, start: nat): Word32
    requires start < |table|
  {
    var d := FirstMatch(table, key, start, 0);
    if d == |table| then 0
    else
      var slot := table[Around(start, d, |table|)];
      if slot.Taken? then slot.val else 0
  }

  /** The answer is the value in the first slot, going around from `start`, whose name begins
      with the key. */
  lemma FirstMatchAnswers(table: seq<Slot>, key: string, start: nat, d: nat)
    requires start < |table| && d < |table|
    requires var slot := table[Around(start, d, |table|)]; slot.Taken? && key <= slot.name
    requires forall e | 0 <= e < d ::
      var slot := table[Around(start, e, |table|)]; slot.Taken? ==> !(key <= slot.name)
    ensures Lookup(table, key, start) == table[Around(start, d, |table|)].val
  {
    var f := FirstMatch(table, key, start, 0);
    assert Matches(table[Around(start, d, |table|)], key);
    assert forall e | 0 <= e < d :: !Matches(table[Around(start, e, |table|)], key);
    assert f == d;
  }

  /** `slotOf[j]` is the slot that holds key j and its value; no slot holds two keys. */
  ghost predicate Placed(table: seq<Slot>, keys: seq<string>, values: seq<Word32>, slotOf: seq<nat>)
    requires |values| == |keys|
  {
    && |slotOf| <= |keys| && Distinct(slotOf)
    && (forall j | 0 <= j < |slotOf| ::
         slotOf[j] < |table| && table[slotOf[j]] == Taken(keys[j], values[j]))
    && (forall s | 0 <= s < |table| :: table[s].Taken? ==> s in slotOf)
  }

  /** Every key has a slot, and there are as many slots as keys. */
  ghost predicate Filled(table: seq<Slot>, keys: seq<string>, values: seq<Word32>, slotOf: seq<nat>) {
    |keys| == |values| == |table| == |slotOf| && Placed(table, keys, values, slotOf)
  }

  lemma FilledHasNoFreeSlot(table: seq<Slot>, keys: seq<string>, values: seq<Word32>, slotOf: seq<nat>, s: nat)
    returns (j: nat)
    requires Filled(table, keys, values, slotOf) && s < |table|
    ensures j < |keys| && table[s] == Taken(keys[j], values[j]) && slotOf[j] == s
  {
    DistinctCovers(slotOf);
    assert s in slotOf;
    j :| 0 <= j < |slotOf| && slotOf[j] == s;
  }

  /** While fewer keys than slots are placed, there is a free slot. */
  lemma SomeSlotIsFree(table: seq<Slot>, keys: seq<string>, values: seq<Word32>, slotOf: seq<nat>)
    requires |values| == |keys| && Placed(table, keys, values, slotOf) && |slotOf| < |table|
    ensures exists s :: 0 <= s < |table| && table[s].Free?
  {
    if forall s | 0 <= s < |table| :: table[s].Taken? {
      assert Covers(slotOf, 0, |table|);
      CoverNeeds(slotOf, 0, |table|);
    }
  }

  /** A key that begins exactly one of the names gets that name's value, wherever its hash
      starts the search. */
  lemma OnlyMatchIsFound(table: seq<Slot>, keys: seq<string>, values: seq<Word32>, slotOf: seq<nat>,
                         key: string, j: nat, start: nat)
    requires Filled(table, keys, values, slotOf) && j < |keys| && start < |table|
    requires forall i | 0 <= i < |keys| :: key <= keys[i] <==> i == j
    ensures Lookup(table, key, start) == values[j]
  {
    var n := |table|;
    var d := AroundVisits(start, slotOf[j], n);
    assert Matches(table[slotOf[j]], key);
    var f := FirstMatch(table, key, start, 0);
    var i := FilledHasNoFreeSlot(table, keys, values, slotOf, Around(start, f, n));
  }

  ghost predicate PrefixFree(keys: seq<string>) {
    forall i, j | 0 <= i < |keys| && 0 <= j < |keys| :: keys[i] <= keys[j] ==> i == j
  }

  /** The table is a map: among names none of which begins another, each finds its own value. */
  lemma EachNameFindsItsValue(table: seq<Slot>, keys: seq<string>, values: seq<Word32>, slotOf: seq<nat>,
                              j: nat, start: nat)
    requires Filled(table, keys, values, slotOf) && PrefixFree(keys) && j < |keys| && start < |table|
    ensures Lookup(table, keys[j], start) == values[j]
  {
    assert keys[j] <= keys[j];
    OnlyMatchIsFound(table, keys, values, slotOf, keys[j], j, start);
  }

  /** With non-zero values, 0 comes back exactly for a key that begins no name. */
  lemma ZeroIffNoName(table: seq<Slot>, keys: seq<string>, values: seq<Word32>, slotOf: seq<nat>,
                      key: string, start: nat)
    requires Filled(table, keys, values, slotOf) && start < |table|
    requires forall j | 0 <= j < |values| :: values[j] != 0
    ensures Lookup(table, key, start) == 0 <==> forall j | 0 <= j < |keys| :: !(key <= keys[j])
  {
    var n := |table|;
    var f := FirstMatch(table, key, start, 0);
    if f < n {
      var i := FilledHasNoFreeSlot(table, keys, values, slotOf, Around(start, f, n));
    } else {
      forall j | 0 <= j < |keys|
        ensures !(key <= keys[j])
      {
        var d := AroundVisits(start, slotOf[j], n);
        assert !Matches(table[Around(start, d, n)], key);
      }
    }
  }

  /** When a key begins names with different values, the answer depends on where the hash
      starts the search: it is unique for every start exactly when all these names agree. */
  lemma AnswerIsFixedIffMatchesAgree(table: seq<Slot>, keys: seq<string>, values: seq<Word32>, slotOf: seq<nat>,
                                     key: string)
    requires Filled(table, keys, values, slotOf)
    ensures (forall a, b | 0 <= a < |table| && 0 <= b < |table| :: Lookup(table, key, a) == Lookup(table, key, b))
       <==> (forall i, j | 0 <= i < |keys| && 0 <= j < |keys| && key <= keys[i] && key <= keys[j] ::
              values[i] == values[j])
  {
    var n := |table|;
    forall i | 0 <= i < |keys| && key <= keys[i]
      ensures Lookup(table, key, slotOf[i]) == values[i]
    {
      assert Around(slotOf[i], 0, n) == slotOf[i];
    }
    forall a | 0 <= a < n
      ensures var f := FirstMatch(table, key, a, 0);
        if f == n then forall j | 0 <= j < |keys| :: !(key <= keys[j])
        else exists i :: 0 <= i < |keys| && key <= keys[i] && Lookup(table, key, a) == values[i]
    {
      var f := FirstMatch(table, key, a, 0);
      if f < n {
        var i := FilledHasNoFreeSlot(table, keys, values, slotOf, Around(a, f, n));
      } else {
        forall j | 0 <= j < |keys|
          ensures !(key <= keys[j])
        {
          var d := AroundVisits(a, slotOf[j], n);
          assert !Matches(table[Around(a, d, n)], key);
        }
      }
    }
  }

  /** The seven filter names: none begins another. */
  lemma FilterKeysArePrefixFree()
    ensures PrefixFree(FILTER_KEYS)
  {
    forall i, j | 0 <= i < |FILTER_KEYS| && 0 <= j < |FILTER_KEYS| && i != j
      ensures !(FILTER_KEYS[i] <= FILTER_KEYS[j])
    {
      var a, b := FILTER_KEYS[i], FILTER_KEYS[j];
      assert a[0] != b[0] || a[1] != b[1];
    }
  }

  // ---------------------------------------------------------------- the table in memory

  /** Addition of `uint32_t` values, and that it keeps a running sum. */
  function WordSum(a: Word32, b: Word32): (r: Word32)
    ensures forall n: nat | n % 0x1_0000_0000 == a :: r == (n + b) % 0x1_0000_0000
  {
    (a + b) % 0x1_0000_0000
  }

  function Value(table: seq<Slot>, hash: string -> nat, key: string): Word32
    requires |table| > 0
  {
    Lookup(table, key, hash(key) % |table|)
  }

  function Sum(table: seq<Slot>, hash: string -> nat, args: seq<string>): nat
    requires |table| > 0
  {
    if args == [] then 0
    else Sum(table, hash, args[..|args| - 1]) + Value(table, hash, args[|args| - 1])
  }

  function FilterWord(table: seq<Slot>, hash: string -> nat, args: seq<string>): Word32
    requires |table| > 0
  {
    var word := Sum(table, hash, args) % 0x1_0000_0000;
    if word == 0 then FILTER_MASK_ALL else word
  }

  class WifiFilterTable {
    const slots: array<Slot>

    ghost predicate Full()
      reads slots
    {
      slots.Length > 0 && forall s | 0 <= s < slots.Length :: slots[s].Taken?
    }

    constructor (n: nat)
      ensures slots.Length == n && fresh(slots) && forall s | 0 <= s < n :: slots[s].Free?
    {
      slots := new Slot[n](_ => Free);
    }

    /** `create_wifi_filter_hashtable`, for any hash function and any names. */
    method Create(hash: string -> nat, keys: seq<string>, values: seq<Word32>) returns (ghost slotOf: seq<nat>)
      requires |keys| == |values| == slots.Length
      requires forall s | 0 <= s < slots.Length :: slots[s].Free?
      modifies slots
      ensures Filled(slots[..], keys, values, slotOf)
      ensures slots.Length > 0 ==> Full()
    {
      slotOf := [];
      for i := 0 to |keys|
        invariant |slotOf| == i && Placed(slots[..], keys, values, slotOf)
      {
        var idx := FindFree(hash(keys[i]) % slots.Length, keys, values, slotOf);
        slots[idx] := Taken(keys[i], values[i]);
        slotOf := slotOf + [idx];
      }
      forall s | 0 <= s < slots.Length
        ensures slots[s].Taken?
      {
        var j := FilledHasNoFreeSlot(slots[..], keys, values, slotOf, s);
        assert slots[..][s] == slots[s];
      }
    }

    /** The inner loop of the fill: the first free slot from `start` on, going around. */
    method FindFree(start: nat, ghost keys: seq<string>, ghost values: seq<Word32>, ghost slotOf: seq<nat>)
      returns (idx: nat)
      requires start < slots.Length && |values| == |keys|
      requires Placed(slots[..], keys, values, slotOf) && |slotOf| < slots.Length
      ensures idx < slots.Length && slots[idx].Free? && idx !in slotOf
      ensures exists d | 0 <= d < slots.Length ::
                && Around(start, d, slots.Length) == idx
                && forall e | 0 <= e < d :: slots[Around(start, e, slots.Length)].Taken?
    {
      SomeSlotIsFree(slots[..], keys, values, slotOf);
      ghost var free :| 0 <= free < slots.Length && slots[free].Free?;
      ghost var last := AroundVisits(start, free, slots.Length);
      idx := start;
      ghost var d := 0;
      while slots[idx].Taken?
        invariant 0 <= d <= last && idx == Around(start, d, slots.Length)
        invariant forall e | 0 <= e < d :: slots[Around(start, e, slots.Length)].Taken?
        decreases last - d
      {
        idx := idx + 1;
        if idx >= slots.Length {
          idx := 0;
        }
        d := d + 1;
      }
      assert forall j | 0 <= j < |slotOf| :: slots[..][slotOf[j]].Taken?;
    }

    /** `search_wifi_filter_hashtable`; `probes` counts the slots looked at. */
    method Search(hash: string -> nat, key: string) returns (val: Word32, probes: nat)
      requires Full()
      ensures val == Lookup(slots[..], key, hash(key) % slots.Length)
      ensures var d := FirstMatch(slots[..], key, hash(key) % slots.Length, 0);
        probes == if d < slots.Length then d + 1 else slots.Length
    {
      var startIdx := hash(key) % slots.Length;
      var idx := startIdx;
      ghost var table := slots[..];
      probes := 1;
      while !(key <= slots[idx].name)
        invariant 1 <= probes <= slots.Length && idx == Around(startIdx, probes - 1, slots.Length)
        invariant FirstMatch(table, key, startIdx, 0) == FirstMatch(table, key, startIdx, probes - 1)
        decreases slots.Length - probes
      {
        assert !Matches(table[idx], key);
        idx := idx + 1;
        if idx >= slots.Length {
          idx := 0;
        }
        if idx == startIdx {
          return 0, probes;
        }
        probes := probes + 1;
      }
      assert Matches(table[idx], key);
      return slots[idx].val, probes;
    }

    // -------------------------------------------------------------- the -F options

    /** The -F loop of `do_sniffer_cmd`. */
    method SelectFilter(hash: string -> nat, args: seq<string>) returns (filter: Word32)
      requires Full()
      ensures filter == FilterWord(slots[..], hash, args)
    {
      hide Lookup, FirstMatch, Around, Matches;
      if |args| == 0 {
        return FILTER_MASK_ALL;
      }
      ghost var table := slots[..];
      filter := 0;
      for i := 0 to |args|
        invariant filter == Sum(table, hash, args[..i]) % 0x1_0000_0000
      {
        var val, _ := Search(hash, args[i]);
        assert args[..i + 1][..i] == args[..i];
        filter := WordSum(filter, val);
      }
      assert args[..|args|] == args;
      if filter == 0 {
        filter := FILTER_MASK_ALL;
      }
    }
  }
}
