/** When the -F options of the `sniffer` command select the union of the named filters. */
module FilterUnion {
  import opened Bits
  import opened FilterTable

  /** Filter values are single bits; `MASK_BITS` of them fit with room for every option. */
  const MASK_BITS := 29
  const MAX_FILTER_ARGS := 7

  predicate Bit(w: nat, b: nat) {
    if b == 0 then w % 2 == 1 else Bit(w / 2, b - 1)
  }

  /** Adding a bit that is not set changes that bit and no other. */
  lemma {:induction false} AddBit(w: nat, c: nat, b: nat)
    requires !Bit(w, c)
    ensures Bit(w + Pow2(c), b) <==> b == c || Bit(w, b)
  {
    if c > 0 {
      assert (w + Pow2(c)) / 2 == w / 2 + Pow2(c - 1) && (w + Pow2(c)) % 2 == w % 2;
      if b > 0 {
        AddBit(w / 2, c - 1, b - 1);
      }
    }
  }

  // ---------------------------------------------------------------- the union of masks

  /** The bitwise or of single-bit masks below `Pow2(n)`. */
  function OrWord(masks: set<nat>, n: nat): nat {
    if n == 0 then 0
    else OrWord(masks, n - 1) + if Pow2(n - 1) in masks then Pow2(n - 1) else 0
  }

  lemma {:induction false} NoHighBit(w: nat, b: nat)
    requires w < Pow2(b)
    ensures !Bit(w, b)
  {
    if b > 0 {
      NoHighBit(w / 2, b - 1);
    }
  }

  lemma {:induction false} OrWordFits(masks: set<nat>, n: nat)
    ensures OrWord(masks, n) < Pow2(n)
  {
    if n > 0 {
      OrWordFits(masks, n - 1);
    }
  }

  /** Its bits are exactly the given masks. */
  lemma {:induction false} OrWordBits(masks: set<nat>, n: nat, b: nat)
    ensures Bit(OrWord(masks, n), b) <==> b < n && Pow2(b) in masks
  {
    if n == 0 {
      NoHighBit(0, b);
    } else {
      OrWordBits(masks, n - 1, b);
      OrWordBits(masks, n - 1, n - 1);
      if Pow2(n - 1) in masks {
        AddBit(OrWord(masks, n - 1), n - 1, b);
      }
    }
  }

  lemma {:induction false} OrWordAdd(masks: set<nat>, c: nat, n: nat)
    requires Pow2(c) !in masks
    ensures OrWord(masks + {Pow2(c)}, n) == OrWord(masks, n) + if c < n then Pow2(c) else 0
  {
    if n > 0 {
      OrWordAdd(masks, c, n - 1);
      if c < n - 1 {
        Pow2Grows(c, n - 1);
      } else if n - 1 < c {
        Pow2Grows(n - 1, c);
      }
    }
  }

  /** The bits of the word are exactly the given masks. */
  ghost predicate IsUnion(word: nat, masks: set<nat>) {
    forall b: nat :: Bit(word, b) <==> b < MASK_BITS && Pow2(b) in masks
  }

  // ---------------------------------------------------------------- what the options select

  ghost predicate IsMask(v: nat) { exists c: nat :: c < MASK_BITS && v == Pow2(c) }

  ghost predicate HasMasks(table: seq<Slot>) {
    |table| > 0 && forall s | 0 <= s < |table| :: table[s].Taken? && IsMask(table[s].val)
  }

  /** The masks that the options name. */
  function Chosen(table: seq<Slot>, hash: string -> nat, args: seq<string>): set<nat>
    requires |table| > 0
  {
    if args == [] then {}
    else
      var v := Value(table, hash, args[|args| - 1]);
      Chosen(table, hash, args[..|args| - 1]) + if v == 0 then {} else {v}
  }

  /** Two options name the same filter. */
  predicate Repeats(table: seq<Slot>, hash: string -> nat, args: seq<string>)
    requires |table| > 0
  {
    exists i, j | 0 <= i < j < |args| ::
      Value(table, hash, args[i]) == Value(table, hash, args[j]) != 0
  }

  lemma {:induction false} ChosenMembers(table: seq<Slot>, hash: string -> nat, args: seq<string>, v: nat)
    requires |table| > 0
    ensures v in Chosen(table, hash, args) <==>
      v != 0 && exists i | 0 <= i < |args| :: Value(table, hash, args[i]) == v
  {
    hide Value;
    if args != [] {
      var front := args[..|args| - 1];
      ChosenMembers(table, hash, front, v);
      assert forall i | 0 <= i < |front| :: front[i] == args[i];
    }
  }

  lemma ValueIsMask(table: seq<Slot>, hash: string -> nat, arg: string)
    requires HasMasks(table)
    ensures Value(table, hash, arg) == 0 || IsMask(Value(table, hash, arg))
  {
  }

  lemma {:induction false} EmptyOrWord(n: nat)
    ensures OrWord({}, n) == 0
  {
    if n > 0 {
      EmptyOrWord(n - 1);
    }
  }

  lemma OrWordGains(masks: set<nat>, v: nat)
    requires IsMask(v) && v !in masks
    ensures OrWord(masks + {v}, MASK_BITS) == OrWord(masks, MASK_BITS) + v
  {
    var c: nat :| c < MASK_BITS && v == Pow2(c);
    OrWordAdd(masks, c, MASK_BITS);
  }

  lemma RepeatsStep(table: seq<Slot>, hash: string -> nat, args: seq<string>)
    requires |table| > 0 && args != []
    ensures var last := |args| - 1;
      Repeats(table, hash, args) <==>
        Repeats(table, hash, args[..last]) ||
        (Value(table, hash, args[last]) != 0 &&
         exists i | 0 <= i < |args[..last]| :: Value(table, hash, args[..last][i]) == Value(table, hash, args[last]))
  {
    hide Value;
    var last := |args| - 1;
    var front := args[..last];
    assert forall i | 0 <= i < last :: front[i] == args[i];
    if Repeats(table, hash, args) {
      var i, j :| 0 <= i < j < |args| && Value(table, hash, args[i]) == Value(table, hash, args[j]) != 0;
      assert front[i] == args[i];
      if j < last {
        assert front[j] == args[j];
      }
    }
  }

  /** The options add up to at least the union, and to the union exactly when no two of them
      name the same filter. */
  lemma {:induction false} SumIsUnionIff(table: seq<Slot>, hash: string -> nat, args: seq<string>)
    requires HasMasks(table)
    ensures Sum(table, hash, args) >= OrWord(Chosen(table, hash, args), MASK_BITS)
    ensures Sum(table, hash, args) == OrWord(Chosen(table, hash, args), MASK_BITS)
       <==> !Repeats(table, hash, args)
  {
    hide Value, IsMask, OrWord, Pow2;
    if args != [] {
      var last := |args| - 1;
      var front, v := args[..last], Value(table, hash, args[last]);
      SumIsUnionIff(table, hash, front);
      RepeatsStep(table, hash, args);
      ValueIsMask(table, hash, args[last]);
      ChosenMembers(table, hash, front, v);
      if v != 0 {
        var chosen := Chosen(table, hash, front);
        if v in chosen {
          assert chosen + {v} == chosen;
        } else {
          OrWordGains(chosen, v);
        }
      } else {
        assert Chosen(table, hash, front) + {} == Chosen(table, hash, front);
      }
    } else {
      EmptyOrWord(MASK_BITS);
    }
  }

  lemma MulStep(n: nat, p: nat)
    requires n > 0
    ensures (n - 1) * p + p == n * p
  {
  }

  lemma {:induction false} SumFits(table: seq<Slot>, hash: string -> nat, args: seq<string>)
    requires HasMasks(table)
    ensures Sum(table, hash, args) <= |args| * Pow2(MASK_BITS - 1)
  {
    hide Value, Pow2;
    if args != [] {
      var last := |args| - 1;
      SumFits(table, hash, args[..last]);
      ValueIsMask(table, hash, args[last]);
      var v := Value(table, hash, args[last]);
      if v != 0 {
        var c: nat :| c < MASK_BITS && v == Pow2(c);
        if c < MASK_BITS - 1 {
          Pow2Grows(c, MASK_BITS - 1);
        }
      }
      MulStep(|args|, Pow2(MASK_BITS - 1));
    }
  }

  /** Words with the same bits are the same word. */
  lemma {:induction false} SameBits(u: nat, w: nat)
    requires forall b: nat :: Bit(u, b) <==> Bit(w, b)
    ensures u == w
    decreases u + w
  {
    assert Bit(u, 0) <==> Bit(w, 0);
    if u / 2 + w / 2 < u + w {
      forall b: nat
        ensures Bit(u / 2, b) <==> Bit(w / 2, b)
      {
        assert Bit(u, b + 1) <==> Bit(w, b + 1);
      }
      SameBits(u / 2, w / 2);
    }
  }

  lemma Pow2Of28()
    ensures Pow2(MASK_BITS - 1) == 0x1000_0000
  {
    assert Pow2(7) == 0x80;
    Pow2Adds(7, 7);
    Pow2Adds(14, 14);
  }

  /** Nothing is chosen exactly when the options add up to 0; seven options never reach the
      word for all packets. */
  lemma SumRange(table: seq<Slot>, hash: string -> nat, args: seq<string>)
    requires HasMasks(table) && |args| <= MAX_FILTER_ARGS
    ensures Sum(table, hash, args) == 0 <==> Chosen(table, hash, args) == {}
    ensures Sum(table, hash, args) < FILTER_MASK_ALL
  {
    hide Value, Sum, OrWord, Pow2;
    var chosen := Chosen(table, hash, args);
    SumIsUnionIff(table, hash, args);
    if chosen == {} {
      forall i, j | 0 <= i < j < |args|
        ensures !(Value(table, hash, args[i]) == Value(table, hash, args[j]) != 0)
      {
        ChosenMembers(table, hash, args, Value(table, hash, args[i]));
      }
      EmptyOrWord(MASK_BITS);
    } else {
      var v :| v in chosen;
      ChosenMembers(table, hash, args, v);
      var i :| 0 <= i < |args| && Value(table, hash, args[i]) == v;
      ValueIsMask(table, hash, args[i]);
      var c: nat :| c < MASK_BITS && v == Pow2(c);
      OrWordBits(chosen, MASK_BITS, c);
      NoHighBit(0, c);
    }
    SumFits(table, hash, args);
    Pow2Of28();
  }

  /** The filter word of at most seven options: all packets when no option is a filter name;
      otherwise the bitwise or of the named filters if and only if none is named twice. */
  lemma FilterIsUnionIff(table: seq<Slot>, hash: string -> nat, args: seq<string>)
    requires HasMasks(table) && |args| <= MAX_FILTER_ARGS
    ensures var chosen, word := Chosen(table, hash, args), FilterWord(table, hash, args);
      if chosen == {} then word == FILTER_MASK_ALL
      else
        && word != FILTER_MASK_ALL
        && (IsUnion(word, chosen) <==> !Repeats(table, hash, args))
  {
    hide Value, Sum, OrWord, Pow2, Chosen, Repeats, Bit;
    SumRange(table, hash, args);
    var chosen, word := Chosen(table, hash, args), FilterWord(table, hash, args);
    if chosen != {} {
      SumIsUnionIff(table, hash, args);
      var union := OrWord(chosen, MASK_BITS);
      forall b: nat
        ensures Bit(union, b) <==> b < MASK_BITS && Pow2(b) in chosen
      {
        OrWordBits(chosen, MASK_BITS, b);
      }
      assert IsUnion(union, chosen);
      assert word == Sum(table, hash, args);
      if IsUnion(word, chosen) {
        forall b: nat
          ensures Bit(word, b) <==> Bit(union, b)
        {
          assert Bit(word, b) <==> b < MASK_BITS && Pow2(b) in chosen;
        }
        SameBits(word, union);
      }
    }
  }
}
