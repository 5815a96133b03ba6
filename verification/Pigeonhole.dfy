/** Counting arguments shared by the id search and the filter table. */
module Pigeonhole {
  /** Every number from `lo` on, `n` of them, is in the list. */
  predicate Covers(s: seq<nat>, lo: nat, n: nat) { forall w | lo <= w < lo + n :: w in s }

  predicate Distinct(s: seq<nat>) { forall i, j | 0 <= i < j < |s| :: s[i] != s[j] }

  function Range(lo: nat, n: nat): (r: set<nat>)
    ensures |r| == n && forall w | w in r :: lo <= w < lo + n
  {
    if n == 0 then {} else Range(lo, n - 1) + {lo + n - 1}
  }

  function Elements(s: seq<nat>): (r: set<nat>)
    ensures |r| <= |s| && (forall w :: w in s <==> w in r)
    ensures Distinct(s) ==> |r| == |s|
  {
    if s == [] then {} else Elements(s[1..]) + {s[0]}
  }

  lemma SubsetSize(a: set<nat>, b: set<nat>)
    requires a <= b
    ensures |a| <= |b|
  {
    assert b == a + (b - a);
  }

  /** A list that covers n numbers has at least n elements. */
  lemma CoverNeeds(s: seq<nat>, lo: nat, n: nat)
    requires Covers(s, lo, n)
    ensures n <= |s|
  {
    SubsetSize(Range(lo, n), Elements(s));
  }

  lemma {:induction false} RangeHas(lo: nat, n: nat, w: nat)
    requires lo <= w < lo + n
    ensures w in Range(lo, n)
  {
    if w != lo + n - 1 {
      RangeHas(lo, n - 1, w);
    }
  }

  /** n different numbers below n are all the numbers below n. */
  lemma DistinctCovers(s: seq<nat>)
    requires Distinct(s) && forall i | 0 <= i < |s| :: s[i] < |s|
    ensures Covers(s, 0, |s|)
  {
    forall w: nat | 0 <= w < |s|
      ensures w in s
    {
      if w !in s {
        forall v | v in Elements(s) + {w}
          ensures v in Range(0, |s|)
        {
          RangeHas(0, |s|, v);
        }
        SubsetSize(Elements(s) + {w}, Range(0, |s|));
      }
    }
  }
}
