/** Powers of two and the bitwise operators on numbers. */
module Bits {
  function Pow2(b: nat): (r: nat)
    ensures r > 0
  {
    if b == 0 then 1 else 2 * Pow2(b - 1)
  }

  lemma {:induction false} Pow2Grows(a: nat, b: nat)
    requires a < b
    ensures Pow2(a) < Pow2(b)
  {
    if a < b - 1 {
      Pow2Grows(a, b - 1);
    }
  }

  lemma {:induction false} Pow2Adds(a: nat, b: nat)
    ensures Pow2(a + b) == Pow2(a) * Pow2(b)
  {
    if b > 0 {
      Pow2Adds(a, b - 1);
    }
  }

  function And(a: nat, b: nat): nat
    decreases a + b
  {
    if a == 0 || b == 0 then 0 else 2 * And(a / 2, b / 2) + (a % 2) * (b % 2)
  }

  function Or(a: nat, b: nat): nat
    decreases a + b
  {
    if a == 0 then b else if b == 0 then a
    else 2 * Or(a / 2, b / 2) + if a % 2 == 1 || b % 2 == 1 then 1 else 0
  }

  /** The lowest bit apart. */
  lemma AndLow(a: nat, b: nat)
    ensures And(a, b) == 2 * And(a / 2, b / 2) + (a % 2) * (b % 2)
  {
    if a == 0 || b == 0 {
      assert And(a / 2, b / 2) == 0;
    }
  }

  lemma OrLow(a: nat, b: nat)
    ensures Or(a, b) == 2 * Or(a / 2, b / 2) + if a % 2 == 1 || b % 2 == 1 then 1 else 0
  {
    if a == 0 {
      assert Or(0, b / 2) == b / 2;
    } else if b == 0 {
      assert Or(a / 2, 0) == a / 2;
    }
  }

  lemma MulAtLeast(p: int, d: int)
    requires p > 0 && d >= 1
    ensures p * d >= p
  {
    assert p * (d - 1) >= 0;
  }

  lemma MulSmall(p: int, d: int)
    requires -p < p * d < p
    ensures d == 0
  {
    if d >= 1 {
      MulAtLeast(p, d);
      assert false;
    } else if d <= -1 {
      MulAtLeast(p, -d);
      assert false;
    }
  }

  lemma ModOf(a: nat, p: nat, q: nat, r: nat)
    requires a == p * q + r && r < p
    ensures a % p == r && a / p == q
  {
    var d := a / p - q;
    assert p * d == r - a % p;
    MulSmall(p, d);
  }

  lemma HalfMod(a: nat, p: nat)
    requires p > 0
    ensures a - a % (2 * p) == 2 * (a / 2 - a / 2 % p)
  {
    var q := a / 2 / p;
    assert a / 2 == p * q + a / 2 % p;
    assert a == (2 * p) * q + (2 * (a / 2 % p) + a % 2);
    ModOf(a, 2 * p, q, 2 * (a / 2 % p) + a % 2);
  }

  lemma AndZero(x: nat)
    ensures And(x, 0) == 0
  {
  }

  /** The low `n` bits. */
  lemma {:induction false} AndLowBits(a: nat, n: nat)
    ensures And(a, Pow2(n) - 1) == a % Pow2(n)
  {
    hide And;
    if n > 0 {
      AndLowBits(a / 2, n - 1);
      assert (Pow2(n) - 1) / 2 == Pow2(n - 1) - 1 && (Pow2(n) - 1) % 2 == 1;
      AndLow(a, Pow2(n) - 1);
      HalfMod(a, Pow2(n - 1));
    } else {
      AndZero(a);
      assert a % 1 == 0;
    }
  }

  lemma AndDouble(a: nat, m: nat)
    ensures And(a, 2 * m) == 2 * And(a / 2, m)
  {
    hide And;
    AndLow(a, 2 * m);
    assert 2 * m / 2 == m && 2 * m % 2 == 0;
  }

  lemma SmallMod(a: nat, p: nat)
    requires a < p
    ensures a % p == a
  {
  }

  /** A mask of the bits from `k` up to `n` clears the bits below `k`. */
  lemma {:induction false} AndMask(a: nat, n: nat, k: nat)
    requires k <= n && a < Pow2(n)
    ensures Pow2(k) <= Pow2(n)
    ensures And(a, Pow2(n) - Pow2(k)) == a - a % Pow2(k)
  {
    hide And;
    if k == 0 {
      AndLowBits(a, n);
      SmallMod(a, Pow2(n));
    } else {
      AndMask(a / 2, n - 1, k - 1);
      AndDouble(a, Pow2(n - 1) - Pow2(k - 1));
      HalfMod(a, Pow2(k - 1));
    }
  }

  lemma Twice(c: nat, p: nat)
    ensures c * (2 * p) == 2 * (c * p)
  {
  }

  lemma Half(a: nat, x: nat, p: nat)
    ensures (a * (2 * p) + x) / 2 == a * p + x / 2 && (a * (2 * p) + x) % 2 == x % 2
  {
    assert a * (2 * p) == 2 * (a * p);
  }

  /** Two numbers side by side: the operator works on each part. */
  lemma {:induction false} AndSplit(a: nat, x: nat, b: nat, y: nat, n: nat)
    requires x < Pow2(n) && y < Pow2(n)
    ensures And(a * Pow2(n) + x, b * Pow2(n) + y) == And(a, b) * Pow2(n) + And(x, y)
  {
    hide And;
    if n == 0 {
      AndZero(x);
    } else {
      var p := Pow2(n - 1);
      AndSplit(a, x / 2, b, y / 2, n - 1);
      Half(a, x, p);
      Half(b, y, p);
      AndLow(a * (2 * p) + x, b * (2 * p) + y);
      AndLow(x, y);
      Twice(And(a, b), p);
    }
  }

  lemma OrZero()
    ensures Or(0, 0) == 0
  {
  }

  /** `x | ~m` has the bits of `~m` besides those of `x & m`. */
  lemma {:induction false} OrComplement(x: nat, m: nat, n: nat)
    requires x < Pow2(n) && m < Pow2(n)
    ensures Or(Pow2(n) - 1 - m, x) == And(m, x) + (Pow2(n) - 1 - m)
  {
    hide And, Or;
    if n == 0 {
      AndZero(0);
      OrZero();
    } else {
      OrComplement(x / 2, m / 2, n - 1);
      var c := Pow2(n) - 1 - m;
      assert c / 2 == Pow2(n - 1) - 1 - m / 2 && c % 2 == 1 - m % 2;
      OrLow(c, x);
      AndLow(m, x);
    }
  }

  lemma {:induction false} AndCommutes(a: nat, b: nat)
    ensures And(a, b) == And(b, a)
    decreases a + b
  {
    if a != 0 && b != 0 {
      AndCommutes(a / 2, b / 2);
    }
  }

  lemma {:induction false} AndFits(a: nat, b: nat)
    ensures And(a, b) <= b
    decreases a + b
  {
    if a != 0 && b != 0 {
      AndFits(a / 2, b / 2);
    }
  }
}
