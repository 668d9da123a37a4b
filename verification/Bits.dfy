/** Bitwise AND on natural numbers, and the division facts the drivers' masks rest on. */
module Bits {

  function Pow2(k: nat): (p: nat)
    ensures 0 < p
  {
    if k == 0 then 1 else 2 * Pow2(k - 1)
  }

  lemma {:induction false} Pow2Monotone(j: nat, k: nat)
    requires j <= k
    ensures Pow2(j) <= Pow2(k)
    decreases k
  {
    if j < k {
      Pow2Monotone(j, k - 1);
    }
  }

  /** Bitwise AND, one binary digit at a time. */
  function And(x: nat, y: nat): (r: nat)
    ensures r <= x
  {
    if x == 0 || y == 0 then 0
    else x % 2 * (y % 2) + 2 * And(x / 2, y / 2)
  }

  lemma MulLess(a: int, b: int, c: int)
    requires 0 < c && a * c < b * c
    ensures a < b
  {
    if b <= a {
      MulLessEq(b, a, c);
    }
  }

  lemma MulLessEq(a: int, b: int, c: int)
    requires 0 <= c && a <= b
    ensures a * c <= b * c
  {
  }

  /** The quotient is the only multiple count that brackets the dividend. */
  lemma DivUnique(x: int, d: int, q: int)
    requires 0 < d && q * d <= x < (q + 1) * d
    ensures x / d == q
  {
    var p := x / d;
    assert p * d <= x < (p + 1) * d by { assert x == d * p + x % d; }
    MulLess(p, q + 1, d);
    MulLess(q, p + 1, d);
  }

  /** Nested floors collapse: dividing by `a` and then by `b` is dividing by `a * b`. */
  lemma DivDiv(x: nat, a: nat, b: nat)
    requires 0 < a && 0 < b
    ensures 0 < a * b && x / a / b == x / (a * b)
  {
    var m := x / a;
    var q := m / b;
    assert 0 < a * b by { MulLessEq(1, a, b); }
    assert m * a <= x && x + 1 <= (m + 1) * a by { assert x == a * m + x % a; }
    assert q * b <= m && m + 1 <= (q + 1) * b by { assert m == b * q + m % b; }
    MulLessEq(q * b, m, a);
    MulLessEq(m + 1, (q + 1) * b, a);
    assert q * b * a == q * (a * b);
    assert (q + 1) * b * a == (q + 1) * (a * b);
    DivUnique(x, a * b, q);
  }

  lemma {:induction false} AndAllOnes(x: nat, w: nat)
    requires x < Pow2(w)
    ensures And(x, Pow2(w) - 1) == x
    decreases w
  {
    if x != 0 {
      assert (Pow2(w) - 1) / 2 == Pow2(w - 1) - 1 && (Pow2(w) - 1) % 2 == 1;
      AndAllOnes(x / 2, w - 1);
    }
  }

  lemma HalveRoundDown(x: nat, p: nat)
    requires 0 < p
    ensures 2 * (x / 2 / p * p) == x / (2 * p) * (2 * p)
  {
    DivDiv(x, 2, p);
  }

  lemma AndHighStep(x: nat, y: nat, p: nat)
    requires 0 < p && y % 2 == 0 && And(x / 2, y / 2) == x / 2 / p * p
    ensures And(x, y) == x / (2 * p) * (2 * p)
  {
    AndEven(x, y);
    HalveRoundDown(x, p);
  }

  /** Masking off the `k` low bits of a `w`-bit word rounds it down to a multiple of 2^k. */
  lemma {:induction false} AndHighOnes(x: nat, w: nat, k: nat)
    requires k <= w && x < Pow2(w)
    ensures Pow2(k) <= Pow2(w)
    ensures And(x, Pow2(w) - Pow2(k)) == x / Pow2(k) * Pow2(k)
    decreases k
  {
    Pow2Monotone(k, w);
    if k == 0 {
      AndAllOnes(x, w);
    } else {
      AndHighOnes(x / 2, w - 1, k - 1);
      HalfDifference(Pow2(w - 1), Pow2(k - 1));
      AndHighStep(x, Pow2(w) - Pow2(k), Pow2(k - 1));
    }
  }

  lemma HalfDifference(a: nat, b: nat)
    requires b <= a
    ensures (2 * a - 2 * b) / 2 == a - b && (2 * a - 2 * b) % 2 == 0
  {
  }

  lemma AndEven(x: nat, y: nat)
    requires y % 2 == 0
    ensures And(x, y) == 2 * And(x / 2, y / 2)
  {
    if x != 0 && y != 0 {
      assert x % 2 * 0 == 0;
    }
  }

  /** `x & ~(2^k - 1)` on 32-bit words. */
  function ClearLow(x: nat, k: nat): nat
    requires k <= 32 && x < Pow2(32)
  {
    Pow2Monotone(k, 32);
    And(x, Pow2(32) - Pow2(k))
  }

  lemma ClearLowRoundsDown(x: nat, k: nat)
    requires k <= 32 && x < Pow2(32)
    ensures ClearLow(x, k) == x / Pow2(k) * Pow2(k)
    ensures ClearLow(x, k) <= x < ClearLow(x, k) + Pow2(k)
  {
    AndHighOnes(x, 32, k);
    RoundDownBounds(x, Pow2(k));
  }

  lemma RoundDownBounds(x: nat, p: nat)
    requires 0 < p
    ensures x / p * p <= x < x / p * p + p
  {
    assert x == p * (x / p) + x % p;
  }

  lemma MultipleMod(q: nat, d: nat)
    requires 0 < d
    ensures q * d % d == 0 && q * d / d == q
  {
    DivUnique(q * d, d, q);
    assert q * d == d * (q * d / d) + q * d % d;
  }

  lemma Pow2Values()
    ensures Pow2(5) == 32 && Pow2(16) == 0x1_0000 && Pow2(32) == 0x1_0000_0000
  {
    assert Pow2(4) == 16;
    assert Pow2(8) == 256;
    assert Pow2(12) == 4096;
    assert Pow2(16) == 0x1_0000;
    assert Pow2(20) == 0x10_0000;
    assert Pow2(24) == 0x100_0000;
    assert Pow2(28) == 0x1000_0000;
  }
}
