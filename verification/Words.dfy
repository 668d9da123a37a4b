/** Register words as the sets of their bits that are one, so that AND is intersection, OR is
    union and AND NOT is difference. */
module Words {
  import opened Bits

  type Word = set<int>

  function Shl(x: Word, s: int): (r: Word)
    ensures forall i :: i in r <==> i - s in x && i < 32
  {
    set j | j in x && j + s < 32 :: j + s
  }

  function Shr(x: Word, s: int): (r: Word)
    ensures forall i :: i in r <==> i + s in x && 0 <= i
  {
    set j | j in x && 0 <= j - s :: j - s
  }

  /** `width` ones from bit `shift` on. */
  function Ones(shift: int, width: nat): (r: Word)
    ensures forall i :: i in r <==> shift <= i < shift + width
  {
    if width == 0 then {} else Ones(shift, width - 1) + {shift + width - 1}
  }

  /** The word that a number is written as in binary. */
  function FromInt(n: nat): Word {
    if n == 0 then {} else (if n % 2 == 1 then {0} else {}) + Shl(FromInt(n / 2), 1)
  }

  /** A number below 2^k has no bit from `k` on. */
  lemma {:induction false} FromIntFits(n: nat, k: nat)
    requires n < Pow2(k)
    ensures FromInt(n) <= Ones(0, k)
    decreases n
  {
    if n != 0 {
      FromIntFits(n / 2, k - 1);
      forall i | i in FromInt(n)
        ensures i in Ones(0, k)
      {
        assert i == 0 || i - 1 in FromInt(n / 2);
      }
    }
  }

  lemma FromIntOdd(m: nat)
    ensures FromInt(2 * m + 1) == {0} + Shl(FromInt(m), 1)
  {
    assert (2 * m + 1) / 2 == m && (2 * m + 1) % 2 == 1;
  }

  lemma OnesShifted(k: nat)
    requires k < 32
    ensures {0} + Shl(Ones(0, k), 1) == Ones(0, k + 1)
  {
    forall i
      ensures i in {0} + Shl(Ones(0, k), 1) <==> i in Ones(0, k + 1)
    {
      assert i in Shl(Ones(0, k), 1) <==> i - 1 in Ones(0, k) && i < 32;
    }
  }

  lemma OnesMoved(shift: int, width: nat)
    requires 0 <= shift && shift + width <= 32
    ensures Shl(Ones(0, width), shift) == Ones(shift, width)
  {
  }

  lemma OneMoreOne(k: nat, m: nat, n: nat)
    requires k < 32 && n == 2 * m + 1 && FromInt(m) == Ones(0, k)
    ensures FromInt(n) == Ones(0, k + 1)
  {
    FromIntOdd(m);
    OnesShifted(k);
  }

  /** 2^k - 1 is written as `k` ones. */
  lemma {:induction false} OnesFromInt(k: nat, n: nat)
    requires k <= 32 && n == Pow2(k) - 1
    ensures FromInt(n) == Ones(0, k)
  {
    if k != 0 {
      var m := Pow2(k - 1) - 1;
      OnesFromInt(k - 1, m);
      OneMoreOne(k - 1, m, n);
    }
  }

  lemma ModHalf(n: nat, p: nat)
    requires 0 < p
    ensures n % (2 * p) % 2 == n % 2 && n % (2 * p) / 2 == n / 2 % p
  {
    var q, r := n / 2 / p, n / 2 % p;
    assert n == 2 * (p * q + r) + n % 2;
    assert 2 * (p * q + r) + n % 2 == (2 * p) * q + (2 * r + n % 2);
    DivUnique(n, 2 * p, q) by {
      assert q * (2 * p) == (2 * p) * q && (q + 1) * (2 * p) == (2 * p) * q + 2 * p;
    }
    assert n == (2 * p) * (n / (2 * p)) + n % (2 * p);
  }

  /** The low bits of a number are its remainder. */
  lemma {:induction false} LowBits(n: nat, k: nat)
    requires k <= 32
    ensures FromInt(n) * Ones(0, k) == FromInt(n % Pow2(k))
    decreases k
  {
    if k == 0 || n == 0 {
      assert n % 1 == 0;
      assert n == 0 ==> n % Pow2(k) == 0;
    } else {
      LowBits(n / 2, k - 1);
      ModHalf(n, Pow2(k - 1));
      LowBitsStep(n, n % Pow2(k), k);
    }
  }

  lemma LowBitsStep(n: nat, m: nat, k: nat)
    requires 0 < k <= 32 && n % 2 == m % 2
    requires FromInt(n / 2) * Ones(0, k - 1) == FromInt(m / 2)
    ensures FromInt(n) * Ones(0, k) == FromInt(m)
  {
    forall i
      ensures i in FromInt(n) * Ones(0, k) <==> i in FromInt(m)
    {
      FromIntBit(n, i);
      FromIntBit(m, i);
      FromIntFrom(n / 2);
      FromIntFrom(m / 2);
      assert i - 1 in FromInt(m / 2) <==> i - 1 in FromInt(n / 2) && i - 1 in Ones(0, k - 1);
    }
  }

  lemma FromIntBit(n: nat, i: int)
    ensures i in FromInt(n) <==> (i == 0 && n % 2 == 1) || (i < 32 && i - 1 in FromInt(n / 2))
  {
    FromIntFrom(n / 2);
  }

  lemma {:induction false} FromIntFrom(n: nat)
    ensures forall i :: i in FromInt(n) ==> 0 <= i
    decreases n
  {
    if n != 0 {
      FromIntFrom(n / 2);
    }
  }

  /** The top bit of a number of `k` + 1 bits. */
  lemma {:induction false} TopBit(n: nat, k: nat)
    requires k < 32 && n < 2 * Pow2(k)
    ensures k in FromInt(n) <==> n >= Pow2(k)
    decreases k
  {
    FromIntBit(n, k);
    if k == 0 {
      FromIntFrom(n / 2);
    } else {
      TopBit(n / 2, k - 1);
    }
  }
}
