/** Unsigned machine words as naturals, with C's bitwise operators defined on binary digits.
    A word of w bits is a natural below Pow2(w); a left shift is `m * Pow2(k) % Pow2(w)`. */
module Words {
  type byte = x: int | 0 <= x < 256

  function Pow2(k: nat): (p: nat)
    ensures p >= 1
  {
    if k == 0 then 1 else 2 * Pow2(k - 1)
  }

  lemma {:induction false} Pow2Grows(j: nat, k: nat)
    requires j < k
    ensures Pow2(j) < Pow2(k)
    decreases k
  {
    if j + 1 < k {
      Pow2Grows(j, k - 1);
    }
  }

  /** Binary digit i of m. */
  predicate Bit(m: nat, i: nat) {
    if i == 0 then m % 2 == 1 else Bit(m / 2, i - 1)
  }

  function And(a: nat, b: nat): nat {
    if a == 0 || b == 0 then 0 else 2 * And(a / 2, b / 2) + (a % 2) * (b % 2)
  }

  function Or(a: nat, b: nat): nat {
    if a == 0 && b == 0 then 0
    else 2 * Or(a / 2, b / 2) + (if a % 2 == 1 || b % 2 == 1 then 1 else 0)
  }

  function Xor(a: nat, b: nat): nat {
    if a == 0 && b == 0 then 0
    else 2 * Xor(a / 2, b / 2) + (if a % 2 != b % 2 then 1 else 0)
  }

  /** The complement of a word of w bits. */
  function Not(w: nat, x: nat): nat
    requires x < Pow2(w)
  {
    Pow2(w) - 1 - x
  }

  /** `(m << k)` truncated to w bits. */
  function ShiftLeft(w: nat, m: nat, k: nat): nat {
    m * Pow2(k) % Pow2(w)
  }

  lemma {:induction false} BitOfZero(i: nat)
    ensures !Bit(0, i)
  {
    if i > 0 {
      BitOfZero(i - 1);
    }
  }

  lemma {:induction false} BitOfAnd(a: nat, b: nat, i: nat)
    ensures Bit(And(a, b), i) <==> Bit(a, i) && Bit(b, i)
  {
    BitOfZero(i);
    if a != 0 && b != 0 {
      assert (a % 2) * (b % 2) == if a % 2 == 1 && b % 2 == 1 then 1 else 0;
      if i > 0 {
        BitOfAnd(a / 2, b / 2, i - 1);
        assert And(a, b) / 2 == And(a / 2, b / 2);
      }
    }
  }

  lemma {:induction false} BitOfOr(a: nat, b: nat, i: nat)
    ensures Bit(Or(a, b), i) <==> Bit(a, i) || Bit(b, i)
  {
    BitOfZero(i);
    if (a != 0 || b != 0) && i > 0 {
      BitOfOr(a / 2, b / 2, i - 1);
      assert Or(a, b) / 2 == Or(a / 2, b / 2);
    }
  }

  lemma {:induction false} OrBound(a: nat, b: nat, w: nat)
    requires a < Pow2(w) && b < Pow2(w)
    ensures Or(a, b) < Pow2(w)
  {
    if w > 0 {
      OrBound(a / 2, b / 2, w - 1);
    }
  }

  lemma {:induction false} AndBound(a: nat, b: nat)
    ensures And(a, b) <= b
  {
    if a != 0 && b != 0 {
      AndBound(a / 2, b / 2);
      assert (a % 2) * (b % 2) <= b % 2;
    }
  }

  lemma {:induction false} XorBound(a: nat, b: nat, w: nat)
    requires a < Pow2(w) && b < Pow2(w)
    ensures Xor(a, b) < Pow2(w)
  {
    if w > 0 {
      XorBound(a / 2, b / 2, w - 1);
    }
  }

  lemma {:induction false} XorCancels(a: nat, k: nat)
    ensures Xor(Xor(a, k), k) == a
  {
    if a != 0 || k != 0 {
      XorCancels(a / 2, k / 2);
      assert Xor(a, k) / 2 == Xor(a / 2, k / 2);
    }
  }

  lemma {:induction false} BitOfNot(w: nat, x: nat, i: nat)
    requires x < Pow2(w) && i < w
    ensures Bit(Not(w, x), i) <==> !Bit(x, i)
  {
    if i > 0 {
      BitOfNot(w - 1, x / 2, i - 1);
      assert Not(w, x) / 2 == Not(w - 1, x / 2);
    }
  }

  /** `1 << k` has exactly bit k. */
  lemma {:induction false} BitOfPow2(k: nat, i: nat)
    ensures Bit(Pow2(k), i) <==> i == k
  {
    if k == 0 {
      BitOfZero(i - if i > 0 then 1 else 0);
    } else if i > 0 {
      BitOfPow2(k - 1, i - 1);
      assert Pow2(k) / 2 == Pow2(k - 1);
    }
  }

  /** `(1 << k) - 1` has exactly the bits below k. */
  lemma {:induction false} BitOfOnes(k: nat, i: nat)
    ensures Bit(Pow2(k) - 1, i) <==> i < k
  {
    BitOfZero(i);
    if k > 0 && i > 0 {
      BitOfOnes(k - 1, i - 1);
      assert (Pow2(k) - 1) / 2 == Pow2(k - 1) - 1;
    }
  }

  lemma {:induction false} BitOfShifted(m: nat, k: nat, i: nat)
    ensures Bit(m * Pow2(k), i) <==> i >= k && Bit(m, i - k)
  {
    if k > 0 {
      assert m * Pow2(k) == 2 * (m * Pow2(k - 1));
      if i > 0 {
        BitOfShifted(m, k - 1, i - 1);
      }
    }
  }

  lemma HalfOfRemainder(m: nat, p: nat)
    requires p > 0
    ensures m % (2 * p) / 2 == m / 2 % p
    ensures m % (2 * p) % 2 == m % 2
  {
    var q, r := m / (2 * p), m % (2 * p);
    assert m == 2 * (p * q) + r;
    assert m / 2 == p * q + r / 2;
    RemainderUnique(m / 2, p, q, r / 2);
  }

  lemma {:induction false} MultiplesApart(p: nat, a: nat, b: nat)
    requires a < b
    ensures p * a + p <= p * b
  {
    if a + 1 < b {
      MultiplesApart(p, a, b - 1);
    }
  }

  lemma RemainderUnique(n: nat, p: nat, q: nat, r: nat)
    requires n == p * q + r && r < p
    ensures n / p == q && n % p == r
  {
    if n / p < q {
      MultiplesApart(p, n / p, q);
    } else if q < n / p {
      MultiplesApart(p, q, n / p);
    }
  }

  lemma {:induction false} BitOfTruncated(w: nat, m: nat, i: nat)
    requires i < w
    ensures Bit(m % Pow2(w), i) <==> Bit(m, i)
  {
    HalfOfRemainder(m, Pow2(w - 1));
    if i > 0 {
      BitOfTruncated(w - 1, m / 2, i - 1);
    }
  }

  /** Inside the word, a left shift by k moves bit i - k to bit i and clears the k lowest bits. */
  lemma BitOfShiftLeft(w: nat, m: nat, k: nat, i: nat)
    requires i < w
    ensures Bit(ShiftLeft(w, m, k), i) <==> i >= k && Bit(m, i - k)
  {
    BitOfTruncated(w, m * Pow2(k), i);
    BitOfShifted(m, k, i);
  }

  /** The C test `m & (1 << i)` reads one bit. */
  lemma {:induction false} TestBit(m: nat, i: nat)
    ensures And(m, Pow2(i)) != 0 <==> Bit(m, i)
  {
    BitOfZero(i);
    if m != 0 {
      if i == 0 {
        assert And(m, 1) == 2 * And(m / 2, 0) + (m % 2) * 1;
      } else {
        TestBit(m / 2, i - 1);
        assert Pow2(i) / 2 == Pow2(i - 1) && Pow2(i) % 2 == 0;
      }
    }
  }

  /** A word is determined by its bits. */
  lemma {:induction false} SameBits(w: nat, a: nat, b: nat)
    requires a < Pow2(w) && b < Pow2(w)
    requires forall i: nat :: i < w ==> (Bit(a, i) <==> Bit(b, i))
    ensures a == b
  {
    if w > 0 {
      assert Bit(a, 0) <==> Bit(b, 0);
      forall i: nat | i < w - 1
        ensures Bit(a / 2, i) <==> Bit(b / 2, i)
      {
        assert Bit(a, i + 1) <==> Bit(b, i + 1);
      }
      SameBits(w - 1, a / 2, b / 2);
    }
  }
}
