// Unsigned machine words as natural numbers: what C's <<, |, & and ~ do to their bits.

module Words {

  function Pow2(n: nat): (p: nat)
    ensures p > 0
  {
    if n == 0 then 1 else 2 * Pow2(n - 1)
  }

  // Bit i of a word, least significant first.
  predicate Bit(m: nat, i: nat) {
    if i == 0 then m % 2 == 1 else Bit(m / 2, i - 1)
  }

  function Or(a: nat, b: nat): nat {
    if a == 0 && b == 0 then 0
    else 2 * Or(a / 2, b / 2) + (if a % 2 == 1 || b % 2 == 1 then 1 else 0)
  }

  function And(a: nat, b: nat): nat {
    if a == 0 && b == 0 then 0
    else 2 * And(a / 2, b / 2) + (if a % 2 == 1 && b % 2 == 1 then 1 else 0)
  }

  function Xor(a: nat, b: nat): nat {
    if a == 0 && b == 0 then 0
    else 2 * Xor(a / 2, b / 2) + (if a % 2 != b % 2 then 1 else 0)
  }

  // m << s on a uint64_t: what is pushed past the top is lost.
  function ShiftLeft64(m: nat, s: nat): (r: nat)
    ensures r < Pow2(64)
  {
    (m * Pow2(s)) % Pow2(64)
  }

  // ~m on a 32-bit unsigned.
  function Not32(m: nat): nat
    requires m < Pow2(32)
  {
    Pow2(32) - 1 - m
  }

  lemma {:induction false} Pow2Grows(a: nat, b: nat)
    requires a < b
    ensures Pow2(a) < Pow2(b)
    decreases b
  {
    if a < b - 1 {
      Pow2Grows(a, b - 1);
    }
  }

  lemma {:induction false} PowerOfSum(a: nat, b: nat)
    ensures Pow2(a + b) == Pow2(a) * Pow2(b)
    decreases b
  {
    if b > 0 {
      PowerOfSum(a, b - 1);
      assert Pow2(a + b) == 2 * Pow2(a + (b - 1));
    }
  }

  lemma {:induction false} BitOfZero(i: nat)
    ensures !Bit(0, i)
    decreases i
  {
    if i > 0 {
      BitOfZero(i - 1);
    }
  }

  lemma {:induction false} XorUndoesItself(a: nat, b: nat)
    ensures Xor(Xor(a, b), b) == a
    decreases a + b
  {
    if a > 0 || b > 0 {
      XorUndoesItself(a / 2, b / 2);
      assert Xor(a, b) / 2 == Xor(a / 2, b / 2);
    }
  }

  lemma {:induction false} XorBelow(a: nat, b: nat, n: nat)
    requires a < Pow2(n) && b < Pow2(n)
    ensures Xor(a, b) < Pow2(n)
    decreases n
  {
    if n > 0 {
      XorBelow(a / 2, b / 2, n - 1);
    }
  }

  lemma OrHalves(a: nat, b: nat)
    ensures Or(a, b) / 2 == Or(a / 2, b / 2)
    ensures Or(a, b) % 2 == 1 <==> a % 2 == 1 || b % 2 == 1
  {
  }

  lemma {:induction false} BitOfOr(a: nat, b: nat, i: nat)
    ensures Bit(Or(a, b), i) <==> Bit(a, i) || Bit(b, i)
    decreases i
  {
    OrHalves(a, b);
    if i > 0 {
      BitOfOr(a / 2, b / 2, i - 1);
    }
  }

  lemma {:induction false} BitOfAnd(a: nat, b: nat, i: nat)
    ensures Bit(And(a, b), i) <==> Bit(a, i) && Bit(b, i)
    decreases i
  {
    if i > 0 {
      BitOfAnd(a / 2, b / 2, i - 1);
    }
  }

  lemma {:induction false} OrBelow(a: nat, b: nat, k: nat)
    requires a < Pow2(k) && b < Pow2(k)
    ensures Or(a, b) < Pow2(k)
    decreases k
  {
    if k > 0 {
      OrBelow(a / 2, b / 2, k - 1);
    }
  }

  lemma {:induction false} BitOfPow2(s: nat, i: nat)
    ensures Bit(Pow2(s), i) <==> i == s
    decreases i
  {
    if i > 0 {
      if s == 0 {
        BitOfZero(i - 1);
      } else {
        BitOfPow2(s - 1, i - 1);
      }
    }
  }

  // 2^s - 1 is the mask of the low s bits.
  lemma {:induction false} BitOfLowMask(s: nat, i: nat)
    ensures Bit(Pow2(s) - 1, i) <==> i < s
    decreases i
  {
    if s == 0 {
      BitOfZero(i);
    } else if i > 0 {
      assert (Pow2(s) - 1) / 2 == Pow2(s - 1) - 1;
      BitOfLowMask(s - 1, i - 1);
    }
  }

  lemma {:induction false} BitOfComplement(m: nat, k: nat, i: nat)
    requires m < Pow2(k) && i < k
    ensures Bit(Pow2(k) - 1 - m, i) <==> !Bit(m, i)
    decreases i
  {
    if i > 0 {
      assert (Pow2(k) - 1 - m) / 2 == Pow2(k - 1) - 1 - m / 2;
      BitOfComplement(m / 2, k - 1, i - 1);
    }
  }

  lemma {:induction false} AndOfZero(m: nat)
    ensures And(m, 0) == 0
  {
    if m > 0 {
      AndOfZero(m / 2);
    }
  }

  // The idiom "m & (1 << s)" tests bit s.
  lemma {:induction false} AndTestsBit(m: nat, s: nat)
    ensures And(m, Pow2(s)) != 0 <==> Bit(m, s)
    decreases s
  {
    if s == 0 {
      AndOfZero(m / 2);
    } else {
      AndTestsBit(m / 2, s - 1);
    }
  }

  lemma {:induction false} BitOfProduct(m: nat, s: nat, i: nat)
    ensures Bit(m * Pow2(s), i) <==> i >= s && Bit(m, i - s)
    decreases s
  {
    if s > 0 {
      var h := m * Pow2(s - 1);
      assert m * Pow2(s) == 2 * h;
      if i > 0 {
        BitOfProduct(m, s - 1, i - 1);
      }
    }
  }

  lemma AtLeastOnce(d: int, p: nat)
    requires d >= 1
    ensures d * p >= p
  {
  }

  lemma {:induction false} RemainderIsUnique(y: int, p: nat, q: int, r: nat)
    requires p > 0 && y == q * p + r && r < p
    ensures y % p == r
  {
    var d := q - y / p;
    assert d * p == y % p - r by {
      assert y == (y / p) * p + y % p;
    }
    if d >= 1 {
      AtLeastOnce(d, p);
    } else if d <= -1 {
      AtLeastOnce(-d, p);
    }
  }

  lemma HalfOfSum(x: nat, m: nat, r: nat)
    requires x == 2 * m + r
    ensures x / 2 == m + r / 2 && x % 2 == r % 2
  {
  }

  lemma QuotientAndRemainder(x: nat, n: nat)
    requires n > 0
    ensures x == (x / n) * n + x % n && x % n < n
  {
  }

  lemma {:induction false} HalfOfRemainderIs(x: nat, p: nat, q: nat, r: nat)
    requires p > 0 && x == 2 * (q * p) + r && r < 2 * p
    ensures r / 2 == (x / 2) % p && r % 2 == x % 2
  {
    HalfOfSum(x, q * p, r);
    RemainderIsUnique(x / 2, p, q, r / 2);
  }

  // x by its quotient and remainder for an even divisor.
  lemma {:induction false} EvenDivisor(x: nat, p: nat) returns (q: nat, r: nat)
    requires p > 0
    ensures x == 2 * (q * p) + r && r < 2 * p && r == x % (2 * p)
  {
    q, r := x / (2 * p), x % (2 * p);
    QuotientAndRemainder(x, 2 * p);
    assert q * (2 * p) == 2 * (q * p);
  }

  lemma {:induction false} HalfOfRemainder(x: nat, p: nat)
    requires p > 0
    ensures (x % (2 * p)) / 2 == (x / 2) % p
    ensures (x % (2 * p)) % 2 == x % 2
  {
    var q, r := EvenDivisor(x, p);
    HalfOfRemainderIs(x, p, q, r);
  }

  lemma {:induction false} OrOfZero(m: nat)
    ensures Or(0, m) == m
  {
    if m > 0 {
      OrOfZero(m / 2);
    }
  }

  // Or-ing in what a shift moved above a's bits adds it, within w bits.
  lemma {:induction false} OrAboveAdds(a: nat, c: nat, k: nat, w: nat)
    requires a < Pow2(k) && k <= w
    ensures Or(a, (c * Pow2(k)) % Pow2(w)) == (a + c * Pow2(k)) % Pow2(w)
    decreases k
  {
    if k == 0 {
      OrOfZero(c % Pow2(w));
    } else {
      var h := c * Pow2(k - 1);
      assert c * Pow2(k) == 2 * h;
      HalfOfRemainder(2 * h, Pow2(w - 1));
      HalfOfRemainder(a + 2 * h, Pow2(w - 1));
      OrAboveAdds(a / 2, c, k - 1, w - 1);
      assert (a + 2 * h) / 2 == a / 2 + h;
    }
  }

  lemma {:induction false} BitOfRemainder(x: nat, k: nat, i: nat)
    requires i < k
    ensures Bit(x % Pow2(k), i) <==> Bit(x, i)
    decreases i
  {
    HalfOfRemainder(x, Pow2(k - 1));
    if i > 0 {
      BitOfRemainder(x / 2, k - 1, i - 1);
    }
  }

  // Shifting by s moves bit i - s to bit i and clears the bits below s.
  lemma {:induction false} BitOfShift(m: nat, s: nat, i: nat)
    requires i < 64
    ensures Bit(ShiftLeft64(m, s), i) <==> i >= s && Bit(m, i - s)
  {
    BitOfRemainder(m * Pow2(s), 64, i);
    BitOfProduct(m, s, i);
  }

  // Words below 2^k with the same k bits are equal.
  lemma {:induction false} SameBits(a: nat, b: nat, k: nat)
    requires a < Pow2(k) && b < Pow2(k)
    requires forall i :: 0 <= i < k ==> (Bit(a, i) <==> Bit(b, i))
    ensures a == b
    decreases k
  {
    if k > 0 {
      assert Bit(a, 0) <==> Bit(b, 0);
      forall i | 0 <= i < k - 1
        ensures Bit(a / 2, i) <==> Bit(b / 2, i)
      {
        assert Bit(a, i + 1) <==> Bit(b, i + 1);
      }
      SameBits(a / 2, b / 2, k - 1);
    }
  }
}
