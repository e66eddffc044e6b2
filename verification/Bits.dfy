/** Bitwise operations on natural numbers, and what they do to single bits. */
module Bits {
  import opened RustInt

  /** Bitwise exclusive or, bit by bit from the low end. */
  function Xor(a: nat, b: nat): nat
    decreases a + b
  {
    if a == 0 && b == 0 then 0 else (a + b) % 2 + 2 * Xor(a / 2, b / 2)
  }

  /** `a >> k`. */
  function Shr(a: nat, k: nat): (r: nat)
    ensures r <= a && (k > 0 && a > 0 ==> r < a)
    decreases k
  {
    if k == 0 then a else Shr(a / 2, k - 1)
  }

  lemma {:induction false} XorCancels(a: nat, b: nat)
    ensures Xor(Xor(a, b), b) == a
    decreases a + b
  {
    if a > 0 || b > 0 {
      XorCancels(a / 2, b / 2);
      XorParts(a, b);
      CancelBit(Xor(a, b), b, a);
    }
  }

  lemma CancelBit(x: nat, b: nat, a: nat)
    requires x % 2 == (a + b) % 2 && Xor(x / 2, b / 2) == a / 2
    ensures Xor(x, b) == a
  {
    if x > 0 || b > 0 {
      XorParts(x, b);
      Parity(x, a, b);
      SameParts(Xor(x, b), a);
    }
  }

  lemma Parity(x: nat, a: nat, b: nat)
    requires x % 2 == (a + b) % 2
    ensures (x + b) % 2 == a % 2
  {
    assert x == x / 2 * 2 + x % 2 && a == a / 2 * 2 + a % 2 && b == b / 2 * 2 + b % 2;
  }

  lemma XorParts(a: nat, b: nat)
    requires a > 0 || b > 0
    ensures Xor(a, b) % 2 == (a + b) % 2 && Xor(a, b) / 2 == Xor(a / 2, b / 2)
  {
    TwoParts(Xor(a, b), (a + b) % 2, Xor(a / 2, b / 2));
  }

  lemma TwoParts(x: nat, bit: nat, half: nat)
    requires x == bit + 2 * half && bit < 2
    ensures x % 2 == bit && x / 2 == half
  {
  }

  lemma SameParts(x: nat, y: nat)
    ensures x % 2 == y % 2 && x / 2 == y / 2 ==> x == y
  {
  }

  lemma {:induction false} XorShr(a: nat, b: nat, k: nat)
    ensures Shr(Xor(a, b), k) == Xor(Shr(a, k), Shr(b, k))
    decreases k
  {
    if k > 0 {
      XorShr(a / 2, b / 2, k - 1);
    }
  }

  function Pow2(n: nat): (p: nat)
    ensures p > 0
  {
    if n == 0 then 1 else 2 * Pow2(n - 1)
  }

  lemma {:induction false} XorFits(a: nat, b: nat, n: nat)
    requires a < Pow2(n) && b < Pow2(n)
    ensures Xor(a, b) < Pow2(n)
    decreases n
  {
    if n > 0 {
      XorFits(a / 2, b / 2, n - 1);
    }
  }

  /** Bit `i`, from the low end. */
  function Bit(a: nat, i: nat): nat
    decreases i
  {
    if i == 0 then a % 2 else Bit(a / 2, i - 1)
  }

  /** Exclusive or adds each pair of bits, without a carry. */
  lemma {:induction false} XorBit(a: nat, b: nat, i: nat)
    ensures Bit(Xor(a, b), i) == (Bit(a, i) + Bit(b, i)) % 2
    decreases i
  {
    if a == 0 && b == 0 {
      ZeroBit(i);
    } else {
      XorParts(a, b);
      if i == 0 {
        Parts(a, b);
      } else {
        XorBit(a / 2, b / 2, i - 1);
      }
    }
  }

  lemma Parts(a: nat, b: nat)
    ensures (a + b) % 2 == (a % 2 + b % 2) % 2
  {
  }

  lemma {:induction false} ZeroBit(i: nat)
    ensures Bit(0, i) == 0
    decreases i
  {
    if i > 0 {
      ZeroBit(i - 1);
    }
  }

  /** Exclusive or with a bit that is not set sets it. */
  lemma {:induction false} XorSets(a: nat, k: nat)
    requires Bit(a, k) == 0
    ensures Xor(a, Pow2(k)) == a + Pow2(k)
    decreases k
  {
    var b := Pow2(k);
    XorParts(a, b);
    if k == 0 {
      XorZero(a / 2);
    } else {
      XorSets(a / 2, k - 1);
      TwoParts(b, 0, Pow2(k - 1));
    }
    SameParts(Xor(a, b), a + b);
  }

  lemma {:induction false} XorZero(a: nat)
    ensures Xor(a, 0) == a
  {
    if a > 0 {
      XorZero(a / 2);
    }
  }

  /** A right shift moves bits down. */
  lemma {:induction false} ShrBit(a: nat, k: nat, i: nat)
    ensures Bit(Shr(a, k), i) == Bit(a, i + k)
    decreases k
  {
    if k > 0 {
      ShrBit(a / 2, k - 1, i);
    }
  }

  /** The low `n` bits of two numbers agree exactly if their remainders by 2 to the n do. */
  lemma {:induction false} LowBits(a: nat, b: nat, n: nat)
    ensures a % Pow2(n) == b % Pow2(n) <==> SameBits(a, b, n)
    decreases n
  {
    if n > 0 {
      LowBits(a / 2, b / 2, n - 1);
      SplitRemainder(a, Pow2(n - 1));
      SplitRemainder(b, Pow2(n - 1));
      SameRest(a, b, n);
    }
  }

  /** The first `n` bits are the same. */
  ghost predicate SameBits(a: nat, b: nat, n: nat) {
    forall i: nat :: i < n ==> Bit(a, i) == Bit(b, i)
  }

  lemma SameRest(a: nat, b: nat, n: nat)
    requires n > 0
    ensures SameBits(a, b, n) <==> a % 2 == b % 2 && SameBits(a / 2, b / 2, n - 1)
  {
    if SameBits(a, b, n) {
      RestIsSame(a, b, n);
    }
    if a % 2 == b % 2 && SameBits(a / 2, b / 2, n - 1) {
      WholeIsSame(a, b, n);
    }
  }

  lemma RestIsSame(a: nat, b: nat, n: nat)
    requires n > 0 && SameBits(a, b, n)
    ensures a % 2 == b % 2 && SameBits(a / 2, b / 2, n - 1)
  {
    assert Bit(a, 0) == Bit(b, 0);
    forall i: nat | i < n - 1
      ensures Bit(a / 2, i) == Bit(b / 2, i)
    {
      NextBit(a, i);
      NextBit(b, i);
      assert Bit(a, i + 1) == Bit(b, i + 1);
    }
  }

  lemma WholeIsSame(a: nat, b: nat, n: nat)
    requires n > 0 && a % 2 == b % 2 && SameBits(a / 2, b / 2, n - 1)
    ensures SameBits(a, b, n)
  {
    forall i: nat | i < n
      ensures Bit(a, i) == Bit(b, i)
    {
      if i > 0 {
        NextBit(a, i - 1);
        NextBit(b, i - 1);
        assert Bit(a / 2, i - 1) == Bit(b / 2, i - 1);
      }
    }
  }

  lemma NextBit(a: nat, i: nat)
    ensures Bit(a, i + 1) == Bit(a / 2, i)
  {
  }

  lemma SplitRemainder(a: nat, m: nat)
    requires m > 0
    ensures a % (2 * m) == a % 2 + 2 * (a / 2 % m)
  {
    var q, r := a / 2 / m, a / 2 % m;
    assert a == 2 * (q * m + r) + a % 2;
    assert a == q * (2 * m) + (2 * r + a % 2);
    Remainder(a, 2 * m, q, 2 * r + a % 2);
  }

  lemma Remainder(a: nat, m: nat, q: nat, r: nat)
    requires m > 0 && r < m && a == q * m + r
    ensures a % m == r
  {
    Quotient(a, m, q, r);
  }
}
