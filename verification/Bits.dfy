/** Machine words as natural numbers, with the bit operations the part bitmap of G2UDP.c uses. */
module Bits {
  import opened Arithmetic

  const WORD_BITS := 64

  /** One more than what an unsigned int holds. */
  const WORD := 0x1_0000_0000

  /** The word with the n lowest bits set: (1 << n) - 1. */
  function Ones(n: nat): (w: nat) {
    if n == 0 then 0 else 2 * Ones(n - 1) + 1
  }

  predicate TestBit(w: nat, i: nat) {
    if i == 0 then w % 2 == 1 else TestBit(w / 2, i - 1)
  }

  /** w | (1 << i). */
  function SetBit(w: nat, i: nat): (r: nat) {
    if i == 0 then w / 2 * 2 + 1 else w % 2 + 2 * SetBit(w / 2, i - 1)
  }

  function Xor(a: nat, b: nat): (r: nat)
    decreases a + b
  {
    if a == 0 && b == 0 then 0 else (if a % 2 == b % 2 then 0 else 1) + 2 * Xor(a / 2, b / 2)
  }

  function Or(a: nat, b: nat): (r: nat)
    decreases a + b
  {
    if a == 0 && b == 0 then 0 else (if a % 2 == 1 || b % 2 == 1 then 1 else 0) + 2 * Or(a / 2, b / 2)
  }

  lemma {:induction false} XorZero(a: nat, b: nat)
    ensures Xor(a, b) == 0 <==> a == b
    decreases a + b
  {
    if a != 0 || b != 0 {
      XorZero(a / 2, b / 2);
    }
  }

  lemma {:induction false} OrZero(a: nat, b: nat)
    ensures Or(a, b) == 0 <==> a == 0 && b == 0
    decreases a + b
  {
    if a != 0 || b != 0 {
      OrZero(a / 2, b / 2);
    }
  }

  lemma {:induction false} SetBitTests(w: nat, i: nat, j: nat)
    ensures TestBit(SetBit(w, i), j) <==> i == j || TestBit(w, j)
  {
    if i > 0 && j > 0 {
      SetBitTests(w / 2, i - 1, j - 1);
    }
  }

  lemma {:induction false} NoBits(i: nat)
    ensures !TestBit(0, i)
  {
    if i > 0 {
      NoBits(i - 1);
    }
  }

  lemma {:induction false} OnesTests(n: nat, i: nat)
    ensures TestBit(Ones(n), i) <==> i < n
  {
    if n == 0 {
      NoBits(i);
    } else if i > 0 {
      OnesTests(n - 1, i - 1);
    }
  }

  /** A word is determined by its bits. */
  lemma {:induction false} SameBits(a: nat, b: nat)
    requires forall i: nat :: TestBit(a, i) == TestBit(b, i)
    ensures a == b
    decreases a + b
  {
    if a != 0 || b != 0 {
      assert TestBit(a, 0) == TestBit(b, 0);
      forall i: nat ensures TestBit(a / 2, i) == TestBit(b / 2, i) {
        assert TestBit(a, i + 1) == TestBit(b, i + 1);
      }
      SameBits(a / 2, b / 2);
    }
  }

  function Pow2(n: nat): (r: nat)
    ensures r > 0
  {
    if n == 0 then 1 else 2 * Pow2(n - 1)
  }

  lemma {:induction false} XorTests(a: nat, b: nat, j: nat)
    ensures TestBit(Xor(a, b), j) == (TestBit(a, j) != TestBit(b, j))
    decreases j
  {
    XorDigits(a, b);
    if j > 0 {
      XorTests(a / 2, b / 2, j - 1);
    }
  }

  /** h >> k. */
  lemma {:induction false} ShiftTests(h: nat, k: nat, j: nat)
    ensures TestBit(Quotient(h, Pow2(k)), j) == TestBit(h, j + k)
    decreases k
  {
    if k > 0 {
      HalvedFirst(h, Pow2(k - 1));
      ShiftTests(h / 2, k - 1, j);
    }
  }

  lemma HalvedFirst(h: nat, p: nat)
    requires p > 0
    ensures Quotient(h, 2 * p) == Quotient(h / 2, p)
  {
    var q := h / 2 / p;
    var r := h / 2 % p;
    assert h / 2 == q * p + r;
    assert h == (2 * p) * q + (2 * r + h % 2) && 2 * r + h % 2 < 2 * p;
    DivisionIs(h, 2 * p, q, 2 * r + h % 2);
  }

  lemma {:induction false} XorBelow(a: nat, b: nat, n: nat)
    requires a < Pow2(n) && b < Pow2(n)
    ensures Xor(a, b) < Pow2(n)
    decreases n
  {
    if n > 0 && (a != 0 || b != 0) {
      XorBelow(a / 2, b / 2, n - 1);
    }
  }

  lemma XorDigits(a: nat, b: nat)
    ensures Xor(a, b) % 2 == (if a % 2 == b % 2 then 0 else 1) && Xor(a, b) / 2 == Xor(a / 2, b / 2)
  {
  }

  lemma SameDigits(a: nat, b: nat)
    requires a % 2 == b % 2 && a / 2 == b / 2
    ensures a == b
  {
  }

  lemma {:induction false} XorTwice(a: nat, b: nat)
    ensures Xor(a, Xor(a, b)) == b
    decreases a + b
  {
    if a != 0 || b != 0 {
      XorTwice(a / 2, b / 2);
      XorDigits(a, b);
      XorDigits(a, Xor(a, b));
      SameDigits(Xor(a, Xor(a, b)), b);
    }
  }
}
