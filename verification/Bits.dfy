/** Exclusive or on integers of any size, as Python computes it. */
module Bits {

  /** Python's `^` on non-negative integers. */
  function Xor(a: nat, b: nat): nat
    decreases a + b
  {
    if a == 0 && b == 0 then 0 else 2 * Xor(a / 2, b / 2) + (a + b) % 2
  }

  lemma {:induction false} XorCancels(a: nat, b: nat)
    ensures Xor(Xor(a, b), b) == a
    decreases a + b
  {
    hide Xor;
    if a == 0 && b == 0 {
      XorZero();
    } else {
      XorCancels(a / 2, b / 2);
      XorFront(a, b);
      XorDigit(Xor(a / 2, b / 2), (a + b) % 2, b);
      ParityCancels(a, b);
    }
  }

  lemma XorZero()
    ensures Xor(0, 0) == 0
  {
  }

  lemma XorFront(a: nat, b: nat)
    ensures Xor(a, b) == 2 * Xor(a / 2, b / 2) + (a + b) % 2
  {
  }

  lemma ParityCancels(a: nat, b: nat)
    ensures 2 * (a / 2) + ((a + b) % 2 + b) % 2 == a
  {
  }

  lemma SameParity(a: nat, b: nat, c: nat, d: nat)
    requires a % 2 == c % 2 && b % 2 == d % 2
    ensures (a + b) % 2 == (c + d) % 2
  {
  }

  lemma Halved(x: nat, d: nat)
    requires d < 2
    ensures (2 * x + d) / 2 == x && (2 * x + d) % 2 == d
  {
  }

  lemma XorDigit(x: nat, d: nat, b: nat)
    requires d < 2
    ensures Xor(2 * x + d, b) == 2 * Xor(x, b / 2) + (d + b) % 2
  {
    hide Xor;
    XorFront(2 * x + d, b);
    Halved(x, d);
    SameParity(2 * x + d, b, d, b);
  }

  function Power2(n: nat): nat {
    if n == 0 then 1 else 2 * Power2(n - 1)
  }

  lemma {:induction false} XorBounded(a: nat, b: nat, n: nat)
    requires a < Power2(n) && b < Power2(n)
    ensures Xor(a, b) < Power2(n)
    decreases n
  {
    if n > 0 { XorBounded(a / 2, b / 2, n - 1); }
  }

  /** The exclusive or goes digit by digit, so two numbers can be split at any place. */
  lemma {:induction false} XorSplit(a: nat, b: nat, c: nat, d: nat, n: nat)
    requires a < Power2(n) && c < Power2(n)
    ensures Xor(a + Power2(n) * b, c + Power2(n) * d) == Xor(a, c) + Power2(n) * Xor(b, d)
    decreases n
  {
    hide Xor;
    if n == 0 {
      XorZero();
    } else {
      hide Power2;
      var p := Power2(n - 1);
      Doubling(n);
      XorSplit(a / 2, b, c / 2, d, n - 1);
      HalfOfSum(a, p, b);
      HalfOfSum(c, p, d);
      XorFront(a + Power2(n) * b, c + Power2(n) * d);
      XorFront(a, c);
      SameParity(a + Power2(n) * b, c + Power2(n) * d, a, c);
      Doubled(p, Xor(b, d));
    }
  }

  lemma Doubling(n: nat)
    requires n > 0
    ensures Power2(n) == 2 * Power2(n - 1)
  {
  }

  lemma HalfOfSum(a: nat, p: nat, b: nat)
    ensures (a + 2 * p * b) / 2 == a / 2 + p * b && (a + 2 * p * b) % 2 == a % 2
  {
    assert 2 * p * b == 2 * (p * b);
  }

  // ----- bit by bit -----

  /** Bit i of a number. */
  function Bit(a: nat, i: nat): bool
    decreases i
  {
    if i == 0 then a % 2 == 1 else Bit(a / 2, i - 1)
  }

  lemma {:induction false} XorBit(a: nat, b: nat, i: nat)
    ensures Bit(Xor(a, b), i) == (Bit(a, i) != Bit(b, i))
    decreases i
  {
    hide Xor;
    XorFront(a, b);
    if i > 0 { XorBit(a / 2, b / 2, i - 1); }
  }

  // ----- the low bits -----

  function Low(a: nat, n: nat): nat
    decreases n
  {
    if n == 0 then 0 else 2 * Low(a / 2, n - 1) + a % 2
  }

  function High(a: nat, n: nat): nat
    decreases n
  {
    if n == 0 then a else High(a / 2, n - 1)
  }

  lemma {:induction false} LowHigh(a: nat, n: nat)
    ensures Low(a, n) < Power2(n) && a == Low(a, n) + Power2(n) * High(a, n)
    decreases n
  {
    if n > 0 {
      LowHigh(a / 2, n - 1);
      Doubled(Power2(n - 1), High(a / 2, n - 1));
    }
  }

  lemma Doubled(p: nat, h: nat)
    ensures 2 * (p * h) == (2 * p) * h
  {
  }

  lemma LowFront(a: nat, n: nat)
    requires n > 0
    ensures Low(a, n) == 2 * Low(a / 2, n - 1) + a % 2
    ensures Low(a, n) / 2 == Low(a / 2, n - 1) && Low(a, n) % 2 == a % 2
  {
  }

  /** The low bits of an exclusive or depend on the low bits alone. */
  lemma {:induction false} XorLow(a: nat, b: nat, n: nat)
    ensures Low(Xor(a, b), n) == Xor(Low(a, n), Low(b, n))
    decreases n
  {
    hide Xor;
    if n == 0 {
      XorZero();
    } else {
      hide Low;
      XorLow(a / 2, b / 2, n - 1);
      LowFront(a, n);
      LowFront(b, n);
      LowFront(Xor(a, b), n);
      XorFront(a, b);
      Halved(Xor(a / 2, b / 2), (a + b) % 2);
      XorFront(Low(a, n), Low(b, n));
      SameParity(a, b, Low(a, n), Low(b, n));
    }
  }

  lemma LowWord(a: nat)
    ensures Low(a, 32) == a % 0x1_0000_0000
  {
    hide Low, High, Power2;
    ThirtyTwoBits();
    LowHigh(a, 32);
  }

  lemma ThirtyTwoBits()
    ensures Power2(32) == 0x1_0000_0000
  {
    assert Power2(8) == 256 by { EightBits(); }
    PowerSum(8, 8);
    PowerSum(16, 16);
  }

  lemma {:induction false} PowerSum(i: nat, j: nat)
    ensures Power2(i + j) == Power2(i) * Power2(j)
    decreases i
  {
    if i > 0 {
      PowerSum(i - 1, j);
      assert Power2(i + j) == 2 * (Power2(i - 1) * Power2(j));
    }
  }

  lemma EightBits()
    ensures Power2(8) == 256
  {
    assert Power2(2) == 4;
    assert Power2(4) == 16;
    assert Power2(6) == 64;
  }
}
