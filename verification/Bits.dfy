/** Exclusive or on natural numbers: the `^` of the program on non-negative numbers, and at
    the same time the addition of polynomials over GF(2) written as numbers. */
module Bits {

  type Byte = x: nat | x < 256

  function Pow2(n: nat): (r: nat)
    ensures r > 0
  {
    if n == 0 then 1 else 2 * Pow2(n - 1)
  }

  lemma {:induction false} Pow2Monotone(i: nat, j: nat)
    requires i <= j
    ensures Pow2(i) <= Pow2(j)
    decreases j
  {
    if i < j {
      Pow2Monotone(i, j - 1);
    }
  }

  function Xor(a: nat, b: nat): nat {
    if a == 0 && b == 0 then 0
    else 2 * Xor(a / 2, b / 2) + (if a % 2 == b % 2 then 0 else 1)
  }

  // ---- (nat, Xor) is a commutative group of exponent two ----

  lemma {:induction false} XorZero(a: nat)
    ensures Xor(a, 0) == a == Xor(0, a)
  {
    if a != 0 {
      XorZero(a / 2);
    }
  }

  lemma {:induction false} XorSelf(a: nat)
    ensures Xor(a, a) == 0
  {
    if a != 0 {
      XorSelf(a / 2);
    }
  }

  lemma {:induction false} XorCommutes(a: nat, b: nat)
    ensures Xor(a, b) == Xor(b, a)
  {
    if a != 0 || b != 0 {
      XorCommutes(a / 2, b / 2);
    }
  }

  lemma {:induction false} XorHalves(a: nat, b: nat)
    ensures Xor(a, b) / 2 == Xor(a / 2, b / 2)
    ensures Xor(a, b) % 2 == (a + b) % 2
  {
  }

  lemma {:induction false} XorAssociates(a: nat, b: nat, c: nat)
    ensures Xor(Xor(a, b), c) == Xor(a, Xor(b, c))
    decreases a + b + c
  {
    if a != 0 || b != 0 || c != 0 {
      XorAssociates(a / 2, b / 2, c / 2);
      XorHalves(a, b);
      XorHalves(b, c);
      XorHalves(Xor(a, b), c);
      XorHalves(a, Xor(b, c));
    }
  }

  /** Regroups a sum of four terms. */
  lemma {:induction false} XorSwap(a: nat, b: nat, c: nat, d: nat)
    ensures Xor(Xor(a, b), Xor(c, d)) == Xor(Xor(a, c), Xor(b, d))
  {
    XorAssociates(a, b, Xor(c, d));
    XorAssociates(b, c, d);
    XorCommutes(b, c);
    XorAssociates(c, b, d);
    XorAssociates(a, c, Xor(b, d));
  }

  lemma {:induction false} XorCancel(a: nat, b: nat)
    ensures Xor(Xor(a, b), b) == a
  {
    XorAssociates(a, b, b);
    XorSelf(b);
    XorZero(a);
  }

  lemma {:induction false} XorIsZero(a: nat, b: nat)
    requires Xor(a, b) == 0
    ensures a == b
  {
    XorCancel(a, b);
    XorZero(b);
  }

  /** Digit by digit. */
  lemma {:induction false} XorDigit(h: nat, k: nat, p: nat, q: nat)
    requires p < 2 && q < 2
    ensures Xor(2 * h + p, 2 * k + q) == 2 * Xor(h, k) + (if p == q then 0 else 1)
  {
    assert (2 * h + p) / 2 == h && (2 * k + q) / 2 == k;
  }

  // ---- magnitude ----

  lemma {:induction false} XorBound(a: nat, b: nat, n: nat)
    requires a < Pow2(n) && b < Pow2(n)
    ensures Xor(a, b) < Pow2(n)
  {
    if n > 0 {
      XorBound(a / 2, b / 2, n - 1);
    }
  }

  /** Equal top bits cancel. */
  lemma {:induction false} XorTopBits(a: nat, b: nat, n: nat)
    requires Pow2(n) <= a < Pow2(n + 1) && Pow2(n) <= b < Pow2(n + 1)
    ensures Xor(a, b) < Pow2(n)
  {
    if n == 0 {
      XorSelf(1);
    } else {
      XorTopBits(a / 2, b / 2, n - 1);
    }
  }

  /** A lone top bit survives. */
  lemma {:induction false} XorTopBit(a: nat, b: nat, n: nat)
    requires Pow2(n) <= a < Pow2(n + 1) && b < Pow2(n)
    ensures Pow2(n) <= Xor(a, b) < Pow2(n + 1)
  {
    XorBound(a, b, n + 1);
    if Xor(a, b) < Pow2(n) {
      XorBound(Xor(a, b), b, n);
      XorCancel(a, b);
    }
  }

  lemma {:induction false} XorByte(a: Byte, b: Byte)
    ensures Xor(a, b) < 256
  {
    assert Pow2(8) == 256;
    XorBound(a, b, 8);
  }

  /** A lone top bit is added. */
  lemma {:induction false} XorAddTop(b: nat, n: nat)
    requires b < Pow2(n)
    ensures Xor(Pow2(n), b) == Pow2(n) + b
    ensures Xor(Pow2(n) + b, Pow2(n)) == b
  {
    hide Xor;
    if n == 0 {
      XorZero(1);
      XorSelf(1);
    } else {
      XorAddTop(b / 2, n - 1);
      XorDigit(Pow2(n - 1), b / 2, 0, b % 2);
      XorDigit(Pow2(n - 1) + b / 2, Pow2(n - 1), b % 2, 0);
    }
  }
}
