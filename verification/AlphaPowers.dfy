/** The first powers of alpha, and the equations between them that give its order. */
module AlphaPowers {
  import opened Bits
  import opened Gf256

  /** Without a carry, doubling is a shift. */
  lemma {:induction false} AlphaShifts(n: nat, v: nat)
    requires v < 128 && Alpha(n) == v
    ensures Alpha(n + 1) == 2 * v
    ensures v < 64 ==> Alpha(n + 2) == 4 * v
    ensures v < 32 ==> Alpha(n + 3) == 8 * v
  {
    assert Alpha(n + 1) == Double(v);
    assert v < 64 ==> Alpha(n + 2) == Double(2 * v);
    assert v < 32 ==> Alpha(n + 3) == Double(4 * v);
  }

  lemma {:induction false} AlphaCarries(n: nat, u: nat, p: nat, q: nat, r: nat, t: nat)
    requires u < 8 && p < 2 && q < 2 && r < 2 && t < 2
    requires Alpha(n) == 128 + 16 * u + 8 * p + 4 * q + 2 * r + t
    ensures Alpha(n + 1) == 32 * u + 16 * (1 - p) + 8 * (1 - q) + 4 * (1 - r) + 2 * t + 1
  {
    DoubleCarries(u, p, q, r, t);
  }

  lemma {:induction false} AlphaEight(n: nat)
    requires Alpha(n) == 1
    ensures Alpha(n + 7) == 128 && Alpha(n + 8) == 29
  {
    hide *;
    AlphaShifts(n, 1);
    AlphaShifts(n + 3, 8);
    AlphaShifts(n + 6, 64);
    AlphaCarries(n + 7, 0, 0, 0, 0, 0);
  }

  lemma {:induction false} AlphaFifteen(n: nat)
    requires Alpha(n + 8) == 29
    ensures Alpha(n + 13) == 135 && Alpha(n + 15) == 38 && Alpha(n + 17) == 152
  {
    hide *;
    AlphaShifts(n + 8, 29);
    AlphaCarries(n + 11, 6, 1, 0, 0, 0);
    AlphaCarries(n + 12, 4, 1, 1, 0, 1);
    AlphaCarries(n + 13, 0, 0, 1, 1, 1);
    AlphaShifts(n + 14, 19);
  }

  lemma {:induction false} AlphaTwentyTwo(n: nat)
    requires Alpha(n + 17) == 152
    ensures Alpha(n + 22) == 234
  {
    hide *;
    AlphaCarries(n + 17, 1, 1, 0, 0, 0);
    AlphaShifts(n + 18, 45);
    AlphaCarries(n + 20, 3, 0, 1, 0, 0);
    AlphaShifts(n + 21, 117);
  }

  lemma {:induction false} AlphaTwentyFive(n: nat)
    requires Alpha(n + 22) == 234
    ensures Alpha(n + 25) == 3
  {
    hide *;
    AlphaCarries(n + 22, 6, 1, 0, 1, 0);
    AlphaCarries(n + 23, 4, 1, 0, 0, 1);
    AlphaCarries(n + 24, 0, 1, 1, 1, 1);
  }

  /** An equation between powers of alpha may be multiplied by alpha^k. */
  lemma {:induction false} AlphaScale(n: nat, a: nat, b: nat, k: nat)
    requires Alpha(n) == Add(Alpha(a), Alpha(b))
    ensures Alpha(n + k) == Add(Alpha(a + k), Alpha(b + k))
  {
    hide *;
    AlphaAdd(n, k);
    AlphaAdd(a, k);
    AlphaAdd(b, k);
    MulAddLeft(Alpha(a), Alpha(b), Alpha(k));
  }

  /** In characteristic two, squaring is linear. */
  lemma {:induction false} AlphaSquare(n: nat, a: nat, b: nat)
    requires Alpha(n) == Add(Alpha(a), Alpha(b))
    ensures Alpha(2 * n) == Add(Alpha(2 * a), Alpha(2 * b))
  {
    AlphaScale(n, a, b, n);
    AlphaScale(n, a, b, a);
    AlphaScale(n, a, b, b);
    XorCommutes(Alpha(a + a), Alpha(b + a));
    XorSwap(Alpha(b + a), Alpha(a + a), Alpha(a + b), Alpha(b + b));
    XorSelf(Alpha(a + b));
    XorZero(Add(Alpha(a + a), Alpha(b + b)));
  }

  /** The five sums of bytes that the order of alpha rests on. */
  lemma {:induction false} XorLiterals(a: Byte, b: Byte)
    requires a == 1 && b == 2
    ensures Add(a, b) == 3 && Add(a, 2 * b) == 5 && Add(a, 8 * b) == 17
    ensures Add(16 * b, 38) == 6 && Add(64 * b, 135) == 7 && Add(3 * b, 7) == 1
  {
    hide Xor;
    assert Pow2(1) == 2 && Pow2(2) == 4 && Pow2(4) == 16 && Pow2(5) == 32 && Pow2(7) == 128;
    XorAddTop(a, 1);
    XorAddTop(a, 2);
    XorAddTop(a, 4);
    XorCommutes(a, b);
    XorCommutes(a, 2 * b);
    XorCommutes(a, 8 * b);
    XorAddTop(6, 5);
    XorCommutes(16 * b, 38);
    XorAddTop(7, 7);
    XorCommutes(64 * b, 135);
    XorDigit(3, 3, 0, 1);
    XorSelf(3);
  }

  lemma {:induction false} AlphaLandmarks(n: nat)
    requires Alpha(n) == 1
    ensures Alpha(n + 1) == 2 && Alpha(n + 2) == 4 && Alpha(n + 4) == 16 && Alpha(n + 5) == 32
    ensures Alpha(n + 7) == 128 && Alpha(n + 13) == 135 && Alpha(n + 15) == 38 && Alpha(n + 25) == 3
  {
    hide *;
    AlphaShifts(n, 1);
    AlphaShifts(n + 2, 4);
    AlphaEight(n);
    AlphaFifteen(n);
    AlphaTwentyTwo(n);
    AlphaTwentyFive(n);
  }

  /** alpha^25 = 1 + alpha, so its powers of two are binomials. */
  lemma {:induction false} AlphaBinomials(n: nat)
    requires n == 0 && Alpha(n) == 1
    ensures Alpha(n + 50) == Add(Alpha(n), Alpha(n + 2))
    ensures Alpha(n + 100) == Add(Alpha(n), Alpha(n + 4))
    ensures Alpha(n + 200) == Add(Alpha(n), Alpha(n + 8))
  {
    hide *;
    AlphaLandmarks(n);
    XorLiterals(1, 2);
    assert Alpha(n + 25) == Add(Alpha(n), Alpha(n + 1));
    AlphaSquare(n + 25, n, n + 1);
    AlphaSquare(n + 50, n, n + 2);
    AlphaSquare(n + 100, n, n + 4);
  }

  /** 255 = 200 + 50 + 5, and (1 + alpha^8)(1 + alpha^2) alpha^5 = 1. */
  lemma {:induction false} AlphaCycle(n: nat)
    requires n == 0 && Alpha(n) == 1
    ensures Alpha(n + 255) == 1
  {
    hide Xor, Double, Alpha;
    AlphaLandmarks(n);
    AlphaBinomials(n);
    AlphaScale(n + 50, n, n + 2, 5);
    AlphaScale(n + 200, n, n + 8, 55);
    AlphaScale(n + 55, n + 5, n + 7, 8);
    assert Alpha(n + 255) == Add(Add(32, 128), Add(135, 38));
    XorCommutes(135, 38);
    XorSwap(32, 128, 38, 135);
    XorLiterals(1, 2);
  }

  /** alpha^15, alpha^51 and alpha^85 are not one. */
  lemma {:induction false} AlphaNotYet(n: nat)
    requires n == 0 && Alpha(n) == 1
    ensures Alpha(n + 15) != 1 && Alpha(n + 51) != 1 && Alpha(n + 85) != 1
  {
    hide *;
    AlphaLandmarks(n);
    AlphaBinomials(n);
    XorLiterals(1, 2);
    AlphaShifts(n + 50, 5);
    if Alpha(n + 85) == 1 {
      AlphaAdd(n + 85, 15);
      MulOne(Alpha(n + 15));
    }
  }
}
