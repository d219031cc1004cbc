/** The field GF(256) of ISO/IEC 18004:2015, section 7.5: bytes read as polynomials over
    GF(2), modulo x^8 + x^4 + x^3 + x^2 + 1 (the number 285). This is the reference that the
    tables of QrMath.dfy are proved against: nothing here mentions a table or a logarithm. */
module Gf256 {
  import opened Bits

  const MODULUS := 285

  /** Multiplication by alpha, the class of x: shift, and reduce when a bit is carried out. */
  function Double(a: Byte): Byte {
    if a < 128 then 2 * a
    else
      assert Pow2(8) == 256 && Pow2(9) == 512;
      XorTopBits(2 * a, MODULUS, 8);
      Xor(2 * a, MODULUS)
  }

  /** The product: the sum of a * alpha^i over the set bits i of b. */
  function Mul(a: Byte, b: nat): Byte
    decreases b
  {
    if b == 0 then 0
    else
      var low: Byte := if b % 2 == 1 then a else 0;
      XorByte(low, Mul(Double(a), b / 2));
      Xor(low, Mul(Double(a), b / 2))
  }

  /** alpha^n */
  function Alpha(n: nat): Byte {
    if n == 0 then 1 else Double(Alpha(n - 1))
  }

  /** The sum of two elements, as a byte. */
  function Add(a: Byte, b: Byte): Byte {
    XorByte(a, b);
    Xor(a, b)
  }

  // ---- GF(256) is a commutative ring ----

  lemma {:induction false} DoubleAs(a: Byte)
    ensures Double(a) == Xor(2 * a, if a < 128 then 0 else MODULUS)
  {
    XorZero(2 * a);
  }

  lemma {:induction false} CarryOfSum(a: Byte, b: Byte)
    ensures Xor(a, b) < 128 <==> (a < 128 <==> b < 128)
  {
    assert Pow2(7) == 128 && Pow2(8) == 256;
    hide *;
    if a < 128 && b < 128 {
      XorBound(a, b, 7);
    } else if a < 128 {
      XorCommutes(a, b);
      XorTopBit(b, a, 7);
    } else if b < 128 {
      XorTopBit(a, b, 7);
    } else {
      XorTopBits(a, b, 7);
    }
  }

  lemma {:induction false} DoubleLinear(a: Byte, b: Byte)
    ensures Double(Add(a, b)) == Add(Double(a), Double(b))
  {
    DoubleAs(a);
    DoubleAs(b);
    DoubleAs(Add(a, b));
    CarryOfSum(a, b);
    hide Xor, Double;
    var x, y := if a < 128 then 0 else MODULUS, if b < 128 then 0 else MODULUS;
    XorDigit(a, b, 0, 0);
    XorSwap(2 * a, x, 2 * b, y);
    XorSelf(MODULUS);
    XorZero(MODULUS);
    XorZero(0);
    assert Xor(x, y) == if Xor(a, b) < 128 then 0 else MODULUS;
  }

  lemma {:induction false} MulZero(a: nat)
    ensures Mul(0, a) == 0
  {
    if a != 0 {
      MulZero(a / 2);
      XorZero(0);
    }
  }

  lemma {:induction false} MulAddLeft(a: Byte, b: Byte, c: nat)
    ensures Mul(Add(a, b), c) == Add(Mul(a, c), Mul(b, c))
    decreases c
  {
    hide Xor;
    if c == 0 {
      XorZero(0);
    } else {
      DoubleLinear(a, b);
      MulAddLeft(Double(a), Double(b), c / 2);
      var x, y := Mul(Double(a), c / 2), Mul(Double(b), c / 2);
      if c % 2 == 1 {
        XorSwap(a, b, x, y);
      } else {
        XorZero(x);
        XorZero(y);
        XorZero(Xor(x, y));
      }
    }
  }

  lemma {:induction false} MulUnfold(a: Byte, b: nat)
    ensures Mul(a, b) == Xor(if b % 2 == 1 then a else 0, Mul(Double(a), b / 2))
  {
    if b == 0 {
      XorZero(0);
    }
  }

  lemma {:induction false} MulAddRight(a: Byte, b: nat, c: nat)
    ensures Mul(a, Xor(b, c)) == Add(Mul(a, b), Mul(a, c))
    decreases b + c
  {
    XorZero(0);
    XorZero(a);
    XorHalves(b, c);
    if b > 0 || c > 0 {
      MulAddRight(Double(a), b / 2, c / 2);
      MulUnfold(a, b);
      MulUnfold(a, c);
      MulUnfold(a, Xor(b, c));
      hide Xor, Mul, Double;
      var p, q := if b % 2 == 1 then a else 0, if c % 2 == 1 then a else 0;
      XorSwap(p, Mul(Double(a), b / 2), q, Mul(Double(a), c / 2));
      XorSelf(a);
      assert Xor(p, q) == if Xor(b, c) % 2 == 1 then a else 0;
    }
  }

  lemma {:induction false} MulDoubleLeft(a: Byte, b: nat)
    ensures Mul(Double(a), b) == Double(Mul(a, b))
    decreases b
  {
    if b != 0 {
      MulDoubleLeft(Double(a), b / 2);
      DoubleLinear(if b % 2 == 1 then a else 0, Mul(Double(a), b / 2));
    }
  }

  /** Doubling a byte of 128 or more, digit by digit. */
  lemma {:induction false} DoubleCarries(u: nat, p: nat, q: nat, r: nat, t: nat)
    requires u < 8 && p < 2 && q < 2 && r < 2 && t < 2
    ensures Double(128 + 16 * u + 8 * p + 4 * q + 2 * r + t) ==
            32 * u + 16 * (1 - p) + 8 * (1 - q) + 4 * (1 - r) + 2 * t + 1
  {
    hide Xor;
    assert Pow2(3) == 8;
    XorAddTop(u, 3);
    XorDigit(8 + u, 8, p, 1);
    XorDigit(16 + 2 * u + p, 17, q, 1);
    XorDigit(32 + 4 * u + 2 * p + q, 35, r, 1);
    XorDigit(64 + 8 * u + 4 * p + 2 * q + r, 71, t, 0);
    XorDigit(128 + 16 * u + 8 * p + 4 * q + 2 * r + t, 142, 0, 1);
  }

  lemma {:induction false} MulOne(a: Byte)
    ensures Mul(a, 1) == a == Mul(1, a)
  {
    hide Xor;
    XorZero(a);
    assert Mul(Double(a), 0) == 0;
    if a > 1 {
      var h := a / 2;
      MulOne(h);
      MulDoubleLeft(1, h);
      assert Double(1) == 2;
      XorHalves(a % 2, 2 * h);
      XorZero(h);
      XorZero(2 * h);
    }
  }

  /** The modulus is zero in the field. */
  lemma {:induction false} MulModulus(a: Byte, m: nat)
    requires m == MODULUS
    ensures Mul(a, m) == 0
  {
    hide Xor;
    if a == 0 {
      MulZero(m);
    } else if a == 1 {
      MulOneModulus(1, m);
    } else {
      var h := a / 2;
      MulModulus(h, m);
      MulModulus(a % 2, m);
      MulDoubleLeft(h, m);
      XorHalves(a % 2, 2 * h);
      XorZero(h);
      MulAddLeft(a % 2, Double(h), m);
      XorZero(0);
      assert Add(a % 2, Double(h)) == a;
    }
  }

  lemma {:induction false} MulEven(a: Byte, c: nat)
    requires c > 0
    ensures Mul(a, 2 * c) == Mul(Double(a), c)
  {
    XorZero(Mul(Double(a), c));
  }

  lemma {:induction false} MulOneModulus(a: Byte, m: nat)
    requires a == 1 && m == MODULUS
    ensures Mul(a, m) == 0
  {
    hide Xor;
    DoubleCarries(0, 0, 0, 0, 0);
    var r := Double(128 * a);
    assert r == Xor(m - 29, m) == 29;
    XorCommutes(m - 29, m);
    XorCancel(m, m - 29);
    XorCommutes(m - 29, r);
    MulAddRight(a, m - 29, r);
    MulEven(a, 128);
    MulEven(2 * a, 64);
    MulEven(4 * a, 32);
    MulEven(8 * a, 16);
    MulEven(16 * a, 8);
    MulEven(32 * a, 4);
    MulEven(64 * a, 2);
    MulEven(128 * a, 1);
    MulOne(r);
    XorSelf(r);
  }

  lemma {:induction false} MulDoubleRight(a: Byte, b: Byte)
    ensures Mul(a, Double(b)) == Double(Mul(a, b))
  {
    hide Xor;
    MulDoubleLeft(a, b);
    if b > 0 {
      MulEven(a, b);
    }
    if b >= 128 {
      var m := MODULUS;
      MulAddRight(a, 2 * b, m);
      MulModulus(a, m);
      XorZero(Mul(a, 2 * b));
    }
  }

  lemma {:induction false} MulCommutes(a: Byte, b: Byte)
    ensures Mul(a, b) == Mul(b, a)
    decreases b
  {
    hide Xor;
    if b == 0 {
      MulZero(a);
    } else {
      var h := b / 2;
      MulCommutes(Double(a), h);
      MulDoubleRight(h, a);
      MulDoubleLeft(h, a);
      XorHalves(b % 2, 2 * h);
      XorZero(h);
      MulAddLeft(b % 2, Double(h), a);
      MulOne(a);
      MulZero(a);
      assert Add(b % 2, Double(h)) == b;
    }
  }

  lemma {:induction false} MulAssociates(a: Byte, b: Byte, c: nat)
    ensures Mul(Mul(a, b), c) == Mul(a, Mul(b, c))
    decreases c
  {
    if c != 0 {
      MulDoubleRight(a, b);
      MulAssociates(a, Double(b), c / 2);
      var low: Byte := if c % 2 == 1 then b else 0;
      MulAddRight(a, low, Mul(Double(b), c / 2));
    }
  }

  // ---- its nonzero elements are the 255 distinct powers of alpha ----

  lemma {:induction false} AlphaAdd(n: nat, m: nat)
    ensures Alpha(n + m) == Mul(Alpha(n), Alpha(m))
    decreases m
  {
    if m == 0 {
      MulOne(Alpha(n));
    } else {
      AlphaAdd(n, m - 1);
      MulDoubleRight(Alpha(n), Alpha(m - 1));
    }
  }
}
