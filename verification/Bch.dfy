/** The BCH codes of the format and version information (ISO/IEC 18004:2015, sections 7.9 and
    7.10). Numbers stand for polynomials over GF(2); where the program works on signed 32-bit
    integers, this is their bit pattern. */
module Bch {
  import opened Arithmetic
  import opened Bits

  const G15 := 0x537
  const G18 := 0x1F25
  const G15_MASK := 0x5412
  const WORD := 0x1_0000_0000

  /** The product of polynomials over GF(2). */
  function Clmul(q: nat, g: nat): nat {
    if q == 0 then 0 else Xor(if q % 2 == 1 then g else 0, 2 * Clmul(q / 2, g))
  }

  /** The number of binary digits: the degree plus one. */
  function BitLength(n: nat): nat {
    if n == 0 then 0 else 1 + BitLength(n / 2)
  }

  lemma {:induction false} BitLengthBounds(n: nat)
    ensures n < Pow2(BitLength(n))
    ensures n > 0 ==> BitLength(n) > 0 && Pow2(BitLength(n) - 1) <= n
  {
    if n > 0 {
      BitLengthBounds(n / 2);
    }
  }

  lemma {:induction false} BitLengthOf(n: nat, k: nat)
    requires Pow2(k) <= n < Pow2(k + 1)
    ensures BitLength(n) == k + 1
  {
    if k > 0 {
      BitLengthOf(n / 2, k - 1);
    }
  }

  // ---- multiples of a generator ----

  lemma {:induction false} ClmulUnfold(q: nat, g: nat)
    ensures Clmul(q, g) == Xor(if q % 2 == 1 then g else 0, 2 * Clmul(q / 2, g))
  {
    if q == 0 {
      XorZero(0);
    }
  }

  lemma {:induction false} ClmulAdd(p: nat, q: nat, g: nat)
    ensures Clmul(Xor(p, q), g) == Xor(Clmul(p, g), Clmul(q, g))
    decreases p + q
  {
    XorHalves(p, q);
    if p == 0 && q == 0 {
      XorZero(0);
    } else {
      ClmulAdd(p / 2, q / 2, g);
      ClmulUnfold(p, g);
      ClmulUnfold(q, g);
      ClmulUnfold(Xor(p, q), g);
      hide Xor, Clmul;
      var a, b := Clmul(p / 2, g), Clmul(q / 2, g);
      var x, y := if p % 2 == 1 then g else 0, if q % 2 == 1 then g else 0;
      XorDigit(a, b, 0, 0);
      XorSwap(x, 2 * a, y, 2 * b);
      XorZero(0);
      XorZero(g);
      XorSelf(g);
      assert Xor(x, y) == if Xor(p, q) % 2 == 1 then g else 0;
    }
  }

  lemma {:induction false} ClmulShift(k: nat, g: nat)
    ensures Clmul(Pow2(k), g) == g * Pow2(k)
  {
    if k == 0 {
      XorZero(g);
    } else {
      var p := Pow2(k - 1);
      ClmulShift(k - 1, g);
      ClmulUnfold(2 * p, g);
      XorZero(2 * Clmul(p, g));
      assert Pow2(k) == 2 * p;
      hide *;
      assert (2 * p) / 2 == p && (2 * p) % 2 == 0;
      DoubleFactor(g, p);
    }
  }

  /** A nonzero multiple has at least the degree of the generator. */
  lemma {:induction false} ClmulDegree(q: nat, k: nat, g: nat, m: nat)
    requires Pow2(k) <= q < Pow2(k + 1) && Pow2(m) <= g < Pow2(m + 1)
    ensures Pow2(k + m) <= Clmul(q, g) < Pow2(k + m + 1)
  {
    if k == 0 {
      assert Clmul(0, g) == 0;
      XorZero(g);
    } else {
      ClmulDegree(q / 2, k - 1, g, m);
      Pow2Monotone(m + 1, k + m);
      hide Xor;
      var low, high := if q % 2 == 1 then g else 0, 2 * Clmul(q / 2, g);
      XorCommutes(low, high);
      XorTopBit(high, low, k + m);
    }
  }

  /** Two multiples of g that differ in no digit from its degree up are equal: the check digits
      are determined by the rest. */
  lemma {:induction false} MultipleUnique(p: nat, q: nat, g: nat, m: nat, high: nat, r: nat, s: nat)
    requires Pow2(m) <= g < Pow2(m + 1) && r < Pow2(m) && s < Pow2(m)
    requires Clmul(p, g) == high * Pow2(m) + r && Clmul(q, g) == high * Pow2(m) + s
    ensures r == s
  {
    hide *;
    XorHighParts(high, m, high * Pow2(m), r, s);
    ClmulAdd(p, q, g);
    XorBound(r, s, m);
    NoSmallMultiple(Xor(p, q), g, m);
    XorIsZero(r, s);
  }

  lemma {:induction false} NoSmallMultiple(d: nat, g: nat, m: nat)
    requires Pow2(m) <= g < Pow2(m + 1) && Clmul(d, g) < Pow2(m)
    ensures Clmul(d, g) == 0
  {
    if d > 0 {
      BitLengthBounds(d);
      ClmulDegree(d, BitLength(d) - 1, g, m);
      Pow2Monotone(m, BitLength(d) - 1 + m);
    }
  }

  /** The multiples of 2^m, halved m times. */
  lemma {:induction false} XorHighParts(high: nat, m: nat, x: nat, r: nat, s: nat)
    requires r < Pow2(m) && s < Pow2(m) && x == high * Pow2(m)
    ensures Xor(x + r, x + s) == Xor(r, s)
    decreases m
  {
    if m == 0 {
      XorSelf(x);
      XorSelf(0);
    } else {
      var y := high * Pow2(m - 1);
      DoubleFactor(high, Pow2(m - 1));
      assert x == 2 * y;
      XorHighParts(high, m - 1, y, r / 2, s / 2);
      hide *;
      XorPairs(y, r, s);
    }
  }

  lemma {:induction false} XorPairs(x: nat, r: nat, s: nat)
    requires Xor(x + r / 2, x + s / 2) == Xor(r / 2, s / 2)
    ensures Xor(2 * x + r, 2 * x + s) == Xor(r, s)
  {
    hide Xor;
    var i, j, p, q := r / 2, s / 2, r % 2, s % 2;
    assert r == 2 * i + p && s == 2 * j + q;
    XorDigit(x + i, x + j, p, q);
    XorDigit(i, j, p, q);
  }

  // ---- the program ----

  method GetBCHDigit(data: nat) returns (digit: nat)
    ensures digit == BitLength(data)
  {
    digit := 0;
    var d := data;
    while d != 0
      invariant digit + BitLength(d) == BitLength(data)
    {
      digit := digit + 1;
      d := d / 2;
    }
  }

  /** The reduction loop shared by both codes: what is left of d0 has fewer digits than g, and
      what was taken away is a multiple of g. */
  method Reduce(d0: nat, g: nat, ghost m: nat) returns (d: nat, ghost q: nat)
    requires Pow2(m) <= g < Pow2(m + 1)
    ensures d < Pow2(m)
    ensures Xor(d0, d) == Clmul(q, g)
  {
    hide Xor, Clmul, BitLength, Pow2;
    d, q := d0, 0;
    XorSelf(d0);
    ClmulNothing(g);
    BitLengthOf(g, m);
    var digits: int := GetBCHDigit(d);
    var generatorDigits := GetBCHDigit(g);
    while digits - generatorDigits >= 0
      invariant digits == BitLength(d)
      invariant Xor(d0, d) == Clmul(q, g)
      decreases d
    {
      var k: nat := digits - generatorDigits;
      ReduceStep(d0, d, q, g, m, k);
      d, q := Xor(d, g * Pow2(k)), Xor(q, Pow2(k));
      digits := GetBCHDigit(d);
    }
    BitLengthBounds(d);
    Pow2Monotone(BitLength(d), m);
  }

  lemma {:induction false} ClmulNothing(g: nat)
    ensures Clmul(0, g) == 0
  {
  }

  lemma {:induction false} ShiftBounds(g: nat, m: nat, k: nat)
    requires Pow2(m) <= g < Pow2(m + 1)
    ensures Pow2(m + k) <= g * Pow2(k) < Pow2(m + k + 1)
  {
    if k > 0 {
      ShiftBounds(g, m, k - 1);
      DoubleFactor(g, Pow2(k - 1));
      assert Pow2(k) == 2 * Pow2(k - 1) && Pow2(m + k) == 2 * Pow2(m + k - 1) && Pow2(m + k + 1) == 2 * Pow2(m + k);
      hide *;
    }
  }

  lemma {:induction false} ReduceStep(d0: nat, d: nat, q: nat, g: nat, m: nat, k: nat)
    requires Pow2(m) <= g < Pow2(m + 1) && BitLength(d) == m + 1 + k
    requires Xor(d0, d) == Clmul(q, g)
    ensures Xor(d, g * Pow2(k)) < d
    ensures Xor(d0, Xor(d, g * Pow2(k))) == Clmul(Xor(q, Pow2(k)), g)
  {
    hide Xor, Clmul;
    BitLengthBounds(d);
    ShiftBounds(g, m, k);
    XorTopBits(d, g * Pow2(k), m + k);
    XorAssociates(d0, d, g * Pow2(k));
    ClmulShift(k, g);
    ClmulAdd(q, Pow2(k), g);
  }

  /** a | b */
  function Or(a: nat, b: nat): nat {
    if a == 0 && b == 0 then 0
    else 2 * Or(a / 2, b / 2) + (if a % 2 == 1 || b % 2 == 1 then 1 else 0)
  }

  /** On digits that do not meet, `|`, `^` and `+` agree. */
  lemma {:induction false} OrLow(h: nat, m: nat, d: nat)
    requires d < Pow2(m)
    ensures Or(h * Pow2(m), d) == h * Pow2(m) + d == Xor(h * Pow2(m), d)
  {
    if m == 0 {
      OrZero(h);
      XorZero(h);
    } else {
      var x := h * Pow2(m - 1);
      assert h * Pow2(m) == 2 * x;
      OrLow(h, m - 1, d / 2);
      hide Xor, Pow2;
      XorDigit(x, d / 2, 0, d % 2);
      assert Or(2 * x, d) == 2 * Or(x, d / 2) + d % 2;
    }
  }

  lemma {:induction false} OrZero(a: nat)
    ensures Or(a, 0) == a
  {
    if a > 0 {
      OrZero(a / 2);
    }
  }

  /** A codeword: the data digits, and check digits that make it a multiple of g. */
  ghost predicate BchCodeword(c: nat, data: nat, g: nat, m: nat) {
    && c / Pow2(m) == data
    && exists q :: c == Clmul(q, g)
  }

  /** Both codes, up to the mask. */
  method Encode(data: nat, g: nat, m: nat, w: nat) returns (c: nat)
    requires Pow2(m) <= g < Pow2(m + 1) && w > 0 && w * Pow2(m) == WORD
    ensures c < WORD && BchCodeword(c, data % w, g, m)
  {
    hide Xor, Clmul, Or, Pow2;
    var shifted := data * Pow2(m) % WORD;
    ShiftWord(data, Pow2(m), w);
    var d, q := Reduce(shifted, g, m);
    OrLow(data % w, m, d);
    c := Or(shifted, d);
    Remainder(c, Pow2(m), data % w, d);
    BelowProduct(data % w, w, Pow2(m), d);
  }

  lemma {:induction false} PowerWord(n: nat)
    requires n == 16
    ensures Pow2(n + 16) == WORD
  {
    assert Pow2(n) == 65536 by {
      assert Pow2(8) == 256;
      PowerAdd(n - 8, 8);
    }
    PowerAdd(n, 16);
  }

  lemma {:induction false} PowerAdd(m: nat, n: nat)
    ensures Pow2(m + n) == Pow2(m) * Pow2(n)
  {
    if n > 0 {
      PowerAdd(m, n - 1);
    }
  }

  lemma {:induction false} SmallPowers()
    ensures Pow2(10) == 1024 && Pow2(11) == 2048 && Pow2(12) == 4096 && Pow2(13) == 8192
  {
    assert Pow2(4) == 16;
    assert Pow2(8) == 256;
  }

  /** The digits of a 32-bit integer. */
  function Pattern(n: int): nat {
    n % WORD
  }

  /** The signed integer the 32-bit operators give for these digits. */
  function ToInt32(pattern: nat): (n: int)
    requires pattern < WORD
    ensures -0x8000_0000 <= n < 0x8000_0000 && Pattern(n) == pattern
  {
    if pattern < 0x8000_0000 then pattern else pattern - WORD
  }

  /** Format information: ten check digits behind the data, under a fixed mask. */
  method GetBCHTypeInfo(data: nat) returns (bits: int)
    ensures -0x8000_0000 <= bits < 0x8000_0000
    ensures BchCodeword(Xor(Pattern(bits), 0x5412), data % 0x40_0000, 0x537, 10)
  {
    var g, mask := G15, G15_MASK;
    SmallPowers();
    hide Xor, Pow2, BchCodeword;
    PowerWord(16);
    var c := Encode(data, g, 10, 0x40_0000);
    XorBound(c, mask, 32);
    XorCancel(c, mask);
    bits := ToInt32(Xor(c, mask));
  }

  /** Version information: twelve check digits behind the data. */
  method GetBCHTypeNumber(data: nat) returns (bits: int)
    ensures -0x8000_0000 <= bits < 0x8000_0000
    ensures BchCodeword(Pattern(bits), data % 0x10_0000, 0x1F25, 12)
  {
    var g := G18;
    SmallPowers();
    hide Pow2, BchCodeword;
    var c := Encode(data, g, 12, 0x10_0000);
    bits := ToInt32(c);
  }

  /** There is only one codeword for given data. */
  lemma {:induction false} BchCodewordUnique(c: nat, d: nat, data: nat, g: nat, m: nat)
    requires Pow2(m) <= g < Pow2(m + 1)
    requires BchCodeword(c, data, g, m) && BchCodeword(d, data, g, m)
    ensures c == d
  {
    var p :| c == Clmul(p, g);
    var q :| d == Clmul(q, g);
    hide Xor, Clmul, Pow2;
    DivMod(c, Pow2(m));
    DivMod(d, Pow2(m));
    MultipleUnique(p, q, g, m, data, c % Pow2(m), d % Pow2(m));
  }

  /** The generators and the mask by the exponents the program lists (the polynomials of ISO/IEC 18004:2015,
      sections 7.9 and 7.10). */
  lemma {:induction false} Generators()
    ensures G15 == Pow2(10) + Pow2(8) + Pow2(5) + Pow2(4) + Pow2(2) + Pow2(1) + Pow2(0)
    ensures G18 == Pow2(12) + Pow2(11) + Pow2(10) + Pow2(9) + Pow2(8) + Pow2(5) + Pow2(2) + Pow2(0)
    ensures G15_MASK == Pow2(14) + Pow2(12) + Pow2(10) + Pow2(4) + Pow2(1)
  {
    SmallPowers();
    assert Pow2(14) == 2 * Pow2(13);
    assert Pow2(5) == 32 && Pow2(8) == 256 && Pow2(9) == 512;
  }

  lemma {:induction false} TimesFour(g: nat)
    ensures Clmul(4, g) == 4 * g
  {
    var k := 2;
    assert Pow2(k) == 4;
    hide *;
    ClmulShift(k, g);
  }

  lemma {:induction false} FourTimes(c: nat, data: nat, g: nat, m: nat)
    requires Pow2(m) <= g < Pow2(m + 1) && 4 * g / Pow2(m) == data
    ensures BchCodeword(c, data, g, m) <==> c == 4 * g
  {
    TimesFour(g);
    assert BchCodeword(4 * g, data, g, m);
    hide Pow2, Clmul;
    if BchCodeword(c, data, g, m) {
      hide BchCodeword;
      BchCodewordUnique(c, 4 * g, data, g, m);
    }
  }

  /** The words of the standard's own examples: format data 00101 gives 001010011011100 before the mask, and
      version 7 gives 000111110010010100; there are no others for these data. */
  lemma {:induction false} PublishedWords(c: nat, d: nat)
    ensures BchCodeword(c, 5, 0x537, 10) <==> c == 0x14DC
    ensures BchCodeword(d, 7, 0x1F25, 12) <==> d == 0x7C94
  {
    SmallPowers();
    hide *;
    FourTimes(c, 5, 0x537, 10);
    FourTimes(d, 7, 0x1F25, 12);
  }
}
