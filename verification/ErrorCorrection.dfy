/** The Reed-Solomon part of the QR encoder: the generator polynomial and the check bytes of a
    block (ISO/IEC 18004:2015, section 7.5 and Annex A). */
module ErrorCorrection {
  import opened Bits
  import opened FieldOrder
  import opened Gf256
  import opened Polynomial
  import opened QrMath
  import opened QrPolynomials
  import opened Wrappers

  /** The coefficient of x^(n-k) in (x + 1)(x + alpha)...(x + alpha^(n-1)). */
  function GeneratorCoef(n: nat, k: int): Byte {
    if k < 0 || k > n then 0
    else if n == 0 then 1
    else Add(GeneratorCoef(n - 1, k), Mul(Alpha(n - 1), GeneratorCoef(n - 1, k - 1)))
  }

  function Generator(n: nat): (g: seq<Byte>)
    ensures |g| == n + 1
  {
    seq(n + 1, i requires 0 <= i <= n => GeneratorCoef(n, i))
  }

  // ---- the coefficients are Gaussian binomials, so none is zero below degree 255 ----

  lemma {:induction false} XorCancelOuter(x: nat, y: nat, z: nat)
    ensures Xor(Xor(x, y), Xor(z, x)) == Xor(y, z)
  {
    hide Xor;
    XorCommutes(x, y);
    XorSwap(y, x, z, x);
    XorSelf(x);
    XorZero(Xor(y, z));
  }

  /** b an * (alpha^k + 1) + b (an + w) = b (w + an alpha^k), for any alpha-powers. */
  lemma {:induction false} Collect(b: Byte, n: nat, w: Byte, k: nat)
    ensures Add(Mul(b, Add(Alpha(n), w)), Mul(b, Mul(Alpha(n), Add(Alpha(k), 1)))) ==
            Mul(b, Add(w, Alpha(n + k)))
  {
    hide Xor, Mul, Alpha;
    MulAddRight(Alpha(n), Alpha(k), 1);
    MulOne(Alpha(n));
    AlphaAdd(n, k);
    MulAddRight(b, Add(Alpha(n), w), Add(Alpha(n + k), Alpha(n)));
    XorCancelOuter(Alpha(n), w, Alpha(n + k));
  }

  /** The left side of GeneratorRatio, one degree up. */
  lemma {:induction false} RatioLeft(a: Byte, b: Byte, n: nat, k: nat)
    requires k >= 1
    requires Mul(a, Add(Alpha(k), 1)) == Mul(b, Add(Alpha(n), Alpha(k - 1)))
    ensures Mul(Add(a, Mul(Alpha(n), b)), Add(Alpha(k), 1)) == Mul(b, Add(Alpha(k - 1), Alpha(n + k)))
  {
    hide Xor, Mul, Alpha;
    var d := Add(Alpha(k), 1);
    MulAddLeft(a, Mul(Alpha(n), b), d);
    MulCommutes(Alpha(n), b);
    MulAssociates(b, Alpha(n), d);
    Collect(b, n, Alpha(k - 1), k);
  }

  /** alpha^n (alpha^(n+1) + alpha^k) = alpha^(n+1) (alpha^n + alpha^(k-1)) */
  lemma {:induction false} ShiftRatio(n: nat, k: nat)
    requires k >= 1
    ensures Mul(Alpha(n), Add(Alpha(n + 1), Alpha(k))) == Mul(Alpha(n + 1), Add(Alpha(n), Alpha(k - 1)))
  {
    hide Xor, Mul, Alpha;
    MulAddRight(Alpha(n), Alpha(n + 1), Alpha(k));
    MulAddRight(Alpha(n + 1), Alpha(n), Alpha(k - 1));
    AlphaAdd(n, n + 1);
    AlphaAdd(n + 1, n);
    AlphaAdd(n, k);
    AlphaAdd(n + 1, k - 1);
  }

  /** The right side of GeneratorRatio, one degree up. */
  lemma {:induction false} RatioRight(b: Byte, c: Byte, n: nat, k: nat)
    requires k >= 1
    requires k >= 2 ==> Mul(b, Add(Alpha(k - 1), 1)) == Mul(c, Add(Alpha(n), Alpha(k - 2)))
    requires k == 1 ==> c == 0
    ensures Mul(Add(b, Mul(Alpha(n), c)), Add(Alpha(n + 1), Alpha(k - 1))) ==
            Mul(b, Add(Alpha(k - 1), Alpha(n + k)))
  {
    hide Xor, Mul, Alpha;
    var e := Add(Alpha(n + 1), Alpha(k - 1));
    var up := Alpha(n + 1);
    if k == 1 {
      MulRightZero(Alpha(n));
      XorZero(b);
      XorCommutes(Alpha(n + 1), Alpha(k - 1));
    } else {
      MulAddLeft(b, Mul(Alpha(n), c), e);
      MulCommutes(Alpha(n), c);
      MulAssociates(c, Alpha(n), e);
      ShiftRatio(n, k - 1);
      MulPull(c, up, Add(Alpha(n), Alpha(k - 2)));
      MulPull(b, up, Add(Alpha(k - 1), 1));
      Collect(b, n + 1, Alpha(k - 1), k - 1);
    }
  }

  lemma {:induction false} MulPull(c: Byte, u: Byte, f: Byte)
    ensures Mul(c, Mul(u, f)) == Mul(u, Mul(c, f))
  {
    hide Mul;
    MulAssociates(c, u, f);
    MulCommutes(c, u);
    MulAssociates(u, c, f);
  }

  /** (1 + alpha^k) g(n, k) = (alpha^n + alpha^(k-1)) g(n, k-1) */
  lemma {:induction false} GeneratorRatio(n: nat, k: nat)
    requires k >= 1
    ensures Mul(GeneratorCoef(n, k), Add(Alpha(k), 1)) ==
            Mul(GeneratorCoef(n, k - 1), Add(Alpha(n), Alpha(k - 1)))
  {
    hide Xor, Mul, Alpha;
    if n == 0 {
      MulZero(Add(Alpha(k), 1));
      MulZero(Add(Alpha(n), Alpha(k - 1)));
      XorSelf(Alpha(n));
      MulRightZero(1);
    } else {
      GeneratorRatio(n - 1, k);
      if k >= 2 {
        GeneratorRatio(n - 1, k - 1);
      }
      GeneratorStep(n - 1, k);
      GeneratorStep(n - 1, k - 1);
      RatioLeft(GeneratorCoef(n - 1, k), GeneratorCoef(n - 1, k - 1), n - 1, k);
      RatioRight(GeneratorCoef(n - 1, k - 1), GeneratorCoef(n - 1, k - 2), n - 1, k);
    }
  }

  lemma {:induction false} GeneratorStep(n: nat, k: int)
    ensures GeneratorCoef(n + 1, k) == Add(GeneratorCoef(n, k), Mul(Alpha(n), GeneratorCoef(n, k - 1)))
  {
    hide Mul, Alpha;
    MulRightZero(Alpha(n));
    XorZero(0);
  }

  lemma {:induction false} GeneratorMonic(n: nat)
    ensures GeneratorCoef(n, 0) == 1
  {
    if n > 0 {
      GeneratorMonic(n - 1);
      MulRightZero(Alpha(n - 1));
      XorZero(1);
    }
  }

  lemma {:induction false} AlphaSumNonZero(i: nat, j: nat)
    requires i < 255 && j < 255 && i != j
    ensures Add(Alpha(i), Alpha(j)) != 0
  {
    hide Alpha, Xor;
    if Add(Alpha(i), Alpha(j)) == 0 {
      XorIsZero(Alpha(i), Alpha(j));
      AlphaInjective(i, j);
    }
  }

  /** Up to degree 254 every coefficient of the generator is nonzero. */
  lemma {:induction false} GeneratorNonZero(n: nat, k: nat)
    requires k <= n <= 254
    ensures GeneratorCoef(n, k) != 0
  {
    hide Alpha, Mul;
    GeneratorMonic(n);
    if k > 0 {
      GeneratorNonZero(n, k - 1);
      GeneratorRatio(n, k);
      AlphaSumNonZero(n, k - 1);
      NoZeroDivisors(GeneratorCoef(n, k - 1), Add(Alpha(n), Alpha(k - 1)));
      MulZero(Add(Alpha(k), 1));
    }
  }

  /** At degree 255 they vanish: the generator is x^255 + 1. */
  lemma {:induction false} GeneratorZero(n: nat)
    requires n == 255
    ensures GeneratorCoef(n, 1) == 0
  {
    hide Alpha, Mul, GeneratorCoef, Xor;
    GeneratorRatio(n, 1);
    GeneratorMonic(n);
    AlphaOrder(n);
    AlphaOrder(0);
    XorSelf(1);
    MulRightZero(1);
    AlphaSumNonZero(1, 0);
    NoZeroDivisors(GeneratorCoef(n, 1), Add(Alpha(1), 1));
  }

  // ---- the generator vanishes at alpha^0 .. alpha^(n-1) ----

  /** Multiplying by x + b. */
  lemma {:induction false} ConvLinear(p: seq<Byte>, b: Byte, k: int)
    ensures Conv(p, [1, b], k) == Add(Coef(p, k - 1), Mul(b, Coef(p, k)))
  {
    hide Mul, Xor;
    MulRightZero(b);
    XorZero(0);
    if p != [] {
      ConvLinear(p[1..], b, k);
      MulOne(p[0]);
      MulRightZero(p[0]);
      MulCommutes(p[0], b);
      XorZero(p[0]);
      var j := k - (|p| - 1);
      assert Coef([1, b], j) == if j == 0 then b else if j == 1 then 1 else 0;
      assert j != 1 ==> Coef(p, k - 1) == Coef(p[1..], k - 1);
      assert j != 0 ==> Coef(p, k) == Coef(p[1..], k);
      if j == 0 {
        XorCommutes(Mul(b, p[0]), Coef(p[1..], k - 1));
        XorZero(Coef(p[1..], k - 1));
      } else if j == 1 {
        XorZero(0);
      } else {
        XorZero(Conv(p[1..], [1, b], k));
      }
    }
  }

  lemma {:induction false} GeneratorProduct(n: nat)
    ensures forall k: int :: Coef(Generator(n + 1), k) == Conv(Generator(n), [1, Alpha(n)], k)
  {
    hide Mul, Alpha, Xor;
    forall k: int
      ensures Coef(Generator(n + 1), k) == Conv(Generator(n), [1, Alpha(n)], k)
    {
      ConvLinear(Generator(n), Alpha(n), k);
      GeneratorStep(n, n + 1 - k);
    }
  }

  lemma {:induction false} GeneratorRoots(n: nat, i: nat)
    requires i < n
    ensures Eval(Generator(n), Alpha(i)) == 0
  {
    hide Mul, Alpha, Xor, Conv, GeneratorCoef;
    var p, q, x := Generator(n - 1), [1, Alpha(n - 1)], Alpha(i);
    GeneratorProduct(n - 1);
    forall k: int
      ensures Coef(Generator(n), k) == Coef(Product(p, q), k)
    {
      CoefProduct(p, q, k);
    }
    EvalSame(Generator(n), Product(p, q), x);
    EvalProduct(p, q, x);
    if i < n - 1 {
      GeneratorRoots(n - 1, i);
      MulZero(Eval(q, x));
    } else {
      EvalBinomial(x);
      MulRightZero(Eval(p, x));
    }
  }

  lemma {:induction false} EvalBinomial(x: Byte)
    ensures Eval([1, x], x) == 0
  {
    hide Mul, Xor;
    assert [1, x][1..] == [x];
    assert [x][1..] == [];
    assert Power(x, 0) == 1;
    assert Power(x, 1) == Mul(1, x);
    MulOne(x);
    XorZero(x);
    XorSelf(x);
    assert Eval([x], x) == Add(Mul(x, Power(x, 0)), Eval([], x));
    assert Eval([1, x], x) == Add(Mul(1, Power(x, 1)), Eval([x], x));
  }

  // ---- and no other nonzero polynomial of degree below n does ----

  /** The quotient of p by x + a, by Horner's scheme. */
  ghost function Horner(p: seq<Byte>, a: Byte): (h: seq<Byte>)
    requires p != []
    ensures |h| == |p| - 1
  {
    seq(|p| - 1, i requires 0 <= i < |p| - 1 => Eval(p[..i + 1], a))
  }

  lemma {:induction false} EvalAppend(p: seq<Byte>, c: Byte, x: Byte)
    ensures Eval(p + [c], x) == Add(Mul(Eval(p, x), x), c)
  {
    hide Mul, Xor;
    EvalConcat(p, [c], x);
    assert Power(x, 0) == 1 && Power(x, 1) == Mul(1, x);
    MulOne(x);
    MulOne(c);
    XorZero(c);
    assert Eval([c], x) == Add(Mul(c, 1), Eval([], x));
  }

  /** (h (x + a) + u) x + c = (h x + u)(x + a) + (u a + c) */
  lemma {:induction false} HornerStep(h: Byte, u: Byte, x: Byte, a: Byte, c: Byte)
    ensures Add(Mul(Add(Mul(h, Add(x, a)), u), x), c) ==
            Add(Mul(Add(Mul(h, x), u), Add(x, a)), Add(Mul(u, a), c))
  {
    hide Mul, Xor;
    var f := Add(x, a);
    MulAddLeft(Mul(h, f), u, x);
    MulAddLeft(Mul(h, x), u, f);
    MulAssociates(h, f, x);
    MulAssociates(h, x, f);
    MulCommutes(f, x);
    MulAddRight(u, x, a);
    var t, ux, ua := Mul(Mul(h, x), f), Mul(u, x), Mul(u, a);
    XorAssociates(Xor(t, Xor(ux, ua)), ua, c);
    XorAssociates(t, Xor(ux, ua), ua);
    XorCancel(ux, ua);
  }

  /** p = h (x + a) + p(a) */
  lemma {:induction false} HornerDivides(p: seq<Byte>, a: Byte, x: Byte)
    requires p != []
    ensures Eval(p, x) == Add(Mul(Eval(Horner(p, a), x), Add(x, a)), Eval(p, a))
  {
    hide Mul, Xor;
    var n := |p| - 1;
    var front, c := p[..n], p[n];
    assert p == front + [c];
    EvalAppend(front, c, x);
    EvalAppend(front, c, a);
    if n == 0 {
      MulZero(x);
      MulZero(a);
      MulZero(Add(x, a));
      XorZero(c);
    } else {
      HornerDivides(front, a, x);
      assert Horner(p, a) == Horner(front, a) + [Eval(front, a)] by {
        forall i | 0 <= i < n
          ensures Horner(p, a)[i] == (Horner(front, a) + [Eval(front, a)])[i]
        {
          assert p[..i + 1] == front[..i + 1];
          assert front[..n] == front;
        }
      }
      EvalAppend(Horner(front, a), Eval(front, a), x);
      HornerStep(Eval(Horner(front, a), x), Eval(front, a), x, a, c);
    }
  }

  /** n coefficients and n distinct roots: the zero polynomial. */
  lemma {:induction false} RootsExhaust(p: seq<Byte>)
    requires |p| <= 255
    requires forall i :: 0 <= i < |p| ==> Eval(p, Alpha(i)) == 0
    ensures AllZero(p)
    decreases |p|
  {
    hide Mul, Xor, Alpha, Eval;
    if p != [] {
      var n := |p| - 1;
      var a := Alpha(n);
      var h := Horner(p, a);
      forall i | 0 <= i < n
        ensures Eval(h, Alpha(i)) == 0
      {
        HornerDivides(p, a, Alpha(i));
        XorZero(Mul(Eval(h, Alpha(i)), Add(Alpha(i), a)));
        AlphaSumNonZero(i, n);
        NoZeroDivisors(Eval(h, Alpha(i)), Add(Alpha(i), a));
      }
      RootsExhaust(h);
      forall i | 0 <= i <= n
        ensures p[i] == 0
      {
        HornerZero(p, a, i);
      }
    }
  }

  lemma {:induction false} HornerZero(p: seq<Byte>, a: Byte, i: nat)
    requires i < |p| && AllZero(Horner(p, a)) && Eval(p, a) == 0
    ensures p[i] == 0
  {
    hide Mul, Xor;
    assert p[..i + 1] == p[..i] + [p[i]];
    EvalAppend(p[..i], p[i], a);
    assert p[..|p|] == p;
    assert Eval(p[..i + 1], a) == 0 by {
      if i < |p| - 1 {
        assert Horner(p, a)[i] == 0;
      }
    }
    assert Eval(p[..i], a) == 0 by {
      if i > 0 {
        assert Horner(p, a)[i - 1] == 0;
      }
    }
    MulZero(a);
    XorZero(p[i]);
  }

  /** Data followed by its check bytes vanishes at the first n powers of alpha. */
  ghost predicate Codeword(data: seq<Byte>, check: seq<Byte>, n: nat) {
    && |check| == n
    && forall i :: 0 <= i < n ==> Eval(data + check, Alpha(i)) == 0
  }

  ghost predicate AllZero(data: seq<Byte>) {
    forall i :: 0 <= i < |data| ==> data[i] == 0
  }

  /** The check bytes are determined by the data. */
  lemma {:induction false} CodewordUnique(data: seq<Byte>, c: seq<Byte>, d: seq<Byte>, n: nat)
    requires n <= 255 && Codeword(data, c, n) && Codeword(data, d, n)
    ensures c == d
  {
    hide Mul, Xor, Alpha, Eval;
    forall i | 0 <= i < n
      ensures Eval(Sum(c, d), Alpha(i)) == 0
    {
      var x := Alpha(i);
      var high := Mul(Eval(data, x), Power(x, n));
      EvalConcat(data, c, x);
      EvalConcat(data, d, x);
      XorIsZero(high, Eval(c, x));
      XorIsZero(high, Eval(d, x));
      EvalSum(c, d, x);
      XorSelf(Eval(c, x));
    }
    RootsExhaust(Sum(c, d));
    forall i | 0 <= i < n
      ensures c[i] == d[i]
    {
      assert Sum(c, d)[i] == 0;
      XorIsZero(c[i], d[i]);
    }
  }

  // ---- the program ----

  /** A normal polynomial is determined by its coefficients. */
  lemma {:induction false} SameNormal(p: seq<Byte>, q: seq<Byte>)
    requires Same(p, q) && |p| <= |q| && q != [] && q[0] != 0
    ensures p == q
  {
    assert Coef(p, |q| - 1) == Coef(q, |q| - 1);
    forall i | 0 <= i < |p|
      ensures p[i] == q[i]
    {
      assert Coef(p, |p| - 1 - i) == Coef(q, |p| - 1 - i);
    }
  }

  /** The generator of the given degree. It throws from degree 256 on, where a factor meets the
      zero coefficients of x^255 + 1. */
  method GetErrorCorrectPolynomial(math: QRMath, errorCorrectLength: nat) returns (r: Result<QRPolynomial>)
    requires math.Valid()
    ensures r.Throws? <==> errorCorrectLength > 255
    ensures r.Ok? ==> r.value.Bytes() == Generator(errorCorrectLength) && Hole !in r.value.num
    ensures r.Ok? ==> (r.value.HasZero() <==> errorCorrectLength == 255)
  {
    hide Alpha, Mul, Xor, GeneratorCoef, Conv;
    var a := NewPolynomial([Value(1)], 0);
    assert a.num == [Value(1)];
    assert a.Bytes() == Generator(0) by {
      GeneratorMonic(0);
    }
    for i := 0 to errorCorrectLength
      invariant i <= 255
      invariant a.Bytes() == Generator(i) && Hole !in a.num
    {
      GeneratorSlots(i, a);
      var g := math.Gexp(Exp(i));
      AlphaReduce(i);
      AlphaNonZero(i);
      assert Alpha(i % 255) == g.byte;
      var factor := NewPolynomial([Value(1), g], 0);
      assert Strip([Value(1), g]) == [Value(1), g];
      assert factor.num == [Value(1), g];
      assert factor.Bytes() == [1, Alpha(i)];
      assert factor.num[1] != Value(0);
      var next := Multiply(math, a, factor);
      if next.Throws? {
        return Throws;
      }
      GeneratorProduct(i);
      GeneratorMonic(i + 1);
      SameNormal(next.value.Bytes(), Generator(i + 1));
      a := next.value;
    }
    GeneratorSlots(errorCorrectLength, a);
    r := Ok(a);
  }

  lemma {:induction false} GeneratorSlots(n: nat, a: QRPolynomial)
    requires n <= 255 && a.Bytes() == Generator(n) && Hole !in a.num
    ensures a.HasZero() <==> n == 255
  {
    hide GeneratorCoef;
    if n == 255 {
      GeneratorZero(n);
      assert a.Bytes()[1] == 0;
      assert a.num[1] == Value(0);
    } else if a.HasZero() {
      var k :| 0 <= k < |a.num| && a.num[k] == Value(0);
      assert a.Bytes()[k] == 0;
      GeneratorNonZero(n, k);
    }
  }

  lemma {:induction false} StripAllZero(slots: seq<Slot>)
    requires Hole !in slots
    ensures Strip(slots) == [] <==> AllZero(Reads(slots))
  {
    if slots != [] {
      if slots[0] == Value(0) {
        StripAllZero(slots[1..]);
        assert Reads(slots) == [0] + Reads(slots[1..]);
        assert forall i :: 0 <= i < |slots| - 1 ==> Reads(slots[1..])[i] == Reads(slots)[i + 1];
      } else {
        assert Reads(slots)[0] != 0;
      }
    }
  }

  lemma {:induction false} SameAppendZeros(p: seq<Byte>, q: seq<Byte>, n: nat)
    requires Same(p, q)
    ensures Same(p + Zeros(n), q + Zeros(n))
  {
    forall k: int
      ensures Coef(p + Zeros(n), k) == Coef(q + Zeros(n), k)
    {
      assert Coef(p, k - n) == Coef(q, k - n);
    }
  }

  lemma {:induction false} CheckBytesCorrect(
      data: seq<Byte>, raw: seq<Byte>, rest: seq<Byte>, check: seq<Byte>, q: seq<Byte>, n: nat)
    requires Same(raw, data + Zeros(n)) && Same(rest, check) && |check| == n
    requires Quotient(raw, rest, Generator(n), q)
    ensures Codeword(data, check, n)
  {
    hide Alpha, Mul, Xor, GeneratorCoef, Conv, Eval;
    forall i | 0 <= i < n
      ensures Eval(data + check, Alpha(i)) == 0
    {
      var x := Alpha(i);
      GeneratorRoots(n, i);
      CongruentEval(raw, rest, Generator(n), x);
      EvalSame(raw, data + Zeros(n), x);
      EvalSame(rest, check, x);
      EvalConcat(data, Zeros(n), x);
      EvalZeros(n, x);
      EvalConcat(data, check, x);
      var high := Mul(Eval(data, x), Power(x, n));
      XorZero(high);
      XorSelf(high);
    }
  }

  function PaddedSlot(num: seq<Slot>, modIndex: int): Slot
    requires modIndex < |num|
  {
    if modIndex >= 0 then num[modIndex] else Value(0)
  }

  /** The check bytes of one block. */
  method CheckBytes(math: QRMath, data: seq<Byte>, ecCount: nat) returns (r: Result<seq<Slot>>)
    requires math.Valid()
    ensures r.Throws? <==> ecCount > 255 || (ecCount == 255 && !AllZero(data))
    ensures r.Ok? ==> Codeword(data, Reads(r.value), ecCount)
  {
    hide Alpha, Mul, Xor, GeneratorCoef, Conv;
    var rs := GetErrorCorrectPolynomial(math, ecCount);
    if rs.Throws? {
      return Throws;
    }
    var rsPoly := rs.value;
    assert |rsPoly.num| == ecCount + 1;
    var slots := seq(|data|, i requires 0 <= i < |data| => Value(data[i]));
    var rawPoly := NewPolynomial(slots, |rsPoly.num| - 1);
    StripSame(slots);
    StripAllZero(slots);
    assert Reads(slots) == data;
    GeneratorMonic(ecCount);
    assert rsPoly.Bytes()[0] == 1;
    var m, q := Mod(math, rawPoly, rsPoly);
    if m.Throws? {
      return Throws;
    }
    var modPoly := m.value;
    var ec := new Slot[ecCount](_ => Hole);
    for i := 0 to ecCount
      invariant forall k :: 0 <= k < i ==> ec[k] == PaddedSlot(modPoly.num, k + |modPoly.num| - ecCount)
    {
      var modIndex := i + |modPoly.num| - ecCount;
      ec[i] := if modIndex >= 0 then modPoly.num[modIndex] else Value(0);
    }
    r := Ok(ec[..]);
    ghost var rest := modPoly.Bytes();
    PadSame(rest, ecCount - |rest|);
    assert Reads(ec[..]) == Zeros(ecCount - |rest|) + rest;
    SameAppendZeros(Reads(Strip(slots)), data, ecCount);
    assert rawPoly.Bytes() == Reads(Strip(slots)) + Zeros(ecCount);
    CheckBytesCorrect(data, rawPoly.Bytes(), rest, Reads(ec[..]), q, ecCount);
  }
}
