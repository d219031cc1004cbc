/** Polynomials over GF(256), written as in the program: coefficients from the highest degree
    down. Two sequences that differ by leading zeros denote the same polynomial. */
module Polynomial {
  import opened Bits
  import opened Gf256

  /** The coefficient of x^k, zero outside the sequence. */
  function Coef(p: seq<Byte>, k: int): Byte {
    if 0 <= k < |p| then p[|p| - 1 - k] else 0
  }

  ghost predicate Same(p: seq<Byte>, q: seq<Byte>) {
    forall k: int :: Coef(p, k) == Coef(q, k)
  }

  function Zeros(n: nat): (z: seq<Byte>)
    ensures |z| == n && forall i :: 0 <= i < n ==> z[i] == 0
  {
    seq(n, i => 0)
  }

  /** The coefficient of x^k in the product of p and q. */
  function Conv(p: seq<Byte>, q: seq<Byte>, k: int): Byte {
    if p == [] then 0
    else Add(Mul(p[0], Coef(q, k - (|p| - 1))), Conv(p[1..], q, k))
  }

  /** a is b modulo e: they differ by a multiple of e. */
  ghost predicate Congruent(a: seq<Byte>, b: seq<Byte>, e: seq<Byte>) {
    exists q: seq<Byte> :: Quotient(a, b, e, q)
  }

  ghost predicate Quotient(a: seq<Byte>, b: seq<Byte>, e: seq<Byte>, q: seq<Byte>) {
    forall k: int :: Coef(a, k) == Add(Conv(q, e, k), Coef(b, k))
  }

  function Power(x: Byte, n: nat): Byte {
    if n == 0 then 1 else Mul(Power(x, n - 1), x)
  }

  /** The value of p at x. */
  function Eval(p: seq<Byte>, x: Byte): Byte {
    if p == [] then 0 else Add(Mul(p[0], Power(x, |p| - 1)), Eval(p[1..], x))
  }

  // ---- evaluation is a ring homomorphism ----

  function Sum(p: seq<Byte>, q: seq<Byte>): (r: seq<Byte>)
    requires |p| == |q|
    ensures |r| == |p|
  {
    seq(|p|, i requires 0 <= i < |p| => Add(p[i], q[i]))
  }

  function Scale(c: Byte, p: seq<Byte>): (r: seq<Byte>)
    ensures |r| == |p|
  {
    seq(|p|, i requires 0 <= i < |p| => Mul(c, p[i]))
  }

  lemma {:induction false} PowerAdd(x: Byte, m: nat, n: nat)
    ensures Power(x, m + n) == Mul(Power(x, m), Power(x, n))
    decreases n
  {
    hide Mul, Add;
    if n == 0 {
      MulOne(Power(x, m));
    } else {
      PowerAdd(x, m, n - 1);
      MulAssociates(Power(x, m), Power(x, n - 1), x);
    }
  }

  lemma {:induction false} EvalSum(p: seq<Byte>, q: seq<Byte>, x: Byte)
    requires |p| == |q|
    ensures Eval(Sum(p, q), x) == Add(Eval(p, x), Eval(q, x))
  {
    hide Mul, Xor;
    if p == [] {
      XorZero(0);
    } else {
      EvalSum(p[1..], q[1..], x);
      assert Sum(p, q)[1..] == Sum(p[1..], q[1..]);
      var w := Power(x, |p| - 1);
      MulAddLeft(p[0], q[0], w);
      XorSwap(Mul(p[0], w), Mul(q[0], w), Eval(p[1..], x), Eval(q[1..], x));
    }
  }

  lemma {:induction false} EvalScale(c: Byte, p: seq<Byte>, x: Byte)
    ensures Eval(Scale(c, p), x) == Mul(c, Eval(p, x))
  {
    hide Mul, Xor;
    if p == [] {
      MulRightZero(c);
    } else {
      EvalScale(c, p[1..], x);
      assert Scale(c, p)[1..] == Scale(c, p[1..]);
      var w := Power(x, |p| - 1);
      MulAssociates(c, p[0], w);
      MulAddRight(c, Mul(p[0], w), Eval(p[1..], x));
    }
  }

  lemma {:induction false} EvalConcat(p: seq<Byte>, q: seq<Byte>, x: Byte)
    ensures Eval(p + q, x) == Add(Mul(Eval(p, x), Power(x, |q|)), Eval(q, x))
  {
    hide Mul, Xor;
    if p == [] {
      assert p + q == q;
      MulZero(Power(x, |q|));
      XorZero(Eval(q, x));
    } else {
      EvalConcat(p[1..], q, x);
      assert (p + q)[1..] == p[1..] + q;
      var w, v := Power(x, |p| - 1), Power(x, |q|);
      PowerAdd(x, |p| - 1, |q|);
      MulAssociates(p[0], w, v);
      MulAddLeft(Mul(p[0], w), Eval(p[1..], x), v);
      XorAssociates(Mul(p[0], Power(x, |p| - 1 + |q|)), Mul(Eval(p[1..], x), v), Eval(q, x));
    }
  }

  lemma {:induction false} EvalZeros(n: nat, x: Byte)
    ensures Eval(Zeros(n), x) == 0
  {
    hide Mul, Xor;
    if n > 0 {
      EvalZeros(n - 1, x);
      assert Zeros(n)[1..] == Zeros(n - 1);
      MulZero(Power(x, n - 1));
      XorZero(0);
    }
  }

  lemma {:induction false} EvalSame(p: seq<Byte>, q: seq<Byte>, x: Byte)
    requires Same(p, q)
    ensures Eval(p, x) == Eval(q, x)
    decreases |p| + |q|
  {
    hide Mul, Xor;
    if |p| == |q| {
      forall i | 0 <= i < |p|
        ensures p[i] == q[i]
      {
        assert Coef(p, |p| - 1 - i) == Coef(q, |p| - 1 - i);
      }
      assert p == q;
    } else if |p| < |q| {
      EvalLeadingZero(p, q, x);
    } else {
      EvalLeadingZero(q, p, x);
    }
  }

  lemma {:induction false} EvalLeadingZero(p: seq<Byte>, q: seq<Byte>, x: Byte)
    requires Same(p, q) && |p| < |q|
    ensures Eval(p, x) == Eval(q, x)
    decreases |p| + |q|, 0
  {
    hide Mul, Xor;
    assert Coef(p, |q| - 1) == Coef(q, |q| - 1) == q[0];
    forall k: int
      ensures Coef(p, k) == Coef(q[1..], k)
    {
      assert Coef(p, k) == Coef(q, k);
    }
    EvalSame(p, q[1..], x);
    MulZero(Power(x, |q| - 1));
    XorZero(Eval(q[1..], x));
  }

  lemma {:induction false} MulRightZero(a: Byte)
    ensures Mul(a, 0) == 0
  {
  }

  /** The product as a sequence. */
  ghost function Product(p: seq<Byte>, q: seq<Byte>): (r: seq<Byte>)
    requires |p| + |q| > 0
    ensures |r| == |p| + |q| - 1
  {
    seq(|p| + |q| - 1, i requires 0 <= i < |p| + |q| - 1 => Conv(p, q, |p| + |q| - 2 - i))
  }

  /** The value of a product is the product of the values. */
  lemma {:induction false} EvalProduct(p: seq<Byte>, q: seq<Byte>, x: Byte)
    requires |q| > 0
    ensures Eval(Product(p, q), x) == Mul(Eval(p, x), Eval(q, x))
  {
    hide Mul, Xor;
    if p == [] {
      forall i | 0 <= i < |q| - 1
        ensures Product(p, q)[i] == 0
      {
        assert Product(p, q)[i] == Conv(p, q, |q| - 2 - i);
      }
      assert Product(p, q) == Zeros(|q| - 1);
      EvalZeros(|q| - 1, x);
      MulZero(Eval(q, x));
    } else {
      var rest := p[1..];
      var row := Scale(p[0], q) + Zeros(|rest|);
      var tail := [0] + Product(rest, q);
      ProductRow(p, q);
      EvalSum(row, tail, x);
      EvalProduct(rest, q, x);
      var w := Power(x, |rest|);
      EvalConcat(Scale(p[0], q), Zeros(|rest|), x);
      EvalScale(p[0], q, x);
      EvalZeros(|rest|, x);
      XorZero(Mul(Mul(p[0], Eval(q, x)), w));
      assert tail[1..] == Product(rest, q);
      MulZero(Power(x, |tail| - 1));
      XorZero(Eval(Product(rest, q), x));
      MulAddLeft(Mul(p[0], w), Eval(rest, x), Eval(q, x));
      MulAssociates(p[0], w, Eval(q, x));
      MulAssociates(p[0], Eval(q, x), w);
      MulCommutes(w, Eval(q, x));
    }
  }

  lemma {:induction false} ProductRow(p: seq<Byte>, q: seq<Byte>)
    requires |p| > 0 && |q| > 0
    ensures Product(p, q) == Sum(Scale(p[0], q) + Zeros(|p| - 1), [0] + Product(p[1..], q))
  {
    hide Mul, Xor;
    var n := |p| + |q| - 2;
    forall i | 0 <= i <= n
      ensures Product(p, q)[i] == Sum(Scale(p[0], q) + Zeros(|p| - 1), [0] + Product(p[1..], q))[i]
    {
      MulRightZero(p[0]);
      assert Product(p, q)[i] == Conv(p, q, n - i);
      assert (Scale(p[0], q) + Zeros(|p| - 1))[i] == Mul(p[0], Coef(q, n - i - (|p| - 1)));
      if i == 0 {
        ConvHigh(p[1..], q, n);
      } else {
        assert Product(p[1..], q)[i - 1] == Conv(p[1..], q, n - i);
      }
    }
  }

  /** There is nothing above the degree of a product. */
  lemma {:induction false} ConvHigh(p: seq<Byte>, q: seq<Byte>, k: int)
    requires k >= |p| + |q| - 1 || k < 0
    ensures Conv(p, q, k) == 0
  {
    hide Mul, Xor;
    if p != [] {
      MulRightZero(p[0]);
      ConvHigh(p[1..], q, k);
      XorZero(0);
    }
  }

  lemma {:induction false} PadSame(p: seq<Byte>, n: nat)
    ensures Same(Zeros(n) + p, p)
  {
  }

  lemma {:induction false} CoefProduct(p: seq<Byte>, q: seq<Byte>, k: int)
    requires |p| + |q| > 0
    ensures Coef(Product(p, q), k) == Conv(p, q, k)
  {
    if k < 0 || k >= |p| + |q| - 1 {
      ConvHigh(p, q, k);
    }
  }

  lemma {:induction false} CoefSum(p: seq<Byte>, q: seq<Byte>, k: int)
    requires |p| == |q|
    ensures Coef(Sum(p, q), k) == Add(Coef(p, k), Coef(q, k))
  {
    XorZero(0);
  }

  /** Congruent polynomials agree at the roots of the modulus. */
  lemma {:induction false} CongruentEval(a: seq<Byte>, b: seq<Byte>, e: seq<Byte>, x: Byte)
    requires |e| > 0 && Congruent(a, b, e) && Eval(e, x) == 0
    ensures Eval(a, x) == Eval(b, x)
  {
    hide Mul, Xor, Conv, Eval, Product, Coef, Sum;
    var q :| Quotient(a, b, e, q);
    var n := |b| + |q| + |e|;
    var z := n - (|q| + |e| - 1);
    var pq := Zeros(z) + Product(q, e);
    var pb := Zeros(n - |b|) + b;
    PadSame(Product(q, e), z);
    PadSame(b, n - |b|);
    forall k: int
      ensures Coef(a, k) == Coef(Sum(pq, pb), k)
    {
      CoefSum(pq, pb, k);
      CoefProduct(q, e, k);
      assert Coef(pq, k) == Coef(Product(q, e), k);
      assert Coef(pb, k) == Coef(b, k);
    }
    EvalSame(a, Sum(pq, pb), x);
    EvalSum(pq, pb, x);
    EvalSame(pq, Product(q, e), x);
    EvalSame(pb, b, x);
    EvalProduct(q, e, x);
    MulRightZero(Eval(q, x));
    XorZero(Eval(b, x));
  }
}
