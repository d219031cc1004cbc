/** The polynomial class of the QR encoder: construction, product and remainder, over arrays
    whose last slots may never have been assigned. */
module QrPolynomials {
  import opened Bits
  import opened FieldOrder
  import opened Gf256
  import opened Polynomial
  import opened QrMath
  import opened Wrappers

  datatype QRPolynomial = QRPolynomial(num: seq<Slot>) {
    ghost function Bytes(): (b: seq<Byte>)
      ensures |b| == |num|
    {
      Reads(num)
    }

    /** What the constructor establishes: no leading zero, though perhaps a leading Hole. */
    ghost predicate Normal() {
      num == [] || num[0] != Value(0)
    }

    /** The coefficients on which `glog` throws. */
    ghost predicate HasZero() {
      Value(0) in num
    }
  }

  ghost function Reads(num: seq<Slot>): (b: seq<Byte>)
    ensures |b| == |num|
  {
    seq(|num|, i requires 0 <= i < |num| => num[i].Read())
  }

  function Strip(num: seq<Slot>): seq<Slot> {
    if num != [] && num[0] == Value(0) then Strip(num[1..]) else num
  }

  function Holes(n: nat): seq<Slot> {
    seq(n, i => Hole)
  }

  method NewPolynomial(num: seq<Slot>, shift: nat) returns (p: QRPolynomial)
    ensures p.num == Strip(num) + Holes(shift)
  {
    var offset := 0;
    while offset < |num| && num[offset] == Value(0)
      invariant offset <= |num|
      invariant Strip(num) == Strip(num[offset..])
    {
      offset := offset + 1;
    }
    assert Strip(num) == num[offset..];
    var copy := new Slot[|num| - offset + shift](_ => Hole);
    for i := 0 to |num| - offset
      invariant copy[..i] == num[offset..offset + i]
      invariant forall k :: i <= k < copy.Length ==> copy[k] == Hole
    {
      copy[i] := num[i + offset];
    }
    assert copy[..] == num[offset..] + Holes(shift);
    p := QRPolynomial(copy[..]);
  }

  lemma {:induction false} StripSame(num: seq<Slot>)
    ensures Same(Reads(Strip(num)), Reads(num))
    ensures |Strip(num)| <= |num|
    ensures Strip(num) != [] ==> Strip(num)[0] != Value(0)
    ensures forall s :: s in Strip(num) ==> s in num
  {
    if num != [] && num[0] == Value(0) {
      StripSame(num[1..]);
      forall k: int
        ensures Coef(Reads(Strip(num)), k) == Coef(Reads(num), k)
      {
        assert Coef(Reads(num[1..]), k) == Coef(Reads(num), k);
      }
    }
  }

  lemma {:induction false} ElementPlus(a: Exponent, b: Exponent)
    ensures Element(a.Plus(b)) == Mul(Element(a), Element(b))
  {
    hide Mul, Alpha;
    if a.NaN? {
      MulZero(Element(b));
    } else if b.NaN? {
      MulRightZero(Element(a));
    } else {
      AlphaAdd(a.n % 255, b.n % 255);
      AlphaReduce(a.n % 255 + b.n % 255);
      ModSum(a.n, b.n);
    }
  }

  lemma {:induction false} ModSum(x: int, y: int)
    ensures (x + y) % 255 == (x % 255 + y % 255) % 255
  {
    var d := x / 255 + y / 255;
    var z := x % 255 + y % 255;
    assert x + y == 255 * d + z;
    assert x + y == 255 * (d + z / 255) + z % 255;
  }

  lemma {:induction false} ElementMinus(a: Exponent, b: Exponent)
    requires b.Exp?
    ensures Mul(Element(a.Minus(b)), Element(b)) == Element(a)
  {
    ElementPlus(a.Minus(b), b);
  }

  // ---- multiply ----

  /** The inner loop of both `multiply` and `mod`: adds to num, from slot i on, the
      coefficients of e times the element whose logarithm is `ratio`. */
  method AddMultiple(math: QRMath, num: array<Slot>, i: nat, e: QRPolynomial, ratio: Exponent) returns (ok: bool)
    requires math.Valid() && i + |e.num| <= num.Length
    requires num != math.expTable as object && num != math.logTable as object
    modifies num
    ensures ok <==> !e.HasZero()
    ensures ok ==> forall m :: 0 <= m < num.Length ==>
        num[m].Read() ==
        if i <= m < i + |e.num| then Add(old(num[m]).Read(), Mul(Element(ratio), e.num[m - i].Read()))
        else old(num[m]).Read()
    ensures ok ==> forall m :: 0 <= m < num.Length ==>
        if i <= m < i + |e.num| then num[m].Value? else num[m] == old(num[m])
  {
    hide Alpha, Xor, Mul;
    for j := 0 to |e.num|
      invariant Value(0) !in e.num[..j]
      invariant forall m :: 0 <= m < num.Length && !(i <= m < i + j) ==> num[m] == old(num[m])
      invariant forall m :: i <= m < i + j ==>
          num[m] == Value(Add(old(num[m]).Read(), Mul(Element(ratio), e.num[m - i].Read())))
    {
      var y := math.Glog(e.num[j]);
      if y.Throws? {
        return false;
      }
      var t := math.Gexp(y.value.Plus(ratio));
      ElementPlus(y.value, ratio);
      MulCommutes(Element(y.value), Element(ratio));
      num[i + j] := Value(Add(num[i + j].Read(), t.Read()));
    }
    ok := true;
  }

  /** The product throws on a zero coefficient, and on two empty operands (whose array would
      have length -1). */
  ghost predicate MultiplyThrows(p: QRPolynomial, e: QRPolynomial) {
    || (p.num == [] && e.num == [])
    || (p.num != [] && e.num != [] && (p.HasZero() || e.HasZero()))
  }

  /** Slots that hold the product of all but the last rows of a with b. */
  ghost predicate Partial(num: seq<Slot>, a: seq<Byte>, b: seq<Byte>, rest: seq<Byte>) {
    forall m :: 0 <= m < |num| ==>
      Add(num[m].Read(), Conv(rest, b, |num| - 1 - m)) == Conv(a, b, |num| - 1 - m)
  }

  method Multiply(math: QRMath, p: QRPolynomial, e: QRPolynomial) returns (r: Result<QRPolynomial>)
    requires math.Valid()
    ensures r.Throws? <==> MultiplyThrows(p, e)
    ensures r.Ok? ==> r.value.Normal() && |r.value.num| < |p.num| + |e.num|
    ensures r.Ok? ==> forall k: int :: Coef(r.value.Bytes(), k) == Conv(p.Bytes(), e.Bytes(), k)
    ensures r.Ok? && p.num != [] && e.num != [] ==> Hole !in r.value.num
  {
    hide Mul, Alpha, Xor, Conv, Add;
    ghost var a, b := p.Bytes(), e.Bytes();
    if |p.num| + |e.num| == 0 {
      return Throws;
    }
    var num := new Slot[|p.num| + |e.num| - 1](_ => Hole);
    assert a[0..] == a;
    PartialStart(num[..], a, b);
    for i := 0 to |p.num|
      invariant Partial(num[..], a, b, a[i..])
      invariant e.num == [] || Value(0) !in p.num[..i]
      invariant i == 0 || !e.HasZero()
      invariant i > 0 && e.num != [] ==> forall m :: 0 <= m < i + |e.num| - 1 ==> num[m].Value?
    {
      if e.num != [] {
        var x := math.Glog(p.num[i]);
        if x.Throws? {
          return Throws;
        }
        ghost var before := num[..];
        var ok := AddMultiple(math, num, i, e, x.value);
        if !ok {
          return Throws;
        }
        PartialStep(before, num[..], a, b, i);
      } else {
        PartialStep(num[..], num[..], a, b, i);
      }
    }
    var q := NewPolynomial(num[..], 0);
    assert q.num == Strip(num[..]);
    StripSame(num[..]);
    PartialEnd(num[..], a, b);
    forall k: int
      ensures Coef(q.Bytes(), k) == Conv(a, b, k)
    {
      assert Coef(q.Bytes(), k) == Coef(Reads(num[..]), k);
    }
    r := Ok(q);
  }

  lemma {:induction false} PartialStart(num: seq<Slot>, a: seq<Byte>, b: seq<Byte>)
    requires forall m :: 0 <= m < |num| ==> num[m] == Hole
    ensures Partial(num, a, b, a)
  {
    forall m | 0 <= m < |num|
      ensures Add(num[m].Read(), Conv(a, b, |num| - 1 - m)) == Conv(a, b, |num| - 1 - m)
    {
      XorZero(Conv(a, b, |num| - 1 - m));
    }
  }

  /** One more row. */
  lemma {:induction false} PartialStep(before: seq<Slot>, num: seq<Slot>, a: seq<Byte>, b: seq<Byte>, i: nat)
    requires i < |a| && |before| == |num| == |a| + |b| - 1
    requires Partial(before, a, b, a[i..])
    requires forall m :: 0 <= m < |num| ==>
        num[m].Read() ==
        if i <= m < i + |b| then Add(before[m].Read(), Mul(a[i], b[m - i])) else before[m].Read()
    ensures Partial(num, a, b, a[i + 1..])
  {
    hide Mul, Xor;
    forall m | 0 <= m < |num|
      ensures Add(num[m].Read(), Conv(a[i + 1..], b, |num| - 1 - m)) == Conv(a, b, |num| - 1 - m)
    {
      var rest := Conv(a[i + 1..], b, |num| - 1 - m);
      assert a[i..][1..] == a[i + 1..];
      assert Coef(b, |num| - 1 - m - (|a| - i - 1)) == if i <= m < i + |b| then b[m - i] else 0;
      if i <= m < i + |b| {
        XorAssociates(before[m].Read(), Mul(a[i], b[m - i]), rest);
      } else {
        MulRightZero(a[i]);
        XorZero(rest);
      }
    }
  }

  lemma {:induction false} PartialEnd(num: seq<Slot>, a: seq<Byte>, b: seq<Byte>)
    requires |num| == |a| + |b| - 1 && Partial(num, a, b, a[|a|..])
    ensures forall k: int :: Coef(Reads(num), k) == Conv(a, b, k)
  {
    forall k: int
      ensures Coef(Reads(num), k) == Conv(a, b, k)
    {
      if 0 <= k < |num| {
        var m := |num| - 1 - k;
        assert Conv(a[|a|..], b, k) == 0;
        XorZero(num[m].Read());
        assert Add(num[m].Read(), Conv(a[|a|..], b, |num| - 1 - m)) == Conv(a, b, |num| - 1 - m);
      } else {
        ConvHigh(a, b, k);
      }
    }
  }

  // ---- mod ----

  /** The remainder throws only when a division step meets a zero coefficient of the divisor. */
  ghost predicate ModThrows(p: QRPolynomial, e: QRPolynomial) {
    |p.num| >= |e.num| && e.HasZero()
  }

  /** The remainder of p by e, together with the quotient the divisions amount to. */
  method Mod(math: QRMath, p: QRPolynomial, e: QRPolynomial)
    returns (r: Result<QRPolynomial>, ghost q: seq<Byte>)
    requires math.Valid()
    requires p.Normal() && e.num != [] && e.num[0].Value?
    ensures r.Throws? <==> ModThrows(p, e)
    ensures r.Ok? ==> r.value.Normal() && |r.value.num| < |e.num|
    ensures r.Ok? ==> Quotient(p.Bytes(), r.value.Bytes(), e.Bytes(), q)
    ensures |q| <= if |p.num| < |e.num| then 0 else |p.num| - |e.num| + 1
    decreases |p.num|
  {
    if |p.num| - |e.num| < 0 {
      QuotientRefl(p.Bytes(), e.Bytes());
      return Ok(p), [];
    }
    ghost var c, d;
    var ok, next;
    ok, next, c, d := DivisionStep(math, p, e);
    if !ok {
      return Throws, [];
    }
    r, q := Mod(math, next, e);
    if r.Ok? {
      hide *;
      QuotientStep(p.Bytes(), d, next.Bytes(), r.value.Bytes(), e.Bytes(), c, q);
      q := [c] + Zeros(|p.num| - |e.num| - |q|) + q;
    }
  }

  /** What the next round is called with: the dividend less the multiple c of the divisor that
      cancels its leading term. */
  method DivisionStep(math: QRMath, p: QRPolynomial, e: QRPolynomial)
    returns (ok: bool, next: QRPolynomial, ghost c: Byte, ghost d: seq<Byte>)
    requires math.Valid()
    requires p.Normal() && |p.num| >= |e.num| > 0 && e.num[0].Value?
    ensures ok <==> !e.HasZero()
    ensures ok ==> next.Normal() && |next.num| < |p.num| && Same(next.Bytes(), d) && |d| == |p.num|
    ensures ok ==> forall i :: 0 <= i < |p.num| ==>
        d[i] == if i < |e.num| then Add(p.Bytes()[i], Mul(c, e.Bytes()[i])) else p.Bytes()[i]
  {
    hide Mul, Alpha, Xor, Conv;
    var top := math.Glog(p.num[0]);
    var lead := math.Glog(e.num[0]);
    if lead.Throws? {
      return false, p, 0, [];
    }
    var ratio := top.value.Minus(lead.value);
    ElementMinus(top.value, lead.value);
    c, d, next := Element(ratio), [], p;
    var num := new Slot[|p.num|](_ => Hole);
    for i := 0 to |p.num|
      invariant num[..i] == p.num[..i]
    {
      num[i] := p.num[i];
    }
    assert num[..] == p.num;
    ok := AddMultiple(math, num, 0, e, ratio);
    if !ok {
      return;
    }
    assert num[0] == Value(0) by {
      XorSelf(p.num[0].Read());
    }
    next := NewPolynomial(num[..], 0);
    d := Reads(num[..]);
    assert next.num == Strip(num[..]) == Strip(num[..][1..]);
    StripSame(num[..]);
    StripSame(num[..][1..]);
  }

  lemma {:induction false} QuotientRefl(a: seq<Byte>, e: seq<Byte>)
    ensures Quotient(a, a, e, [])
  {
    forall k: int
      ensures Coef(a, k) == Add(Conv([], e, k), Coef(a, k))
    {
      XorZero(Coef(a, k));
    }
  }

  lemma {:induction false} ConvLeadingZeros(n: nat, q: seq<Byte>, e: seq<Byte>, k: int)
    ensures Conv(Zeros(n) + q, e, k) == Conv(q, e, k)
  {
    hide Mul, Xor;
    if n == 0 {
      assert Zeros(n) + q == q;
    } else {
      ConvLeadingZeros(n - 1, q, e, k);
      assert (Zeros(n) + q)[1..] == Zeros(n - 1) + q;
      MulZero(Coef(e, k - (n + |q| - 1)));
      XorZero(Conv(q, e, k));
    }
  }

  /** One division step: d is a without its leading term, and the rest is divided already. */
  lemma {:induction false} QuotientStep(
      a: seq<Byte>, d: seq<Byte>, next: seq<Byte>, r: seq<Byte>, e: seq<Byte>, c: Byte, q: seq<Byte>)
    requires |d| == |a| >= |e| > 0 && |q| <= |a| - |e|
    requires forall i :: 0 <= i < |a| ==> d[i] == if i < |e| then Add(a[i], Mul(c, e[i])) else a[i]
    requires Same(next, d) && Quotient(next, r, e, q)
    ensures Quotient(a, r, e, [c] + Zeros(|a| - |e| - |q|) + q)
  {
    hide Mul, Xor;
    var s := |a| - |e|;
    var lower := Zeros(s - |q|) + q;
    var full := [c] + Zeros(s - |q|) + q;
    assert full[1..] == lower;
    forall k: int
      ensures Coef(a, k) == Add(Conv(full, e, k), Coef(r, k))
    {
      var t := Mul(c, Coef(e, k - s));
      ConvLeadingZeros(s - |q|, q, e, k);
      assert Conv(full, e, k) == Add(t, Conv(q, e, k));
      assert Coef(a, k) == Add(t, Coef(d, k)) by {
        MulRightZero(c);
        XorZero(Coef(a, k));
        XorCancel(Coef(a, k), t);
        XorCommutes(Coef(d, k), t);
      }
      assert Coef(d, k) == Coef(next, k);
      XorAssociates(t, Conv(q, e, k), Coef(r, k));
    }
  }
}
