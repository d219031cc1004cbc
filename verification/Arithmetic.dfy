/** Facts about products and remainders that the solver needs one at a time. */
module Arithmetic {

  lemma {:induction false} DoubleFactor(a: nat, b: nat)
    ensures a * (2 * b) == 2 * (a * b)
  {
  }

  lemma {:induction false} TimesSum(a: nat, b: nat, p: nat)
    ensures (a + b) * p == a * p + b * p
  {
  }

  lemma {:induction false} Regroup(q: int, w: int, p: int)
    ensures q * w * p == q * (w * p)
  {
  }

  lemma {:induction false} AtMostProduct(a: nat, b: nat, p: nat)
    requires a <= b
    ensures a * p <= b * p
  {
  }

  lemma {:induction false} SmallMultiple(x: int, m: int)
    requires m > 0
    ensures x >= 1 ==> x * m >= m
    ensures x <= -1 ==> x * m <= -m
  {
  }

  /** Quotient and remainder are what they have to be. */
  lemma {:induction false} Remainder(n: int, m: nat, q: int, r: nat)
    requires r < m && n == q * m + r
    ensures n % m == r && n / m == q
  {
    var x := n / m - q;
    assert x * m == r - n % m;
    SmallMultiple(x, m);
  }

  lemma {:induction false} DivMod(n: int, m: nat)
    requires m > 0
    ensures n == n / m * m + n % m && 0 <= n % m < m
  {
  }

  /** Shifting left within 32 bits drops the high digits. */
  lemma {:induction false} ShiftWord(data: nat, p: nat, w: nat)
    requires p > 0 && w > 0
    ensures data * p % (w * p) == (data % w) * p
  {
    var q, r := data / w, data % w;
    assert data == q * w + r;
    TimesSum(q * w, r, p);
    Regroup(q, w, p);
    AtMostProduct(r, w - 1, p);
    TimesSum(w - 1, 1, p);
    Remainder(data * p, w * p, q, r * p);
  }

  lemma {:induction false} BelowProduct(h: nat, w: nat, p: nat, d: nat)
    requires h < w && d < p
    ensures h * p + d < w * p
  {
    assert (h + 1) * p <= w * p;
  }
}
