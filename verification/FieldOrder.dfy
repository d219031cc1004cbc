/** The order of alpha is 255, so that its powers are all the nonzero bytes and GF(256) is a field. */
module FieldOrder {
  import opened AlphaPowers
  import opened Bits
  import opened Gf256

  lemma {:induction false} AlphaMultiple(d: nat, k: nat)
    requires Alpha(d) == 1
    ensures Alpha(k * d) == 1
  {
    if k > 0 {
      AlphaMultiple(d, k - 1);
      AlphaAdd((k - 1) * d, d);
      MulOne(1);
    }
  }

  /** Exponents count modulo n when alpha^n = 1. */
  lemma {:induction false} AlphaPeriod(n: nat, t: nat, r: nat)
    requires Alpha(n) == 1
    ensures Alpha(t * n + r) == Alpha(r)
  {
    hide *;
    AlphaMultiple(n, t);
    AlphaAdd(t * n, r);
    MulOne(Alpha(r));
  }

  /** The inverse of r modulo the primes 3, 5 and 17. */
  lemma {:induction false} PrimeInverse(p: nat, r: nat) returns (j: nat, q: nat)
    requires p in {3, 5, 17} && 0 < r < p
    ensures r * j == p * q + 1
  {
    if r == 1 { j, q := 1, 0; }
    else if r == p - 1 { j, q := r, r - 1; }
    else if p == 5 { j, q := 5 - r, 1; }
    else {
      match r
      case 2 => j, q := 9, 1;
      case 3 => j, q := 6, 1;
      case 4 => j, q := 13, 3;
      case 5 => j, q := 7, 2;
      case 6 => j, q := 3, 1;
      case 7 => j, q := 5, 2;
      case 8 => j, q := 15, 7;
      case 9 => j, q := 2, 1;
      case 10 => j, q := 12, 7;
      case 11 => j, q := 14, 9;
      case 12 => j, q := 10, 7;
      case 13 => j, q := 4, 3;
      case 14 => j, q := 11, 9;
      case 15 => j, q := 8, 7;
    }
  }

  lemma {:induction false} CofactorIdentity(p: nat, m: nat, h: nat, r: nat, j: nat, q: nat)
    requires r * j == p * q + 1
    ensures m * j * (p * h + r) == (h * j + q) * (m * p) + m
  {
    assert m * (r * j) == m * (p * q + 1);
    assert m * j * (p * h + r) == m * j * (p * h) + m * (r * j);
    assert m * j * (p * h) == h * j * (m * p);
    assert m * (p * q) == q * (m * p);
  }

  /** If alpha^d = 1 then alpha^(255/p) = 1, for each prime p of 255 that does not divide d. */
  lemma {:induction false} AlphaCofactor(p: nat, m: nat, h: nat, r: nat)
    requires p in {3, 5, 17} && 0 < r < p
    requires Alpha(p * h + r) == 1 && Alpha(m * p) == 1
    ensures Alpha(m) == 1
  {
    hide *;
    var j, q := PrimeInverse(p, r);
    var d := p * h + r;
    CofactorIdentity(p, m, h, r, j, q);
    AlphaMultiple(d, m * j);
    AlphaPeriod(m * p, h * j + q, m);
  }

  lemma {:induction false} Multiple255(d: nat)
    requires d % 3 == 0 && d % 5 == 0 && d % 17 == 0
    ensures d % 255 == 0
  {
    var i, j, k := d / 3, d / 5, d / 17;
    assert d == 3 * i == 5 * j == 17 * k;
    Times255(d, i + j - 9 * k);
  }

  lemma {:induction false} Times255(d: nat, q: int)
    requires d == 255 * q
    ensures d % 255 == 0
  {
  }

  lemma {:induction false} AlphaOrderAt(d: nat, n: nat)
    requires n == 0 && Alpha(n) == 1
    ensures Alpha(d) == 1 <==> d % 255 == 0
  {
    hide *;
    AlphaCycle(n);
    AlphaNotYet(n);
    if d % 255 == 0 {
      AlphaMultiple(n + 255, d / 255);
    } else if Alpha(d) == 1 {
      if d % 17 != 0 {
        AlphaCofactor(17, n + 15, d / 17, d % 17);
      } else if d % 5 != 0 {
        AlphaCofactor(5, n + 51, d / 5, d % 5);
      } else if d % 3 != 0 {
        AlphaCofactor(3, n + 85, d / 3, d % 3);
      } else {
        Multiple255(d);
      }
    }
  }

  /** The order of alpha is 255. */
  lemma {:induction false} AlphaOrder(d: nat)
    ensures Alpha(d) == 1 <==> d % 255 == 0
  {
    var n :| n == 0;
    assert Alpha(n) == 1;
    AlphaOrderAt(d, n);
  }

  lemma {:induction false} AlphaReduce(e: nat)
    ensures Alpha(e) == Alpha(e % 255)
  {
    hide *;
    var n := e - e % 255;
    AlphaOrder(n);
    AlphaPeriod(n, 1, e % 255);
  }

  lemma {:induction false} AlphaInverse(e: nat)
    ensures Mul(Alpha(e), Alpha(254 * e)) == 1
  {
    hide *;
    AlphaAdd(e, 254 * e);
    AlphaOrder(255 * e);
  }

  lemma {:induction false} AlphaNonZero(e: nat)
    ensures Alpha(e) != 0
  {
    AlphaInverse(e);
    MulZero(Alpha(254 * e));
  }

  lemma {:induction false} AlphaInjective(i: nat, j: nat)
    requires i < 255 && j < 255 && Alpha(i) == Alpha(j)
    ensures i == j
  {
    hide *;
    AlphaInverse(i);
    AlphaAdd(j, 254 * i);
    AlphaOrder(j + 254 * i);
    assert j + 254 * i == 255 * i + (j - i);
  }

  // ---- so every nonzero element has a logarithm ----

  ghost function Powers(n: nat): (s: set<nat>) {
    if n == 0 then {} else Powers(n - 1) + {Alpha(n - 1)}
  }

  lemma {:induction false} PowersMember(n: nat, x: nat)
    requires x in Powers(n)
    ensures exists i :: 0 <= i < n && Alpha(i) == x
  {
    if x != Alpha(n - 1) {
      PowersMember(n - 1, x);
    }
  }

  ghost function UpTo(n: nat): (s: set<nat>)
    ensures |s| == n && forall x :: x in s <==> 1 <= x <= n
  {
    if n == 0 then {} else UpTo(n - 1) + {n}
  }

  lemma {:induction false} PowersCount(n: nat)
    requires n <= 255
    ensures |Powers(n)| == n
  {
    if n > 0 {
      PowersCount(n - 1);
      hide Alpha;
      if Alpha(n - 1) in Powers(n - 1) {
        PowersMember(n - 1, Alpha(n - 1));
        var i :| 0 <= i < n - 1 && Alpha(i) == Alpha(n - 1);
        AlphaInjective(i, n - 1);
      }
    }
  }

  /** Pigeonhole: 255 distinct powers fill the 255 nonzero bytes. */
  lemma {:induction false} LogarithmExists(a: Byte)
    requires a != 0
    ensures exists i :: 0 <= i < 255 && Alpha(i) == a
  {
    var n := 255;
    hide Alpha;
    PowersCount(n);
    forall x | x in Powers(n)
      ensures x in UpTo(n)
    {
      PowersMember(n, x);
      var i :| 0 <= i < n && Alpha(i) == x;
      AlphaNonZero(i);
    }
    SubsetOfSameSize(Powers(n), UpTo(n));
    PowersMember(n, a);
  }

  lemma {:induction false} SubsetOfSameSize<T>(s: set<T>, t: set<T>)
    requires s <= t && |s| == |t|
    ensures s == t
  {
    assert t == s + (t - s);
  }

  lemma {:induction false} NoZeroDivisors(a: Byte, b: Byte)
    ensures Mul(a, b) == 0 <==> a == 0 || b == 0
  {
    MulZero(b);
    assert Mul(a, 0) == 0;
    hide *;
    if a != 0 && b != 0 {
      LogarithmExists(a);
      LogarithmExists(b);
      var i :| 0 <= i < 255 && Alpha(i) == a;
      var j :| 0 <= j < 255 && Alpha(j) == b;
      AlphaAdd(i, j);
      AlphaNonZero(i + j);
    }
  }
}
