/** The bit buffer of the QR encoder: a list of bytes filled from the top bit down. */
module BitBuffer {
  import opened Arithmetic
  import opened Bits

  /** n >>> k */
  function Shr(n: nat, k: nat): nat {
    if k == 0 then n else Shr(n / 2, k - 1)
  }

  /** (n >>> k) & 1 == 1 */
  predicate TestBit(n: nat, k: nat) {
    Shr(n, k) % 2 == 1
  }

  /** n | (1 << k) */
  function SetBit(n: nat, k: nat): nat {
    if k == 0 then (if n % 2 == 1 then n else n + 1) else 2 * SetBit(n / 2, k - 1) + n % 2
  }

  lemma {:induction false} SetBitTests(n: nat, k: nat, j: nat)
    ensures TestBit(SetBit(n, k), j) <==> j == k || TestBit(n, j)
    decreases k
  {
    if k > 0 {
      if j > 0 {
        SetBitTests(n / 2, k - 1, j - 1);
      }
    } else if j > 0 {
      assert SetBit(n, 0) / 2 == n / 2;
    }
  }

  lemma {:induction false} SetBitBound(n: nat, k: nat, w: nat)
    requires k < w && n < Pow2(w)
    ensures SetBit(n, k) < Pow2(w)
  {
    var h := n / 2;
    var p := Pow2(w - 1);
    assert Pow2(w) == 2 * p;
    hide Pow2;
    if k > 0 {
      SetBitBound(h, k - 1, w - 1);
      assert SetBit(n, k) == 2 * SetBit(h, k - 1) + n % 2;
    }
  }

  /** The low `length` bits of a number, the highest first. */
  function BitsOf(num: nat, length: nat): (b: seq<bool>)
    ensures |b| == length
  {
    seq(length, i requires 0 <= i < length => TestBit(num, length - 1 - i))
  }

  /** A bit list read as a number, the highest bit first. */
  function NumberOf(b: seq<bool>): nat {
    if b == [] then 0 else 2 * NumberOf(b[..|b| - 1]) + (if b[|b| - 1] then 1 else 0)
  }

  lemma {:induction false} BitsOfHalf(num: nat, length: nat)
    requires length > 0
    ensures BitsOf(num, length) == BitsOf(num / 2, length - 1) + [num % 2 == 1]
  {
    var b, h := BitsOf(num, length), BitsOf(num / 2, length - 1);
    forall i | 0 <= i < length - 1
      ensures b[i] == h[i]
    {
      assert b[i] == TestBit(num, length - 1 - i);
      assert h[i] == TestBit(num / 2, length - 2 - i);
    }
    assert b[length - 1] == TestBit(num, 0) == (num % 2 == 1);
  }

  lemma {:induction false} DoubleProduct(h: nat, p: nat, q: nat, n: nat, b: nat)
    requires h == p * q + n
    ensures 2 * h + b == (2 * p) * q + (2 * n + b)
  {
    assert (2 * p) * q == 2 * (p * q);
  }

  /** Writing a number and reading it back leaves its low bits. */
  lemma {:induction false} NumberOfBits(num: nat, length: nat)
    ensures num == Pow2(length) * Shr(num, length) + NumberOf(BitsOf(num, length))
    ensures NumberOf(BitsOf(num, length)) < Pow2(length)
  {
    if length > 0 {
      var h, p, q := num / 2, Pow2(length - 1), Shr(num / 2, length - 1);
      var n := NumberOf(BitsOf(h, length - 1));
      NumberOfBits(h, length - 1);
      BitsOfHalf(num, length);
      assert BitsOf(num, length)[..length - 1] == BitsOf(h, length - 1);
      assert NumberOf(BitsOf(num, length)) == 2 * n + num % 2;
      DoubleProduct(h, p, q, n, num % 2);
    }
  }

  /** Exactly the numbers below 2^length survive. */
  lemma {:induction false} NumberFits(num: nat, length: nat)
    ensures NumberOf(BitsOf(num, length)) == num <==> num < Pow2(length)
  {
    NumberOfBits(num, length);
    hide *;
    if Shr(num, length) > 0 {
      assert Pow2(length) * Shr(num, length) >= Pow2(length);
    }
  }

  lemma {:induction false} HalfOfQuotient(n: nat, p: nat)
    requires p > 0
    ensures n / 2 / p == n / (2 * p)
  {
    var h := n / 2;
    var q, r := h / p, h % p;
    DivMod(h, p);
    Regroup(q, 2, p);
    assert q * p * 2 == q * (p * 2);
    Remainder(n, 2 * p, q, 2 * r + n % 2);
  }

  lemma {:induction false} ShrDivides(n: nat, k: nat)
    ensures Shr(n, k) == n / Pow2(k)
  {
    if k > 0 {
      ShrDivides(n / 2, k - 1);
      HalfOfQuotient(n, Pow2(k - 1));
    }
  }

  /** Bit i from the left stands for 2^(length - 1 - i), and together they are the number's low part. */
  lemma {:induction false} BitsOfNumber(num: nat, length: nat, i: nat)
    requires i < length
    ensures BitsOf(num, length)[i] <==> num / Pow2(length - 1 - i) % 2 == 1
    ensures NumberOf(BitsOf(num, length)) == num % Pow2(length)
  {
    var k := length - 1 - i;
    assert BitsOf(num, length)[i] == TestBit(num, k) == (Shr(num, k) % 2 == 1);
    hide *;
    ShrDivides(num, k);
    NumberOfBits(num, length);
    var p, q := Pow2(length), Shr(num, length);
    assert p * q == q * p;
    Remainder(num, p, q, NumberOf(BitsOf(num, length)));
  }

  lemma {:induction false} ZeroBits(j: nat)
    ensures !TestBit(0, j)
  {
    if j > 0 {
      ZeroBits(j - 1);
    }
  }

  predicate BitAt(buffer: seq<Byte>, i: nat)
    requires i < 8 * |buffer|
  {
    TestBit(buffer[i / 8], 7 - i % 8)
  }

  /** No byte more than the bits need, and no stray bit set after the last one. */
  ghost predicate Holds(buffer: seq<Byte>, length: nat) {
    && |buffer| == (length + 7) / 8
    && forall i :: length <= i < 8 * |buffer| ==> !BitAt(buffer, i)
  }

  ghost function BitList(buffer: seq<Byte>, length: nat): (b: seq<bool>)
    requires Holds(buffer, length)
    ensures |b| == length
  {
    seq(length, i requires 0 <= i < length => BitAt(buffer, i))
  }

  /** Setting one bit of one byte. */
  lemma {:induction false} BitAtSet(buffer: seq<Byte>, length: nat, i: nat)
    requires length < 8 * |buffer| && i < 8 * |buffer|
    requires SetBit(buffer[length / 8], 7 - length % 8) < 256
    ensures BitAt(buffer[length / 8 := SetBit(buffer[length / 8], 7 - length % 8)], i) <==>
            i == length || BitAt(buffer, i)
  {
    SetBitTests(buffer[length / 8], 7 - length % 8, 7 - i % 8);
    hide TestBit, SetBit;
  }

  lemma {:induction false} Grow(buffer: seq<Byte>, length: nat)
    requires Holds(buffer, length) && |buffer| == length / 8
    ensures forall i :: 0 <= i < 8 * |buffer + [0]| ==>
        (BitAt(buffer + [0], i) <==> i < length && BitAt(buffer, i))
  {
    forall i | 0 <= i < 8 * |buffer + [0]|
      ensures BitAt(buffer + [0], i) <==> i < length && BitAt(buffer, i)
    {
      ZeroBits(7 - i % 8);
    }
  }

  lemma {:induction false} OneMoreBit(before: seq<Byte>, after: seq<Byte>, length: nat, bit: bool)
    requires Holds(before, length) && |after| == length / 8 + 1
    requires forall i :: 0 <= i < 8 * |after| ==>
        (BitAt(after, i) <==> (i < length && BitAt(before, i)) || (bit && i == length))
    ensures Holds(after, length + 1)
    ensures BitList(after, length + 1) == BitList(before, length) + [bit]
  {
    hide BitAt;
  }

  class QRBitBuffer {
    var buffer: seq<Byte>
    var length: nat

    ghost predicate Valid()
      reads this
    {
      Holds(buffer, length)
    }

    ghost function Bits(): (b: seq<bool>)
      requires Valid()
      reads this
      ensures |b| == length
    {
      BitList(buffer, length)
    }

    constructor ()
      ensures Valid() && Bits() == []
    {
      buffer, length := [], 0;
    }

    method PutBit(bit: bool)
      requires Valid()
      modifies this
      ensures Valid() && Bits() == old(Bits()) + [bit]
    {
      hide TestBit, SetBit, BitAt;
      var bufIndex := length / 8;
      if |buffer| <= bufIndex {
        Grow(buffer, length);
        buffer := buffer + [0];
      }
      ghost var grown := buffer;
      assert forall i :: 0 <= i < 8 * |grown| ==> (BitAt(grown, i) <==> i < length && BitAt(old(buffer), i));
      if bit {
        var place := 7 - length % 8;
        assert Pow2(8) == 256;
        SetBitBound(buffer[bufIndex], place, 8);
        buffer := buffer[bufIndex := SetBit(buffer[bufIndex], place)];
        forall i | 0 <= i < 8 * |grown|
          ensures BitAt(buffer, i) <==> i == length || BitAt(grown, i)
        {
          BitAtSet(grown, length, i);
        }
      }
      OneMoreBit(old(buffer), buffer, length, bit);
      length := length + 1;
    }

    /** Appends the low `count` bits of num. */
    method Put(num: nat, count: nat)
      requires Valid() && count <= 32 && num < 0x1_0000_0000
      modifies this
      ensures Valid() && Bits() == old(Bits()) + BitsOf(num, count)
    {
      for i := 0 to count
        invariant Valid() && Bits() == old(Bits()) + BitsOf(num, count)[..i]
      {
        PutBit(TestBit(num, count - i - 1));
      }
    }

    /** Bits past the end read as false. */
    method Get(index: nat) returns (bit: bool)
      requires Valid()
      ensures bit <==> index < length && Bits()[index]
    {
      var bufIndex := index / 8;
      bit := bufIndex < |buffer| && TestBit(buffer[bufIndex], 7 - index % 8);
      assert bit ==> BitAt(buffer, index);
    }
  }
}
