/** The logarithm tables of the QR encoder and the two functions that read them. */
module QrMath {
  import opened Bits
  import opened AlphaPowers
  import opened FieldOrder
  import opened Gf256
  import opened Wrappers

  /** A slot of a JavaScript array of numbers. `new Array(n)` leaves its slots `undefined`
      until they are assigned: that is a Hole, which the `^` operator reads as zero. */
  datatype Slot = Hole | Value(byte: Byte) {
    function Read(): Byte {
      if Hole? then 0 else byte
    }
  }

  /** What `glog` returns and `gexp` takes. The logarithm of a Hole is `undefined`, and
      arithmetic on it gives NaN. */
  datatype Exponent = NaN | Exp(n: int) {
    function Plus(other: Exponent): Exponent {
      if NaN? || other.NaN? then NaN else Exp(n + other.n)
    }

    function Minus(other: Exponent): Exponent {
      if NaN? || other.NaN? then NaN else Exp(n - other.n)
    }
  }

  /** The field element an exponent stands for; that of NaN is absorbed as zero by `^`. */
  function Element(e: Exponent): Byte {
    match e
    case NaN => 0
    case Exp(n) => Alpha(n % 255)
  }

  class QRMath {
    const expTable: array<Byte>
    const logTable: array<nat>

    ghost predicate Valid()
      reads expTable, logTable
    {
      && expTable.Length == 256 && logTable.Length == 256
      && (forall i :: 0 <= i < 256 ==> expTable[i] == Alpha(i))
      && (forall a: Byte :: a > 0 ==> logTable[a] < 255 && Alpha(logTable[a]) == a)
    }

    /** The two tables are the powers of alpha and their inverse. */
    constructor ()
      ensures Valid() && fresh(expTable) && fresh(logTable)
    {
      expTable, logTable := new Byte[256], new nat[256];
      new;
      FillExp(expTable);
      FillLog(expTable, logTable);
    }

    static method FillExp(exp: array<Byte>)
      requires exp.Length == 256
      modifies exp
      ensures forall i :: 0 <= i < 256 ==> exp[i] == Alpha(i)
    {
      hide Alpha, Add;
      for i := 0 to 8
        invariant forall k :: 0 <= k < i ==> exp[k] == Alpha(k)
      {
        ShiftIsAlpha(i);
        exp[i] := Pow2(i);
      }
      for i := 8 to 256
        invariant forall k :: 0 <= k < i ==> exp[k] == Alpha(k)
      {
        AlphaRecurrence(i - 8);
        exp[i] := Add(Add(Add(exp[i - 4], exp[i - 5]), exp[i - 6]), exp[i - 8]);
      }
    }

    static method FillLog(exp: array<Byte>, log: array<nat>)
      requires exp.Length == 256 && log.Length == 256
      requires forall i :: 0 <= i < 256 ==> exp[i] == Alpha(i)
      modifies log
      ensures forall a: Byte :: a > 0 ==> log[a] < 255 && Alpha(log[a]) == a
    {
      hide Alpha;
      for i := 0 to 255
        invariant forall k :: 0 <= k < i ==> log[Alpha(k)] == k
      {
        forall k | 0 <= k < i
          ensures Alpha(k) != Alpha(i)
        {
          if Alpha(k) == Alpha(i) {
            AlphaInjective(k, i);
          }
        }
        log[exp[i]] := i;
      }
      forall a: Byte | a > 0
        ensures log[a] < 255 && Alpha(log[a]) == a
      {
        LogarithmExists(a);
      }
    }

    /** The discrete logarithm; it throws on zero only. */
    method Glog(n: Slot) returns (r: Result<Exponent>)
      requires Valid()
      ensures r.Throws? <==> n == Value(0)
      ensures n.Hole? ==> r == Ok(NaN)
      ensures r.Ok? ==> Element(r.value) == n.Read()
      ensures r.Ok? && n.Value? ==> r.value.Exp?
    {
      if n.Hole? {
        return Ok(NaN);
      }
      if n.byte < 1 {
        return Throws;
      }
      r := Ok(Exp(logTable[n.byte]));
    }

    /** The power of alpha, for exponents of either sign. */
    method Gexp(e: Exponent) returns (r: Slot)
      requires Valid()
      ensures e.NaN? ==> r.Hole?
      ensures r.Read() == Element(e)
    {
      if e.NaN? {
        return Hole;
      }
      var n := e.n;
      while n < 0
        invariant n % 255 == e.n % 255
        decreases -n
      {
        n := n + 255;
      }
      while n >= 256
        invariant n >= 0 && n % 255 == e.n % 255
      {
        n := n - 255;
      }
      AlphaReduce(n);
      r := Value(expTable[n]);
    }
  }

  lemma {:induction false} ShiftIsAlpha(i: nat)
    requires i < 8
    ensures Pow2(i) == Alpha(i) && Pow2(i) < 256
  {
    if i > 0 {
      ShiftIsAlpha(i - 1);
      Pow2Monotone(i - 1, 6);
    }
  }

  /** 29 = 16 + 8 + 4 + 1, in the field as well. */
  lemma {:induction false} XorEight(a: Byte)
    requires a == 1
    ensures Add(Add(Add(16 * a, 8 * a), 4 * a), a) == 29
  {
    hide Xor;
    assert Pow2(4) == 16;
    XorAddTop(8, 4);
    XorZero(3);
    XorZero(14);
    XorDigit(3, 0, 0, 1);
    XorDigit(6, 1, 0, 0);
    XorDigit(12, 2, 0, 0);
    XorDigit(14, 0, 0, 1);
  }

  /** alpha^8 = alpha^4 + alpha^3 + alpha^2 + 1, shifted: the recurrence of the table. */
  lemma {:induction false} AlphaRecurrence(n: nat)
    ensures Alpha(n + 8) == Add(Add(Add(Alpha(n + 4), Alpha(n + 3)), Alpha(n + 2)), Alpha(n))
  {
    var z :| z == 0;
    assert Alpha(z) == 1;
    hide Alpha, Xor, Mul;
    AlphaEight(z);
    AlphaShifts(z, 1);
    AlphaShifts(z + 2, 4);
    XorEight(1);
    var a := Alpha(n);
    MulAddLeft(Add(Add(16, 8), 4), 1, a);
    MulAddLeft(Add(16, 8), 4, a);
    MulAddLeft(16, 8, a);
    AlphaAdd(8, n);
    AlphaAdd(4, n);
    AlphaAdd(3, n);
    AlphaAdd(2, n);
    MulOne(a);
  }
}
