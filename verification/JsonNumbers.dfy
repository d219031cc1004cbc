/** The decimal value of every form of a number, and which numbers have a text. */
module JsonNumbers {
  import opened JsonValues
  import opened JsonLexemes

  // ---- the value of each form ----

  lemma {:induction false} DigitRunWhole(a: string, tail: string)
    requires AllDigits(a) && (tail != [] ==> !Digit(tail[0]))
    ensures DigitRun(a + tail) == |a| && (a + tail)[..|a|] == a && (a + tail)[|a|..] == tail
    ensures (a + tail)[0] != '-'
  {
    DigitRunStops(a, tail);
  }

  lemma {:induction false} ScaledByNothing(x: real, e: int)
    requires e == 0
    ensures Scaled(x, e) == x
  {
  }

  lemma {:induction false} WholeForm(a: string, exponent: string)
    requires AllDigits(a) && (exponent != [] ==> exponent[0] == 'e' || exponent[0] == 'E')
    ensures Unsigned(a + exponent) == Scaled(DigitsValue(a) as real, ExponentValue(exponent))
    ensures a + exponent != [] && (a + exponent)[0] != '-'
  {
    assert exponent != [] ==> !Digit(exponent[0]) && exponent[0] != '.';
    DigitRunWhole(a, exponent);
    hide DigitsValue, DigitRun, ExponentValue, Scaled, AllDigits;
  }

  /** A run of digits, a point and another run. */
  lemma {:induction false} TwoRuns(s: string, n: nat, m: nat)
    requires n < |s| && DigitRun(s) == n && s[n] == '.' && n + 1 + m <= |s| && DigitRun(s[n + 1..]) == m
    ensures Unsigned(s) ==
            Scaled(DigitsValue(s[..n]) as real + Scaled(DigitsValue(s[n + 1..n + 1 + m]) as real, 0 - m),
                   ExponentValue(s[n + 1 + m..]))
  {
    var tail := s[n..];
    assert tail[1..] == s[n + 1..] && tail[1..1 + m] == s[n + 1..n + 1 + m] && tail[1 + m..] == s[n + 1 + m..];
    hide DigitRun, DigitsValue, Scaled, ExponentValue;
  }

  lemma {:induction false} Pieces(a: string, b: string, exponent: string)
    ensures var s, n := a + ("." + (b + exponent)), |a| + 1;
            && |s| == n + |b| + |exponent| && s[n - 1] == '.' && s[..n - 1] == a && s[n..] == b + exponent
            && s[n..n + |b|] == b && s[n + |b|..] == exponent
  {
    var t, s := "." + (b + exponent), a + ("." + (b + exponent));
    assert s[|a|..] == t;
    assert s[|a| + 1..] == t[1..] == b + exponent;
  }

  lemma {:induction false} NoDigitMark()
    ensures !Digit('.') && !Digit('e') && !Digit('E')
  {
  }

  lemma {:induction false} FractionForm(a: string, b: string, exponent: string)
    requires AllDigits(a) && AllDigits(b) && (exponent != [] ==> exponent[0] == 'e' || exponent[0] == 'E')
    ensures var s := a + ("." + (b + exponent));
            && Unsigned(s) == Scaled(Scaled(DigitsValue(a + b) as real, 0 - |b|), ExponentValue(exponent))
            && s[0] != '-'
  {
    hide *;
    var t := "." + (b + exponent);
    NoDigitMark();
    assert t[0] == '.';
    DigitRunWhole(a, t);
    DigitRunWhole(b, exponent);
    Pieces(a, b, exponent);
    FractionDigits(a, b);
    TwoRuns(a + t, |a|, |b|);
  }

  lemma {:induction false} MinusForm(s: string)
    requires s != [] && s[0] != '-'
    ensures NumberValue(s) == Unsigned(s) && NumberValue("-" + s) == -NumberValue(s)
  {
    assert ("-" + s)[1..] == s;
    hide Unsigned;
  }

  /** A number: the digits as one whole number, scaled down by the digits behind the point, and scaled by the
      exponent; a minus sign makes it negative. */
  lemma {:induction false} NumberForms(a: string, b: string, exponent: string)
    requires AllDigits(a) && AllDigits(b) && (exponent != [] ==> exponent[0] == 'e' || exponent[0] == 'E')
    ensures NumberValue(a + exponent) == Scaled(DigitsValue(a) as real, ExponentValue(exponent))
    ensures NumberValue("-" + (a + exponent)) == -NumberValue(a + exponent)
    ensures var s := a + ("." + (b + exponent));
            && NumberValue(s) == Scaled(Scaled(DigitsValue(a + b) as real, 0 - |b|), ExponentValue(exponent))
            && NumberValue("-" + s) == -NumberValue(s)
  {
    WholeForm(a, exponent);
    FractionForm(a, b, exponent);
    MinusForm(a + exponent);
    MinusForm(a + ("." + (b + exponent)));
    hide *;
  }

  /** The exponent, after a small or a capital e: its digits, with a plus or without a sign as they are, and
      with a minus negative. Without an exponent nothing is scaled. */
  lemma {:induction false} ExponentForms(mark: char, x: string, y: real, z: int)
    requires (mark == 'e' || mark == 'E') && AllDigits(x)
    ensures ExponentValue([mark] + x) == ExponentValue([mark] + ("+" + x)) == DigitsValue(x)
    ensures ExponentValue([mark] + ("-" + x)) == 0 - DigitsValue(x)
    ensures z == ExponentValue("") ==> Scaled(y, z) == y
  {
    var plus, minus := [mark] + ("+" + x), [mark] + ("-" + x);
    assert Digit(x[0]);
    assert ([mark] + x)[1..] == x && plus[2..] == x && minus[2..] == x && ([mark] + x)[1] == x[0];
    hide DigitsValue;
    if z == ExponentValue("") {
      ScaledByNothing(y, z);
    }
  }

  // ---- which numbers have a text ----

  ghost predicate TenthsOf(r: real, n: int, k: nat) {
    r == Scaled(n as real, 0 - k)
  }

  /** A whole number, divided by ten some number of times. */
  ghost predicate Decimal(r: real) {
    exists n: int, k: nat :: TenthsOf(r, n, k)
  }

  lemma {:induction false} TimesTen(x: real)
    requires Decimal(x)
    ensures Decimal(10.0 * x)
  {
    var n: int, k: nat :| TenthsOf(x, n, k);
    var m := 10 * n;
    MoveTen(n as real, PowerOfTen(0 - k));
    assert TenthsOf(10.0 * x, m, k);
  }

  lemma {:induction false} MoveTen(x: real, p: real)
    ensures 10.0 * (x * p) == (10.0 * x) * p == x * (10.0 * p)
  {
  }

  lemma {:induction false} OverTen(x: real)
    requires Decimal(x)
    ensures Decimal(x / 10.0)
  {
    var n: int, k: nat :| TenthsOf(x, n, k);
    var next := k + 1;
    var p := PowerOfTen(0 - next);
    TenthPower(k);
    MoveTen(n as real, p);
    assert x == 10.0 * (n as real * p);
    assert TenthsOf(x / 10.0, n, next);
  }

  lemma {:induction false} ScaledDecimal(x: real, e: int)
    requires Decimal(x)
    ensures Decimal(Scaled(x, e))
    decreases if e < 0 then -e else e
  {
    hide Decimal;
    if e == 0 {
      ScaledByNothing(x, e);
    } else if e > 0 {
      TimesTen(x);
      OneUp(x, e);
      hide Scaled;
      ScaledDecimal(10.0 * x, e - 1);
    } else {
      OverTen(x);
      OneDown(x, e);
      hide Scaled;
      ScaledDecimal(x / 10.0, e + 1);
    }
  }

  lemma {:induction false} OneUp(x: real, e: int)
    requires e > 0
    ensures Scaled(x, e) == Scaled(10.0 * x, e - 1)
  {
    var p := PowerOfTen(e - 1);
    assert PowerOfTen(e) == 10.0 * p;
    hide PowerOfTen;
    MoveTen(x, p);
  }

  lemma {:induction false} OneDown(x: real, e: int)
    requires e < 0
    ensures Scaled(x, e) == Scaled(x / 10.0, e + 1)
  {
    var p := PowerOfTen(e + 1);
    assert PowerOfTen(e) == p / 10.0;
    hide PowerOfTen;
    DivideTen(x, p);
  }

  lemma {:induction false} DivideTen(x: real, p: real)
    ensures x * (p / 10.0) == (x / 10.0) * p
  {
  }

  lemma {:induction false} WholeDecimal(n: int, k: nat)
    requires k == 0
    ensures Decimal(n as real)
  {
    ScaledByNothing(n as real, 0 - k);
    assert TenthsOf(n as real, n, k);
  }

  lemma {:induction false} Negative(x: real)
    requires Decimal(x)
    ensures Decimal(-x)
  {
    var n: int, k: nat :| TenthsOf(x, n, k);
    var m := -n;
    NegativeScaled(n as real, 0 - k);
    assert TenthsOf(-x, m, k);
  }

  lemma {:induction false} Joined(sign: string, a: string, b: string, exponent: string)
    ensures sign + a + "" + exponent == sign + (a + exponent)
    ensures sign + a + ("." + b) + exponent == sign + (a + ("." + (b + exponent)))
  {
  }

  lemma {:induction false} Unsaid(s: string)
    ensures "" + s == s
  {
  }

  /** A number is one of four forms: with a fraction or without, negative or not. */
  lemma {:induction false} FormOf(s: string) returns (a: string, b: string, exponent: string)
    requires NumberText(s)
    ensures AllDigits(a) && AllDigits(b) && (exponent != [] ==> exponent[0] == 'e' || exponent[0] == 'E')
    ensures var t, u := a + exponent, a + ("." + (b + exponent));
            s == t || s == u || s == "-" + t || s == "-" + u
  {
    var sign, whole, fraction;
    sign, whole, fraction, exponent :| NumberParts(s, sign, whole, fraction, exponent);
    a, b := whole, if fraction == [] then whole else fraction[1..];
    assert fraction != [] ==> fraction == "." + b;
    hide AllDigits, NumberText;
    Joined(sign, a, b, exponent);
    Unsaid(a + exponent);
    Unsaid(a + ("." + (b + exponent)));
  }

  lemma {:induction false} FormDecimal(a: string, b: string, exponent: string)
    requires AllDigits(a) && AllDigits(b) && (exponent != [] ==> exponent[0] == 'e' || exponent[0] == 'E')
    ensures var t, u := a + exponent, a + ("." + (b + exponent));
            && Decimal(NumberValue(t)) && Decimal(NumberValue("-" + t))
            && Decimal(NumberValue(u)) && Decimal(NumberValue("-" + u))
  {
    hide *;
    NumberForms(a, b, exponent);
    WholeDecimal(DigitsValue(a), 0);
    WholeDecimal(DigitsValue(a + b), 0);
    ScaledDecimal(DigitsValue(a) as real, ExponentValue(exponent));
    ScaledDecimal(DigitsValue(a + b) as real, 0 - |b|);
    ScaledDecimal(Scaled(DigitsValue(a + b) as real, 0 - |b|), ExponentValue(exponent));
    Negative(NumberValue(a + exponent));
    Negative(NumberValue(a + ("." + (b + exponent))));
  }

  lemma {:induction false} OnlyDecimals(s: string)
    requires NumberText(s)
    ensures Decimal(NumberValue(s))
  {
    hide *;
    var a, b, exponent := FormOf(s);
    FormDecimal(a, b, exponent);
  }

  /** A text for n divided by ten k times. */
  function DecimalText(n: int, k: nat): string {
    IntText(n) + ("e" + ("-" + NatText(k)))
  }

  lemma {:induction false} NatDigits(n: nat)
    ensures AllDigits(NatText(n)) && WholePart(NatText(n)) && DigitsValue(NatText(n)) == n
  {
    NatTextValue(n);
    assert n < 10 ==> |NatText(n)| == 1;
    hide NatText, DigitsValue;
  }

  lemma {:induction false} DownParts(x: string)
    requires AllDigits(x)
    ensures ExponentPart("e" + ("-" + x))
  {
    assert ("e" + ("-" + x))[2..] == x;
    hide AllDigits;
  }

  lemma {:induction false} SignedText(sign: string, whole: string, exponent: string)
    requires (sign == "" || sign == "-") && WholePart(whole) && ExponentPart(exponent)
    ensures NumberText(sign + (whole + exponent))
  {
    hide WholePart, ExponentPart;
    Joined(sign, whole, "", exponent);
    assert NumberParts(sign + (whole + exponent), sign, whole, "", exponent);
  }

  lemma {:induction false} DecimalTextForm(n: int, k: nat)
    ensures var m := if n < 0 then -n else n;
            var s := NatText(m) + ("e" + ("-" + NatText(k)));
            NumberText(DecimalText(n, k)) && DecimalText(n, k) == if n < 0 then "-" + s else s
  {
    var m := if n < 0 then -n else n;
    var whole, x := NatText(m), NatText(k);
    var exponent := "e" + ("-" + x);
    DecimalTextParts(n, k);
    hide *;
    NatDigits(m);
    NatDigits(k);
    DownParts(x);
    if n < 0 {
      SignedText("-", whole, exponent);
      MinusJoined(whole, exponent);
    } else {
      SignedText("", whole, exponent);
      Unsaid(whole + exponent);
    }
  }

  lemma {:induction false} DecimalTextParts(n: int, k: nat)
    ensures DecimalText(n, k) == (if n < 0 then "-" + NatText(-n) else NatText(n)) + ("e" + ("-" + NatText(k)))
  {
    hide NatText;
  }

  lemma {:induction false} MinusJoined(whole: string, exponent: string)
    ensures ("-" + whole) + exponent == "-" + (whole + exponent)
  {
  }

  lemma {:induction false} DecimalTextSays(n: int, k: nat)
    ensures NumberText(DecimalText(n, k)) && NumberValue(DecimalText(n, k)) == Scaled(n as real, 0 - k)
  {
    hide *;
    var m := if n < 0 then -n else n;
    var whole, x := NatText(m), NatText(k);
    NatDigits(m);
    NatDigits(k);
    DecimalTextForm(n, k);
    NumberForms(whole, x, "e" + ("-" + x));
    ExponentForms('e', x, 0.0, 0);
    assert ['e'] + ("-" + x) == "e" + ("-" + x);
    NegativeScaled(m as real, 0 - k);
  }

  lemma {:induction false} NegativeScaled(x: real, e: int)
    ensures Scaled(-x, e) == -Scaled(x, e)
  {
    hide PowerOfTen;
  }

  /** What a number of a text can be: exactly the finite decimals. */
  lemma {:induction false} DecimalsExactly(r: real)
    ensures (exists s :: NumberText(s) && NumberValue(s) == r) <==> Decimal(r)
  {
    hide NumberText, NumberValue, Scaled;
    if s :| NumberText(s) && NumberValue(s) == r {
      OnlyDecimals(s);
    }
    if Decimal(r) {
      var n: int, k: nat :| TenthsOf(r, n, k);
      DecimalTextSays(n, k);
    }
  }
}
