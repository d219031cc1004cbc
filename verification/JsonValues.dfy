/** The values the JSON parser builds, and the meaning of string and number lexemes. */
module JsonValues {

  /** A JavaScript value as JSON knows it. Numbers are exact decimals. */
  datatype Json =
    | JNull
    | JBool(b: bool)
    | JNumber(n: real)
    | JString(s: string)
    | JArray(items: seq<Json>)
    | JObject(members: map<string, Json>)

  // ---- strings: the chain of replacements applied to a lexeme without its quotes ----

  /** A backslash before a backslash or a quote is dropped. */
  function DropBackslash(s: string): string {
    if |s| >= 2 && s[0] == '\\' && (s[1] == '\\' || s[1] == '"') then [s[1]] + DropBackslash(s[2..])
    else if s == [] then []
    else [s[0]] + DropBackslash(s[1..])
  }

  /** A backslash and a letter become one character. */
  function Replace(s: string, letter: char, into: char): string {
    if |s| >= 2 && s[0] == '\\' && s[1] == letter then [into] + Replace(s[2..], letter, into)
    else if s == [] then []
    else [s[0]] + Replace(s[1..], letter, into)
  }

  function Unescape(s: string): string {
    var s := DropBackslash(s);
    var s := Replace(s, 'n', '\n');
    var s := Replace(s, 'r', '\r');
    var s := Replace(s, 't', '\t');
    var s := Replace(s, 'v', '\U{0B}');
    var s := Replace(s, 'f', '\U{0C}');
    Replace(s, 'b', '\U{08}')
  }

  /** Without a backslash nothing is replaced. */
  lemma {:induction false} UnescapePlain(s: string)
    requires '\\' !in s
    ensures Unescape(s) == s
  {
    DropPlain(s);
    ReplacePlain(s, 'n', '\n');
    ReplacePlain(s, 'r', '\r');
    ReplacePlain(s, 't', '\t');
    ReplacePlain(s, 'v', '\U{0B}');
    ReplacePlain(s, 'f', '\U{0C}');
    ReplacePlain(s, 'b', '\U{08}');
  }

  lemma {:induction false} DropPlain(s: string)
    requires '\\' !in s
    ensures DropBackslash(s) == s
  {
    if s != [] {
      DropPlain(s[1..]);
    }
  }

  lemma {:induction false} ReplacePlain(s: string, letter: char, into: char)
    requires '\\' !in s
    ensures Replace(s, letter, into) == s
  {
    if s != [] {
      ReplacePlain(s[1..], letter, into);
    }
  }

  // ---- numbers: the decimal a lexeme stands for ----

  predicate Digit(c: char) {
    '0' <= c <= '9'
  }

  function DigitValue(c: char): nat {
    if Digit(c) then c as nat - '0' as nat else 0
  }

  function DigitsValue(s: string): nat {
    if s == [] then 0 else 10 * DigitsValue(s[..|s| - 1]) + DigitValue(s[|s| - 1])
  }

  /** The number of digits s starts with. */
  function DigitRun(s: string): (n: nat)
    ensures n <= |s| && forall i :: 0 <= i < n ==> Digit(s[i])
    ensures n < |s| ==> !Digit(s[n])
  {
    if s == [] || !Digit(s[0]) then 0 else 1 + DigitRun(s[1..])
  }

  function PowerOfTen(e: int): real
    decreases if e < 0 then -e else e
  {
    if e == 0 then 1.0 else if e > 0 then 10.0 * PowerOfTen(e - 1) else PowerOfTen(e + 1) / 10.0
  }

  function Scaled(x: real, e: int): real {
    x * PowerOfTen(e)
  }

  function ExponentValue(s: string): int {
    if |s| < 2 || !(s[0] == 'e' || s[0] == 'E') then 0
    else if s[1] == '-' then 0 - DigitsValue(s[2..])
    else if s[1] == '+' then DigitsValue(s[2..])
    else DigitsValue(s[1..])
  }

  /** Number(yytext), for the lexemes the lexer lets through. */
  function NumberValue(s: string): real {
    if s != [] && s[0] == '-' then -Unsigned(s[1..]) else Unsigned(s)
  }

  function Unsigned(s: string): real {
    var n := DigitRun(s);
    var tail := s[n..];
    if tail != [] && tail[0] == '.' then
      var m := DigitRun(tail[1..]);
      Scaled(DigitsValue(s[..n]) as real + Scaled(DigitsValue(tail[1..1 + m]) as real, 0 - m),
        ExponentValue(tail[1 + m..]))
    else Scaled(DigitsValue(s[..n]) as real, ExponentValue(tail))
  }

  // ---- the decimal text of an integer ----

  function DigitChar(d: nat): char
    requires d < 10
  {
    '0' + d as char
  }

  function NatText(n: nat): (s: string)
    ensures s != [] && forall i :: 0 <= i < |s| ==> Digit(s[i])
  {
    if n < 10 then [DigitChar(n)] else NatText(n / 10) + [DigitChar(n % 10)]
  }

  function IntText(n: int): string {
    if n < 0 then "-" + NatText(-n) else NatText(n)
  }

  lemma {:induction false} NatTextValue(n: nat)
    ensures DigitsValue(NatText(n)) == n
    ensures n >= 10 ==> NatText(n)[0] != '0' && |NatText(n)| >= 2
    ensures 0 < n < 10 ==> NatText(n)[0] != '0'
  {
    if n >= 10 {
      NatTextValue(n / 10);
      assert NatText(n)[..|NatText(n)| - 1] == NatText(n / 10);
    } else {
      assert NatText(n)[..0] == [];
    }
  }

  lemma {:induction false} DigitRunAll(s: string)
    requires forall i :: 0 <= i < |s| ==> Digit(s[i])
    ensures DigitRun(s) == |s|
  {
    if s != [] {
      DigitRunAll(s[1..]);
    }
  }

  /** Reading the text of an integer gives the integer. */
  lemma {:induction false} IntTextValue(n: int)
    ensures NumberValue(IntText(n)) == n as real
  {
    var s := NatText(if n < 0 then -n else n);
    NatTextValue(if n < 0 then -n else n);
    DigitRunAll(s);
    assert s[..|s|] == s && s[|s|..] == [];
    assert Unsigned(s) == DigitsValue(s) as real;
    if n < 0 {
      assert IntText(n)[1..] == s;
    }
  }

  lemma {:induction false} DigitRunStops(s: string, tail: string)
    requires forall i :: 0 <= i < |s| ==> Digit(s[i])
    requires tail != [] ==> !Digit(tail[0])
    ensures DigitRun(s + tail) == |s|
  {
    if s == [] {
      assert s + tail == tail;
    } else {
      assert (s + tail)[1..] == s[1..] + tail;
      DigitRunStops(s[1..], tail);
    }
  }

  /** The digits behind the point count as a fraction. */
  lemma {:induction false} FractionDigits(a: string, b: string)
    ensures Scaled(DigitsValue(a + b) as real, 0 - |b|) ==
            DigitsValue(a) as real + Scaled(DigitsValue(b) as real, 0 - |b|)
    decreases |b|
  {
    if b == [] {
      assert a + b == a;
      NoDigits(DigitsValue(a) as real, |b|);
    } else {
      var n := |b| - 1;
      var c := b[..n];
      LastDigit(a, b);
      hide *;
      FractionDigits(a, c);
      ShiftFraction(DigitsValue(a + c) as real, DigitsValue(c) as real, DigitsValue(a) as real,
        n, DigitValue(b[n]) as real);
    }
  }

  lemma {:induction false} ShiftFraction(x: real, y: real, z: real, n: nat, d: real)
    requires Scaled(x, 0 - n) == z + Scaled(y, 0 - n)
    ensures Scaled(10.0 * x + d, 0 - n - 1) == z + Scaled(10.0 * y + d, 0 - n - 1)
  {
    TenthPower(n);
    hide PowerOfTen;
    ShiftProduct(x, y, z, PowerOfTen(0 - n), PowerOfTen(0 - n - 1), d);
  }

  lemma {:induction false} ShiftProduct(x: real, y: real, z: real, p: real, q: real, d: real)
    requires x * p == z + y * p && p == 10.0 * q
    ensures (10.0 * x + d) * q == z + (10.0 * y + d) * q
  {
    assert (10.0 * x + d) * q == x * (10.0 * q) + d * q;
    assert (10.0 * y + d) * q == y * (10.0 * q) + d * q;
  }

  lemma {:induction false} LastDigit(a: string, b: string)
    requires b != []
    ensures var c, d := b[..|b| - 1], DigitValue(b[|b| - 1]);
            && DigitsValue(a + b) as real == 10.0 * DigitsValue(a + c) as real + d as real
            && DigitsValue(b) as real == 10.0 * DigitsValue(c) as real + d as real
  {
    assert (a + b)[..|a + b| - 1] == a + b[..|b| - 1];
    hide DigitValue;
  }

  lemma {:induction false} NoDigits(x: real, n: nat)
    requires n == 0
    ensures Scaled(x, 0 - n) == x && Scaled(DigitsValue("") as real, 0 - n) == 0.0
  {
    assert PowerOfTen(0 - n) == 1.0;
  }

  lemma {:induction false} TenthPower(n: nat)
    ensures PowerOfTen(0 - n) == 10.0 * PowerOfTen(0 - n - 1)
  {
  }
}
