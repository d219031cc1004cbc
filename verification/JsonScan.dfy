/** One token at a time: what is spelled as the grammar has it is lexed back. */
module JsonScan {
  import opened JsonValues
  import opened JsonParser
  import opened Regex
  import opened JsonLexemes
  import opened JsonLexer

  // ---- rules are told apart by their first character ----

  predicate Starts(i: nat, c: char) {
    match i
    case 0 => IsSpace(c)
    case 1 => c == '-' || '0' <= c <= '9'
    case 2 => c == '"'
    case 3 => c == '{'
    case 4 => c == '}'
    case 5 => c == '['
    case 6 => c == ']'
    case 7 => c == ','
    case 8 => c == ':'
    case 9 => c == 't'
    case 10 => c == 'f'
    case 11 => c == 'n'
    case _ => false
  }

  lemma {:induction false} CharsFail(k: CharSet, r: Regex, s: string, i: nat)
    requires i < |s| && !In(k, s[i])
    ensures Fails(Chars(k), s, i) && Fails(Seq(Chars(k), r), s, i)
  {
    CharsUnfold(k, s, i);
    hide Matches;
    SeqFails(Chars(k), r, s, i);
  }

  lemma {:induction false} LiteralFails(word: string, r: Regex, s: string)
    requires word != [] && s != [] && s[0] != word[0]
    ensures Fails(Literal(word), s, 0) && Fails(Seq(Literal(word), r), s, 0)
  {
    hide Matches;
    CharsFail(One(word[0]), if |word| > 1 then Literal(word[1..]) else End, s, 0);
    SeqFails(Literal(word), r, s, 0);
  }

  lemma {:induction false} RuleFails(i: nat, s: string)
    requires i < 13 && s != [] && !Starts(i, s[0])
    ensures Fails(Rule(i), s, 0)
  {
    if i == 12 {
      assert Matches(End, s, 0) == [];
    }
    hide Matches, Literal;
    if i == 0 {
      CharsFail(Space, Star(Chars(Space)), s, 0);
    } else if i == 1 {
      NumberFails(s);
    } else if i == 2 {
      CharsFail(One('"'), Seq(Star(StringItem()), Chars(One('"'))), s, 0);
    } else if i < 12 {
      LiteralRuleFails(i, s);
    }
  }

  lemma {:induction false} LiteralRuleFails(i: nat, s: string)
    requires 3 <= i < 12 && s != [] && !Starts(i, s[0])
    ensures Fails(Rule(i), s, 0)
  {
    hide Matches, Literal;
    var words := ["{", "}", "[", "]", ",", ":", "true", "false", "null"];
    LiteralFails(words[i - 3], Boundary, s);
  }

  lemma {:induction false} NumberFails(s: string)
    requires s != [] && !Starts(1, s[0])
    ensures Fails(Rule(1), s, 0)
  {
    var rest := Alt(Chars(Decimal), Seq(Chars(NonZero), Plus(Decimal)));
    CharsFail(Decimal, End, s, 0);
    CharsFail(NonZero, Plus(Decimal), s, 0);
    AltUnfold(Chars(Decimal), Seq(Chars(NonZero), Plus(Decimal)), s, 0);
    assert Matches(Opt(Chars(One('-'))), s, 0) == [0];
    assert Matches(IntegerPart(), s, 0) == FromEach(rest, s, [0], 0) == [];
    SeqFails(IntegerPart(), NumberTail(), s, 0);
  }

  /** The first rule that can match does, when it does. */
  lemma {:induction false} FirstRuleIs(s: string, i: nat, k: nat, n: nat)
    requires i <= k < 12 && s != [] && n <= |s|
    requires forall j :: i <= j < k ==> !Starts(j, s[0])
    requires MatchesUpTo(Rule(k), s, 0, n)
    ensures FirstRule(s, i) == Found(k, n)
    decreases k - i
  {
    hide Rule, Matches;
    if i < k {
      RuleFails(i, s);
      FirstRuleIs(s, i + 1, k, n);
    }
  }

  lemma {:induction false} LiteralFirst(word: string, s: string, i: nat)
    requires word != [] && i + |word| <= |s| && s[i..i + |word|] == word
    ensures MatchesUpTo(Literal(word), s, i, i + |word|)
  {
    assert s[i] == word[0];
    assert MatchesUpTo(Chars(One(word[0])), s, i, i + 1);
    if |word| > 1 {
      assert s[i + 1..i + |word|] == word[1..];
      LiteralFirst(word[1..], s, i + 1);
      hide Matches;
      SeqFirst(Chars(One(word[0])), Literal(word[1..]), s, i, i + 1, i + |word|);
    }
  }

  /** What may stand behind a word. */
  predicate WordEnds(tail: string) {
    tail == [] ||
    !('0' <= tail[0] <= '9' || 'a' <= tail[0] <= 'z' || 'A' <= tail[0] <= 'Z' || tail[0] == '_' || tail[0] == '.')
  }

  lemma {:induction false} KeywordFirst(word: string, tail: string)
    requires word != [] && IsWord(word[|word| - 1]) && WordEnds(tail)
    ensures MatchesUpTo(Seq(Literal(word), Boundary), word + tail, 0, |word|)
  {
    var s := word + tail;
    assert s[0..|word|] == word;
    LiteralFirst(word, s, 0);
    assert MatchesUpTo(Boundary, s, |word|, |word|);
    hide Matches;
    SeqFirst(Literal(word), Boundary, s, 0, |word|, |word|);
  }

  lemma {:induction false} StringFirst(text: string, tail: string)
    requires StringText(text)
    ensures MatchesUpTo(Rule(2), "\"" + text + "\"" + tail, 0, |text| + 2)
  {
    var s := "\"" + text + "\"" + tail;
    var n := |text| + 1;
    assert s[1..n] == text && s[n] == '"';
    var quote := Chars(One('"'));
    assert MatchesUpTo(quote, s, 0, 1) && MatchesUpTo(quote, s, n, n + 1);
    hide Matches;
    ItemsFirst(s, 1, n);
    SeqFirst(Star(StringItem()), quote, s, 1, n, n + 1);
    SeqFirst(quote, Seq(Star(StringItem()), quote), s, 0, 1, n + 1);
  }

  /** The items of a string are taken one after the other, up to the quote. */
  lemma {:induction false} ItemsFirst(s: string, i: nat, n: nat)
    requires i <= n < |s| && StringText(s[i..n]) && s[n] == '"'
    ensures MatchesUpTo(Star(StringItem()), s, i, n)
    decreases n - i
  {
    hide Matches, StringItem;
    StarUnfold(StringItem(), s, i);
    if i == n {
      ItemQuote(s, n);
      assert Beyond([], i, |s|) == [];
    } else {
      var k := i + ItemLength(s[i..n]);
      ItemAt(s, i, n);
      assert s[i..n][k - i..] == s[k..n];
      hide ItemLength;
      ItemsFirst(s, k, n);
      BeyondOne(i, k, |s|);
      hide *;
      FromEachFirst(Star(StringItem()), s, [k], i + 1, n);
    }
  }

  lemma {:induction false} BeyondOne(i: nat, k: nat, n: nat)
    requires i < k <= n
    ensures Beyond([k], i, n) == [k]
  {
    assert [k][1..] == [];
  }

  /** An item is matched as a whole, and in one way only. */
  lemma {:induction false} ItemAt(s: string, i: nat, n: nat)
    requires i < n <= |s| && ItemLength(s[i..n]) > 0
    ensures Matches(StringItem(), s, i) == [i + ItemLength(s[i..n])]
  {
    var t := s[i..n];
    assert forall j :: 0 <= j < |t| ==> t[j] == s[i + j];
    hide Matches, StringItem;
    if ItemLength(t) == 1 {
      ItemPlain(s, i);
    } else if ItemLength(t) == 2 {
      ItemEscape(s, i);
    } else {
      ItemUnicode(s, i);
    }
  }

  lemma {:induction false} ItemPlain(s: string, j: nat)
    requires j < |s| && s[j] >= ' ' && s[j] != '"' && s[j] != '\\'
    ensures Matches(StringItem(), s, j) == [j + 1]
  {
    ItemUnfold(s, j);
    CharsUnfold(Plain, s, j);
  }

  lemma {:induction false} ItemQuote(s: string, j: nat)
    requires j < |s| && s[j] == '"'
    ensures Matches(StringItem(), s, j) == []
  {
    ItemUnfold(s, j);
    CharsUnfold(Plain, s, j);
  }

  function UnicodePart(): Regex {
    Seq(Chars(One('u')), Seq(Chars(Hex), Seq(Chars(Hex), Seq(Chars(Hex), Chars(Hex)))))
  }

  /** The three alternatives, one after the other. */
  lemma {:induction false} ItemCases(s: string, j: nat)
    requires j <= |s|
    ensures Matches(StringItem(), s, j) ==
            Matches(Seq(Chars(One('\\')), Chars(EscapeLetter)), s, j)
            + (Matches(Seq(Chars(One('\\')), UnicodePart()), s, j) + Matches(Chars(Plain), s, j))
  {
    hide Matches;
    var backslash := Chars(One('\\'));
    AltUnfold(Seq(backslash, UnicodePart()), Chars(Plain), s, j);
    AltUnfold(Seq(backslash, Chars(EscapeLetter)), Alt(Seq(backslash, UnicodePart()), Chars(Plain)), s, j);
  }

  /** A character of a set, and then something else. */
  lemma {:induction false} CharThen(k: CharSet, r: Regex, s: string, j: nat)
    requires j < |s| && In(k, s[j])
    ensures Matches(Seq(Chars(k), r), s, j) == Matches(r, s, j + 1)
  {
    CharsUnfold(k, s, j);
    SeqUnfold(Chars(k), r, s, j);
    hide Matches;
    FromOne(r, s, j + 1, j);
  }

  lemma {:induction false} ItemEscape(s: string, j: nat)
    requires j + 1 < |s| && s[j] == '\\' && EscapeChar(s[j + 1])
    ensures Matches(StringItem(), s, j) == [j + 2]
  {
    EscapeLetters(s[j + 1]);
    Letters();
    CharsUnfold(EscapeLetter, s, j + 1);
    CharsUnfold(Plain, s, j);
    assert In(One('\\'), s[j]) && !In(One('u'), s[j + 1]);
    hide Matches, StringItem, In, EscapeChar;
    ItemCases(s, j);
    CharThen(One('\\'), Chars(EscapeLetter), s, j);
    CharThen(One('\\'), UnicodePart(), s, j);
    CharsFail(One('u'), Seq(Chars(Hex), Seq(Chars(Hex), Seq(Chars(Hex), Chars(Hex)))), s, j + 1);
  }

  lemma {:induction false} EscapeLetters(c: char)
    ensures EscapeChar(c) <==> In(EscapeLetter, c)
    ensures EscapeChar(c) ==> c != 'u'
  {
  }

  lemma {:induction false} HexIsHex(c: char)
    ensures HexDigit(c) <==> In(Hex, c)
  {
  }

  lemma {:induction false} UnicodeFirst(s: string, j: nat)
    requires j + 4 < |s| && In(One('u'), s[j])
    requires In(Hex, s[j + 1]) && In(Hex, s[j + 2]) && In(Hex, s[j + 3]) && In(Hex, s[j + 4])
    ensures Matches(UnicodePart(), s, j) == [j + 5]
  {
    CharsUnfold(Hex, s, j + 4);
    hide Matches, In;
    CharThen(One('u'), Seq(Chars(Hex), Seq(Chars(Hex), Seq(Chars(Hex), Chars(Hex)))), s, j);
    CharThen(Hex, Seq(Chars(Hex), Seq(Chars(Hex), Chars(Hex))), s, j + 1);
    CharThen(Hex, Seq(Chars(Hex), Chars(Hex)), s, j + 2);
    CharThen(Hex, Chars(Hex), s, j + 3);
  }

  lemma {:induction false} ItemUnicode(s: string, j: nat)
    requires j + 5 < |s| && s[j] == '\\' && s[j + 1] == 'u'
    requires HexDigit(s[j + 2]) && HexDigit(s[j + 3]) && HexDigit(s[j + 4]) && HexDigit(s[j + 5])
    ensures Matches(StringItem(), s, j) == [j + 6]
  {
    Letters();
    CharsUnfold(EscapeLetter, s, j + 1);
    CharsUnfold(Plain, s, j);
    HexIsHex(s[j + 2]);
    HexIsHex(s[j + 3]);
    HexIsHex(s[j + 4]);
    HexIsHex(s[j + 5]);
    assert In(One('\\'), s[j]) && In(One('u'), s[j + 1]);
    hide Matches, StringItem, HexDigit, In;
    ItemCases(s, j);
    CharThen(One('\\'), Chars(EscapeLetter), s, j);
    CharThen(One('\\'), UnicodePart(), s, j);
    hide UnicodePart;
    UnicodeFirst(s, j + 1);
  }

  lemma {:induction false} Letters()
    ensures !In(EscapeLetter, 'u') && !In(Plain, '\\')
  {
  }

  /** Without a backslash only the last alternative is left. */
  lemma {:induction false} ItemUnfold(s: string, j: nat)
    requires j < |s| && s[j] != '\\'
    ensures Matches(StringItem(), s, j) == Matches(Chars(Plain), s, j)
  {
    hide Matches;
    ItemCases(s, j);
    CharsFail(One('\\'), Chars(EscapeLetter), s, j);
    CharsFail(One('\\'), UnicodePart(), s, j);
  }

  // ---- numbers ----

  ghost predicate DigitsIn(s: string, i: nat, j: nat)
    requires i <= j <= |s|
  {
    forall k :: i <= k < j ==> Digit(s[k])
  }

  /** A number in place: the digits of the whole part from one position to another, a fraction up to f or
      none, an exponent with its digits from d up to e or none, and behind it no character that goes on. */
  ghost predicate NumberAt(s: string, from: nat, to: nat, f: nat, d: nat, e: nat) {
    && from < to <= f <= e <= |s| && DigitsIn(s, from, to) && (to - from >= 2 ==> s[from] != '0')
    && (f > to ==> s[to] == '.' && to + 1 < f && DigitsIn(s, to + 1, f))
    && (e > f ==>
          && (s[f] == 'e' || s[f] == 'E') && f < d < e && DigitsIn(s, d, e)
          && (d == f + 1 || (d == f + 2 && (s[f + 1] == '+' || s[f + 1] == '-'))))
    && (e < |s| ==> !IsWord(s[e]) && s[e] != '.')
  }

  /** Digits are taken up to the first character that is none. */
  lemma {:induction false} PlusFirst(s: string, i: nat, n: nat)
    requires i < n <= |s| && DigitsIn(s, i, n) && (n < |s| ==> !Digit(s[n]))
    ensures MatchesUpTo(Plus(Decimal), s, i, n)
  {
    forall j | i <= j < n
      ensures Matches(Chars(Decimal), s, j) == [j + 1]
    {
      CharsUnfold(Decimal, s, j);
    }
    CharsUnfold(Decimal, s, n);
    hide Matches;
    StarFirst(Chars(Decimal), s, i + 1, n);
    SeqFirst(Chars(Decimal), Star(Chars(Decimal)), s, i, i + 1, n);
  }

  lemma {:induction false} CharFirst(k: CharSet, r: Regex, s: string, i: nat, n: nat)
    requires i < |s| && In(k, s[i]) && MatchesUpTo(r, s, i + 1, n)
    ensures MatchesUpTo(Seq(Chars(k), r), s, i, n)
  {
    hide Matches;
    CharThen(k, r, s, i);
  }

  /** An optional part is taken where it can be, and skipped where it cannot. */
  lemma {:induction false} OptFirst(a: Regex, s: string, i: nat, n: nat)
    requires i <= |s| && if n == i then Fails(a, s, i) else MatchesUpTo(a, s, i, n)
    ensures MatchesUpTo(Opt(a), s, i, n)
  {
    OptUnfold(a, s, i);
    hide Matches;
  }

  lemma {:induction false} SetFails(k: CharSet, r: Regex, s: string, i: nat)
    requires i <= |s| && (i < |s| ==> !In(k, s[i]))
    ensures Fails(Seq(Chars(k), r), s, i)
  {
    CharsUnfold(k, s, i);
    hide Matches;
    SeqFails(Chars(k), r, s, i);
  }

  lemma {:induction false} FractionFirst(s: string, from: nat, to: nat, f: nat, d: nat, e: nat)
    requires NumberAt(s, from, to, f, d, e)
    ensures MatchesUpTo(Opt(Fraction()), s, to, f)
  {
    hide Matches, IsWord;
    if to == f {
      SetFails(One('.'), Plus(Decimal), s, to);
    } else {
      NoDigitBehind(s, from, to, f, d, e);
      PlusFirst(s, to + 1, f);
      CharFirst(One('.'), Plus(Decimal), s, to, f);
    }
    OptFirst(Fraction(), s, to, f);
  }

  /** None of the runs of digits goes on. */
  lemma {:induction false} NoDigitBehind(s: string, from: nat, to: nat, f: nat, d: nat, e: nat)
    requires NumberAt(s, from, to, f, d, e)
    ensures to < |s| ==> !Digit(s[to])
    ensures f < |s| ==> !Digit(s[f])
    ensures e < |s| ==> !Digit(s[e])
  {
  }

  lemma {:induction false} ExponentFirst(s: string, from: nat, to: nat, f: nat, d: nat, e: nat)
    requires NumberAt(s, from, to, f, d, e)
    ensures MatchesUpTo(Opt(Exponent()), s, f, e)
  {
    hide Matches;
    var digits := Seq(Opt(Chars(Sign)), Plus(Decimal));
    if f == e {
      SetFails(ExponentMark, digits, s, f);
    } else {
      NoDigitBehind(s, from, to, f, d, e);
      PlusFirst(s, d, e);
      CharsUnfold(Sign, s, f + 1);
      OptFirst(Chars(Sign), s, f + 1, d);
      SeqFirst(Opt(Chars(Sign)), Plus(Decimal), s, f + 1, d, e);
      CharFirst(ExponentMark, digits, s, f, e);
    }
    OptFirst(Exponent(), s, f, e);
  }

  /** Fraction and exponent are taken, and behind them a word ends. */
  lemma {:induction false} TailFirst(s: string, from: nat, to: nat, f: nat, d: nat, e: nat)
    requires NumberAt(s, from, to, f, d, e)
    ensures MatchesUpTo(NumberTail(), s, to, e)
  {
    assert Digit(s[e - 1]) by {
      hide IsWord;
      assert e > f ==> d <= e - 1;
    }
    assert MatchesUpTo(Boundary, s, e, e);
    hide Matches;
    FractionFirst(s, from, to, f, d, e);
    ExponentFirst(s, from, to, f, d, e);
    SeqFirst(Opt(Exponent()), Boundary, s, f, e, e);
    SeqFirst(Opt(Fraction()), Seq(Opt(Exponent()), Boundary), s, to, f, e);
  }

  /** In the middle of the digits there is no fraction, no exponent and no boundary. */
  lemma {:induction false} TailFails(s: string, j: nat)
    requires 0 < j < |s| && Digit(s[j - 1]) && Digit(s[j])
    ensures Fails(NumberTail(), s, j)
  {
    assert Matches(Boundary, s, j) == [];
    hide Matches;
    SetFails(One('.'), Plus(Decimal), s, j);
    SetFails(ExponentMark, Seq(Opt(Chars(Sign)), Plus(Decimal)), s, j);
    OptSkips(Exponent(), Boundary, s, j);
    OptSkips(Fraction(), Seq(Opt(Exponent()), Boundary), s, j);
  }

  function Body(): Regex {
    Alt(Chars(Decimal), LongBody())
  }

  function LongBody(): Regex {
    Seq(Chars(NonZero), Plus(Decimal))
  }

  lemma {:induction false} BodyList(s: string, from: nat)
    requires from < |s| && Digit(s[from])
    ensures Matches(Body(), s, from) == [from + 1] + Matches(LongBody(), s, from)
  {
    CharsUnfold(Decimal, s, from);
    AltUnfold(Chars(Decimal), LongBody(), s, from);
    hide Matches, LongBody;
  }

  /** Two or more digits are taken whole by the second alternative. */
  lemma {:induction false} LongBodyFirst(s: string, from: nat, to: nat)
    requires from + 2 <= to <= |s| && DigitsIn(s, from, to) && s[from] != '0' && (to < |s| ==> !Digit(s[to]))
    ensures MatchesUpTo(LongBody(), s, from, to)
  {
    hide Matches;
    PlusFirst(s, from + 1, to);
    CharFirst(NonZero, Plus(Decimal), s, from, to);
  }

  /** Body and tail together take the whole number, though a shorter body is tried first. */
  lemma {:induction false} BodyThenTail(s: string, from: nat, to: nat, f: nat, d: nat, e: nat)
    requires NumberAt(s, from, to, f, d, e)
    ensures var m := FromEach(NumberTail(), s, Matches(Body(), s, from), from);
        m != [] && m[0] == e
  {
    assert Digit(s[from]) && DigitsIn(s, from, to);
    NoDigitBehind(s, from, to, f, d, e);
    hide Matches, Body, LongBody, NumberTail, FromEach, IsWord;
    BodyList(s, from);
    TailFirst(s, from, to, f, d, e);
    var long := Matches(LongBody(), s, from);
    if to - from >= 2 {
      TailFails(s, from + 1);
      LongBodyFirst(s, from, to);
      hide NumberAt;
      FromEachSecond(NumberTail(), s, from + 1, long, from, e);
    } else {
      hide NumberAt;
      FromEachFirst(NumberTail(), s, [from + 1] + long, from, e);
    }
  }

  lemma {:induction false} NumberFirst(s: string, from: nat, to: nat, f: nat, d: nat, e: nat)
    requires NumberAt(s, from, to, f, d, e) && from <= 1 && (from == 1 ==> s[0] == '-')
    ensures MatchesUpTo(Seq(IntegerPart(), NumberTail()), s, 0, e)
  {
    var sign := Opt(Chars(One('-')));
    OptUnfold(Chars(One('-')), s, 0);
    CharsUnfold(One('-'), s, 0);
    assert Digit(s[from]);
    assert IntegerPart() == Seq(sign, Body());
    SeqUnfold(sign, Body(), s, 0);
    SeqUnfold(IntegerPart(), NumberTail(), s, 0);
    hide Matches, Body, NumberTail, IntegerPart, NumberAt;
    var starts := Matches(sign, s, 0);
    assert starts == [from] + starts[1..];
    FromEachConcat(Body(), s, [from], starts[1..], 0);
    FromOne(Body(), s, from, 0);
    var m := Matches(Body(), s, from);
    var rest := FromEach(Body(), s, starts[1..], 0);
    FromEachConcat(NumberTail(), s, m, rest, 0);
    BodyThenTail(s, from, to, f, d, e);
    LowerStart(NumberTail(), s, m, from);
  }

  lemma {:induction false} Behind(text: string, tail: string)
    requires WordEnds(tail)
    ensures |text| < |text + tail| ==> !IsWord((text + tail)[|text|]) && (text + tail)[|text|] != '.'
  {
  }

  /** The parts of a number in place. */
  lemma {:induction false} PartsAt(
      sign: string, whole: string, fraction: string, exponent: string, tail: string) returns (d: nat)
    requires NumberParts(sign + whole + fraction + exponent, sign, whole, fraction, exponent) && WordEnds(tail)
    ensures var from, to, f := |sign|, |sign + whole|, |sign + whole + fraction|;
            var e := |sign + whole + fraction + exponent|;
            NumberAt(sign + whole + fraction + exponent + tail, from, to, f, d, e)
  {
    var text := sign + whole + fraction + exponent;
    var s, to, f := text + tail, |sign + whole|, |sign + whole + fraction|;
    d := if |exponent| >= 2 && (exponent[1] == '+' || exponent[1] == '-') then f + 2 else f + 1;
    hide IsWord, WordEnds;
    Behind(text, tail);
    assert forall j :: |sign| <= j < to ==> s[j] == whole[j - |sign|];
    assert forall j :: to <= j < f ==> s[j] == fraction[j - to];
    assert forall j :: f <= j < |text| ==> s[j] == exponent[j - f];
    assert forall j :: 0 <= j < |fraction| - 1 ==> fraction[1..][j] == fraction[j + 1];
    assert forall j :: 0 <= j < |exponent| - 1 ==> exponent[1..][j] == exponent[j + 1];
    assert |exponent| >= 2 ==> forall j :: 0 <= j < |exponent| - 2 ==> exponent[2..][j] == exponent[j + 2];
  }

  lemma {:induction false} NumberTextFirst(text: string, tail: string)
    requires NumberText(text) && WordEnds(tail)
    ensures MatchesUpTo(Rule(1), text + tail, 0, |text|)
  {
    assert Rule(1) == Seq(IntegerPart(), NumberTail()) by {
      hide IntegerPart, NumberTail;
    }
    var sign, whole, fraction, exponent :| NumberParts(text, sign, whole, fraction, exponent);
    hide Matches, IntegerPart, NumberTail, Rule, WholePart, FractionPart, ExponentPart;
    var d := PartsAt(sign, whole, fraction, exponent, tail);
    assert sign == "-" ==> (text + tail)[0] == '-';
    NumberFirst(text + tail, |sign|, |sign + whole|, |sign + whole + fraction|, d, |text|);
  }

  /** The lower bound on the starts is for termination only. */
  lemma {:induction false} LowerStart(r: Regex, s: string, starts: seq<nat>, low: nat)
    requires low <= |s| && forall k :: 0 <= k < |starts| ==> low <= starts[k] <= |s|
    ensures FromEach(r, s, starts, 0) == FromEach(r, s, starts, low)
    decreases |starts|
  {
    hide Matches;
    if starts != [] {
      LowerStart(r, s, starts[1..], low);
    }
  }

  // ---- one token ----

  lemma {:induction false} BlankIsSpace(c: char)
    ensures Blank(c) <==> IsSpace(c)
  {
  }

  lemma {:induction false} SpaceFirst(w: string, tail: string)
    requires w != [] && Gap(w) && (tail != [] ==> !Blank(tail[0]))
    ensures MatchesUpTo(Rule(0), w + tail, 0, |w|)
  {
    var s, n := w + tail, |w|;
    forall j | 0 <= j < n
      ensures Matches(Chars(Space), s, j) == [j + 1]
    {
      assert Blank(w[j]);
      BlankIsSpace(s[j]);
      CharsUnfold(Space, s, j);
      hide IsSpace, Blank, Matches;
    }
    if tail != [] {
      BlankIsSpace(tail[0]);
    }
    CharsUnfold(Space, s, n);
    hide Matches, IsSpace, Blank;
    StarFirst(Chars(Space), s, 1, n);
    SeqFirst(Chars(Space), Star(Chars(Space)), s, 0, 1, n);
  }

  /** White space is skipped. */
  lemma {:induction false} LexSpaces(w: string, tail: string)
    requires Gap(w) && (tail != [] ==> !Blank(tail[0]))
    ensures NextToken(w + tail) == NextToken(tail)
  {
    if w == [] {
      assert w + tail == tail;
    } else {
      SpaceFirst(w, tail);
      assert (w + tail)[|w|..] == tail;
      hide Matches, Rule, FirstRule, Blank, Gap;
      FirstRuleIs(w + tail, 0, 0, |w|);
    }
  }

  /** The rule for a token, and the first match it has on the token's spelling. */
  function RuleFor(t: Token): nat {
    match t
    case StringToken(_) => 2
    case NumberToken(_) => 1
    case InvalidToken(_) => 13
    case Fixed(x) =>
      if x == LBRACE then 3
      else if x == RBRACE then 4
      else if x == LBRACKET then 5
      else if x == RBRACKET then 6
      else if x == COMMA then 7
      else if x == COLON then 8
      else if x == TRUE then 9
      else if x == FALSE then 10
      else if x == NULL then 11
      else 12
  }

  lemma {:induction false} FixedFirst(t: Token, tail: string)
    requires t.Fixed? && Lexical(t) && (Wordy(t) ==> WordEnds(tail))
    ensures RuleFor(t) < 12 && MatchesUpTo(Rule(RuleFor(t)), Spelling(t) + tail, 0, |Spelling(t)|)
  {
    var word := Spelling(t);
    hide Matches, Literal;
    if Wordy(t) {
      KeywordFirst(word, tail);
    } else {
      assert (word + tail)[0..|word|] == word;
      LiteralFirst(word, word + tail, 0);
    }
  }

  lemma {:induction false} TokenFirst(t: Token, tail: string)
    requires Lexical(t) && (Wordy(t) ==> WordEnds(tail))
    ensures RuleFor(t) < 12 && MatchesUpTo(Rule(RuleFor(t)), Spelling(t) + tail, 0, |Spelling(t)|)
  {
    hide Matches, Rule;
    match t
    case StringToken(s) => StringFirst(s, tail);
    case NumberToken(s) =>
      NumberTextFirst(s, tail);
    case Fixed(_) => FixedFirst(t, tail);
  }

  /** No earlier rule can match. */
  lemma {:induction false} SpellingStarts(t: Token)
    requires Lexical(t)
    ensures Spelling(t) != []
    ensures forall j :: 0 <= j < RuleFor(t) ==> !Starts(j, Spelling(t)[0])
    ensures !Blank(Spelling(t)[0]) && (!StartsWord(t) ==> WordEnds(Spelling(t)))
  {
    match t
    case NumberToken(s) =>
      NumberStarts(s);
      BlanksAre(s[0]);
      hide Blank, NumberText;
    case StringToken(s) =>
      BlanksAre('"');
      hide Blank, StringText;
    case Fixed(_) =>
      BlanksAre(Spelling(t)[0]);
      hide Blank;
    case InvalidToken(_) =>
  }

  /** No white space is a printing ASCII character. */
  lemma {:induction false} BlanksAre(c: char)
    requires '!' <= c <= '~'
    ensures !Blank(c) && !IsSpace(c)
  {
    hide Blank;
    BlankIsSpace(c);
  }

  lemma {:induction false} NumberStarts(s: string)
    requires NumberText(s)
    ensures s != [] && (s[0] == '-' || Digit(s[0]))
  {
    var sign, whole, fraction, exponent :| NumberParts(s, sign, whole, fraction, exponent);
    assert s[0] == if sign == "" then whole[0] else '-';
  }

  lemma {:induction false} ActionOf(t: Token)
    requires Lexical(t)
    ensures RuleFor(t) < RULES && LexAction(RuleFor(t), Spelling(t)) == Lexed(t)
  {
    match t
    case StringToken(s) => assert Spelling(t)[1..|Spelling(t)| - 1] == s;
    case _ =>
  }

  /** The spelling of a token is lexed as that token, and nothing behind it is touched. */
  lemma {:induction false} LexSpelling(t: Token, tail: string)
    requires Lexical(t) && (Wordy(t) ==> WordEnds(tail))
    ensures NextToken(Spelling(t) + tail) == (t, tail)
  {
    TokenFirst(t, tail);
    SpellingStarts(t);
    ActionOf(t);
    var s := Spelling(t) + tail;
    FirstRuleIs(s, 0, RuleFor(t), |Spelling(t)|);
    assert s[..|Spelling(t)|] == Spelling(t) && s[|Spelling(t)|..] == tail;
    hide Matches, Rule, FirstRule, Spelling, LexAction, RuleFor;
  }

  lemma {:induction false} LexOne(t: Token, w: string, rest: string)
    requires Gap(w) && Lexical(t) && (Wordy(t) ==> WordEnds(rest))
    ensures t != Fixed(EOF) && NextToken(w + (Spelling(t) + rest)) == (t, rest)
  {
    SpellingStarts(t);
    LexSpelling(t, rest);
    hide Spelling, NextToken;
    LexSpaces(w, Spelling(t) + rest);
  }
}
