/** What the lexer's rules can match: from a match back to the grammar of lexemes. */
module JsonRead {
  import opened JsonValues
  import opened JsonParser
  import opened JsonLexemes
  import opened JsonLexer
  import opened JsonScan
  import opened Regex

  // ---- taking matches apart ----

  lemma {:induction false} FromEachEnds(r: Regex, s: string, starts: seq<nat>, low: nat, n: nat) returns (j: nat)
    requires low <= |s| && forall k :: 0 <= k < |starts| ==> low <= starts[k] <= |s|
    requires n in FromEach(r, s, starts, low)
    ensures low <= j <= |s| && j in starts && n in Matches(r, s, j)
    decreases |starts|
  {
    hide Matches;
    j := starts[0];
    if n !in Matches(r, s, j) {
      j := FromEachEnds(r, s, starts[1..], low, n);
    }
  }

  lemma {:induction false} MatchBounds(r: Regex, s: string, i: nat, n: nat)
    requires i <= |s| && n in Matches(r, s, i)
    ensures i <= n <= |s|
  {
  }

  lemma {:induction false} SeqEnds(a: Regex, b: Regex, s: string, i: nat, n: nat) returns (j: nat)
    requires i <= |s| && n in Matches(Seq(a, b), s, i)
    ensures i <= j <= n <= |s| && j in Matches(a, s, i) && n in Matches(b, s, j)
  {
    SeqUnfold(a, b, s, i);
    hide Matches;
    j := FromEachEnds(b, s, Matches(a, s, i), i, n);
    MatchBounds(b, s, j, n);
  }

  lemma {:induction false} AltEnds(a: Regex, b: Regex, s: string, i: nat, n: nat)
    requires i <= |s| && n in Matches(Alt(a, b), s, i)
    ensures n in Matches(a, s, i) || n in Matches(b, s, i)
  {
    AltUnfold(a, b, s, i);
    hide Matches;
  }

  lemma {:induction false} OptEnds(a: Regex, s: string, i: nat, n: nat)
    requires i <= |s| && n in Matches(Opt(a), s, i)
    ensures n == i || n in Matches(a, s, i)
  {
    OptUnfold(a, s, i);
    hide Matches;
  }

  lemma {:induction false} CharsEnds(k: CharSet, s: string, i: nat, n: nat)
    requires i <= |s| && n in Matches(Chars(k), s, i)
    ensures n == i + 1 <= |s| && In(k, s[i])
  {
    CharsUnfold(k, s, i);
    hide Matches, In;
  }

  lemma {:induction false} CharThenEnds(k: CharSet, r: Regex, s: string, i: nat, n: nat)
    requires i <= |s| && n in Matches(Seq(Chars(k), r), s, i)
    ensures i < |s| && In(k, s[i]) && n in Matches(r, s, i + 1)
  {
    hide Matches, In;
    var j := SeqEnds(Chars(k), r, s, i, n);
    CharsEnds(k, s, i, j);
  }

  lemma {:induction false} BeyondEnds(m: seq<nat>, i: nat, n: nat, j: nat)
    requires forall k :: 0 <= k < |m| ==> i <= m[k] <= n
    requires j in Beyond(m, i, n)
    ensures j in m && j > i
  {
    if m != [] && !(j == m[0] && j > i) {
      BeyondEnds(m[1..], i, n, j);
    }
  }

  /** A starred part matched nothing, or once and then again from there. */
  lemma {:induction false} StarEnds(a: Regex, s: string, i: nat, n: nat) returns (j: nat)
    requires i <= |s| && n in Matches(Star(a), s, i)
    ensures i <= j <= n <= |s|
    ensures j == i ==> n == i
    ensures j > i ==> j in Matches(a, s, i) && n in Matches(Star(a), s, j)
  {
    StarUnfold(a, s, i);
    hide Matches;
    j := i;
    if n != i {
      var starts := Beyond(Matches(a, s, i), i, |s|);
      j := FromEachEnds(Star(a), s, starts, i + 1, n);
      BeyondEnds(Matches(a, s, i), i, |s|, j);
      MatchBounds(Star(a), s, j, n);
    }
  }

  lemma {:induction false} StarChars(k: CharSet, s: string, i: nat, n: nat)
    requires i <= |s| && n in Matches(Star(Chars(k)), s, i)
    ensures i <= n <= |s| && forall j :: i <= j < n ==> In(k, s[j])
    decreases |s| - i
  {
    hide Matches, In;
    var j := StarEnds(Chars(k), s, i, n);
    if j > i {
      CharsEnds(k, s, i, j);
      StarChars(k, s, j, n);
    }
  }

  lemma {:induction false} PlusEnds(k: CharSet, s: string, i: nat, n: nat)
    requires i <= |s| && n in Matches(Plus(k), s, i)
    ensures i < n <= |s| && forall j :: i <= j < n ==> In(k, s[j])
  {
    hide Matches, In;
    CharThenEnds(k, Star(Chars(k)), s, i, n);
    StarChars(k, s, i + 1, n);
  }

  lemma {:induction false} LiteralEnds(word: string, s: string, i: nat, n: nat)
    requires word != [] && i <= |s| && n in Matches(Literal(word), s, i)
    ensures i <= n <= |s| && s[i..n] == word
    decreases |word|
  {
    hide Matches;
    if |word| == 1 {
      CharsEnds(One(word[0]), s, i, n);
    } else {
      CharThenEnds(One(word[0]), Literal(word[1..]), s, i, n);
      LiteralEnds(word[1..], s, i + 1, n);
      assert s[i..n] == [s[i]] + s[i + 1..n];
    }
  }

  lemma {:induction false} BoundaryEnds(s: string, i: nat, n: nat)
    requires i <= |s| && n in Matches(Boundary, s, i)
    ensures n == i && WordAt(s, i - 1) != WordAt(s, i)
  {
  }

  // ---- strings ----

  lemma {:induction false} ItemEnds(s: string, i: nat, n: nat)
    requires i <= |s| && n in Matches(StringItem(), s, i)
    ensures i < n <= |s| && ItemLength(s[i..n]) == n - i
  {
    hide Matches, StringItem;
    ItemCases(s, i);
    if n in Matches(Seq(Chars(One('\\')), Chars(EscapeLetter)), s, i) {
      CharThenEnds(One('\\'), Chars(EscapeLetter), s, i, n);
      CharsEnds(EscapeLetter, s, i + 1, n);
    } else if n in Matches(Chars(Plain), s, i) {
      CharsEnds(Plain, s, i, n);
    } else {
      CharThenEnds(One('\\'), UnicodePart(), s, i, n);
      UnicodeEnds(s, i + 1, n);
    }
  }

  lemma {:induction false} UnicodeEnds(s: string, i: nat, n: nat)
    requires i <= |s| && n in Matches(UnicodePart(), s, i)
    ensures n == i + 5 <= |s| && s[i] == 'u'
    ensures HexDigit(s[i + 1]) && HexDigit(s[i + 2]) && HexDigit(s[i + 3]) && HexDigit(s[i + 4])
  {
    hide Matches, HexDigit;
    CharThenEnds(One('u'), Seq(Chars(Hex), Seq(Chars(Hex), Seq(Chars(Hex), Chars(Hex)))), s, i, n);
    assert s[i] == 'u';
    hide In;
    CharThenEnds(Hex, Seq(Chars(Hex), Seq(Chars(Hex), Chars(Hex))), s, i + 1, n);
    CharThenEnds(Hex, Seq(Chars(Hex), Chars(Hex)), s, i + 2, n);
    CharThenEnds(Hex, Chars(Hex), s, i + 3, n);
    CharsEnds(Hex, s, i + 4, n);
    HexIsHex(s[i + 1]);
    HexIsHex(s[i + 2]);
    HexIsHex(s[i + 3]);
    HexIsHex(s[i + 4]);
  }

  /** How an item begins does not depend on what stands behind it. */
  lemma {:induction false} ItemPrefix(s: string, n: nat)
    requires 0 < n <= |s| && ItemLength(s[..n]) == n
    ensures ItemLength(s) == n
  {
    assert forall j :: 0 <= j < n ==> s[..n][j] == s[j];
  }

  lemma {:induction false} ItemsEnd(s: string, i: nat, n: nat)
    requires i <= |s| && n in Matches(Star(StringItem()), s, i)
    ensures i <= n <= |s| && StringText(s[i..n])
    decreases |s| - i
  {
    hide Matches, StringItem, ItemLength;
    var j := StarEnds(StringItem(), s, i, n);
    if j > i {
      ItemEnds(s, i, j);
      ItemsEnd(s, j, n);
      var text := s[i..n];
      assert text[..j - i] == s[i..j] && text[j - i..] == s[j..n];
      ItemPrefix(text, j - i);
    }
  }

  lemma {:induction false} StringRule()
    ensures Rule(2) == Seq(Chars(One('"')), Seq(Star(StringItem()), Chars(One('"'))))
  {
    hide StringItem;
  }

  lemma {:induction false} QuoteEnds(r: Regex, s: string, i: nat, n: nat)
    requires i <= |s| && n in Matches(Seq(r, Chars(One('"'))), s, i)
    ensures i < n <= |s| && s[n - 1] == '"' && n - 1 in Matches(r, s, i)
  {
    hide Matches;
    var j := SeqEnds(r, Chars(One('"')), s, i, n);
    CharsEnds(One('"'), s, j, n);
  }

  lemma {:induction false} StringEnds(s: string, n: nat)
    requires n in Matches(Rule(2), s, 0)
    ensures 2 <= n <= |s| && s[..n] == "\"" + s[1..n - 1] + "\"" && StringText(s[1..n - 1])
  {
    StringRule();
    var items := Seq(Star(StringItem()), Chars(One('"')));
    hide Matches, Rule, StringItem, StringText;
    CharThenEnds(One('"'), items, s, 0, n);
    assert s[0] == '"';
    hide In;
    QuoteEnds(Star(StringItem()), s, 1, n);
    ItemsEnd(s, 1, n - 1);
    assert s[..n] == [s[0]] + s[1..n - 1] + [s[n - 1]];
  }

  // ---- numbers ----

  lemma {:induction false} DigitsOf(s: string, i: nat, n: nat)
    requires i < n <= |s| && forall j :: i <= j < n ==> In(Decimal, s[j])
    ensures AllDigits(s[i..n])
  {
    var t := s[i..n];
    assert forall j :: 0 <= j < n - i ==> t[j] == s[i + j];
  }

  lemma {:induction false} BodyEnds(s: string, i: nat, n: nat)
    requires i <= |s| && n in Matches(Body(), s, i)
    ensures i < n <= |s| && WholePart(s[i..n])
  {
    hide Matches;
    AltEnds(Chars(Decimal), LongBody(), s, i, n);
    if n in Matches(Chars(Decimal), s, i) {
      CharsEnds(Decimal, s, i, n);
      DigitsOf(s, i, n);
    } else {
      CharThenEnds(NonZero, Plus(Decimal), s, i, n);
      PlusEnds(Decimal, s, i + 1, n);
      DigitsOf(s, i, n);
      assert s[i..n][0] == s[i];
    }
  }

  lemma {:induction false} FractionEnds(s: string, i: nat, n: nat)
    requires i <= |s| && n in Matches(Opt(Fraction()), s, i)
    ensures i <= n <= |s| && FractionPart(s[i..n])
    ensures n > i ==> Digit(s[n - 1])
  {
    hide Matches;
    OptEnds(Fraction(), s, i, n);
    if n != i {
      CharThenEnds(One('.'), Plus(Decimal), s, i, n);
      PlusEnds(Decimal, s, i + 1, n);
      DigitsOf(s, i + 1, n);
      assert s[i..n][1..] == s[i + 1..n] && s[i..n][0] == s[i];
    }
  }

  lemma {:induction false} ExponentEnds(s: string, i: nat, n: nat)
    requires i <= |s| && n in Matches(Opt(Exponent()), s, i)
    ensures i <= n <= |s| && ExponentPart(s[i..n])
    ensures n > i ==> Digit(s[n - 1])
  {
    hide Matches;
    OptEnds(Exponent(), s, i, n);
    if n != i {
      var t := s[i..n];
      CharThenEnds(ExponentMark, Seq(Opt(Chars(Sign)), Plus(Decimal)), s, i, n);
      var j := SeqEnds(Opt(Chars(Sign)), Plus(Decimal), s, i + 1, n);
      OptEnds(Chars(Sign), s, i + 1, j);
      PlusEnds(Decimal, s, j, n);
      DigitsOf(s, j, n);
      assert t[0] == s[i];
      if j != i + 1 {
        CharsEnds(Sign, s, i + 1, j);
        assert t[2..] == s[j..n] && t[1] == s[i + 1];
      } else {
        assert t[1..] == s[j..n];
      }
    }
  }

  lemma {:induction false} NumberRule()
    ensures Rule(1) == Seq(Seq(Opt(Chars(One('-'))), Body()), NumberTail())
    ensures NumberTail() == Seq(Opt(Fraction()), Seq(Opt(Exponent()), Boundary))
  {
  }

  lemma {:induction false} WholeEnds(s: string, n: nat) returns (from: nat)
    requires n in Matches(Seq(Opt(Chars(One('-'))), Body()), s, 0)
    ensures from < n <= |s| && from <= 1 && (from == 1 ==> s[0] == '-') && WholePart(s[from..n])
  {
    var minus := One('-');
    hide Matches, Body, WholePart;
    from := SeqEnds(Opt(Chars(minus)), Body(), s, 0, n);
    OptEnds(Chars(minus), s, 0, from);
    if from != 0 {
      CharsEnds(minus, s, 0, from);
    }
    hide In;
    BodyEnds(s, from, n);
  }

  lemma {:induction false} TailEnds(s: string, i: nat, n: nat) returns (f: nat)
    requires 0 < i <= |s| && n in Matches(NumberTail(), s, i) && Digit(s[i - 1])
    ensures i <= f <= n <= |s| && FractionPart(s[i..f]) && ExponentPart(s[f..n])
    ensures n < |s| ==> !IsWord(s[n])
  {
    NumberRule();
    hide Matches, Rule, NumberTail, Fraction, Exponent, FractionPart, ExponentPart;
    f := SeqEnds(Opt(Fraction()), Seq(Opt(Exponent()), Boundary), s, i, n);
    var e := SeqEnds(Opt(Exponent()), Boundary, s, f, n);
    FractionEnds(s, i, f);
    ExponentEnds(s, f, e);
    BoundaryEnds(s, e, n);
    assert WordAt(s, e - 1);
  }

  lemma {:induction false} NumberEnds(s: string, n: nat)
    requires n in Matches(Rule(1), s, 0)
    ensures 0 < n <= |s| && NumberText(s[..n]) && (n < |s| ==> !IsWord(s[n]))
  {
    hide *;
    NumberRule();
    var to := SeqEnds(Seq(Opt(Chars(One('-'))), Body()), NumberTail(), s, 0, n);
    var from := WholeEnds(s, to);
    LastIsDigit(s, from, to);
    var f := TailEnds(s, to, n);
    NumberFrom(s, from, to, f, n);
  }

  lemma {:induction false} LastIsDigit(s: string, i: nat, n: nat)
    requires i < n <= |s| && WholePart(s[i..n])
    ensures Digit(s[n - 1])
  {
    assert s[i..n][n - 1 - i] == s[n - 1];
  }

  lemma {:induction false} NumberFrom(s: string, from: nat, to: nat, f: nat, e: nat)
    requires from <= to <= f <= e <= |s| && from <= 1 && (from == 1 ==> s[0] == '-')
    requires WholePart(s[from..to]) && FractionPart(s[to..f]) && ExponentPart(s[f..e])
    ensures NumberText(s[..e])
  {
    hide WholePart, FractionPart, ExponentPart;
    var sign := s[..from];
    assert s[..e] == sign + s[from..to] + s[to..f] + s[f..e];
    assert sign == if from == 0 then "" else "-";
    assert NumberParts(s[..e], sign, s[from..to], s[to..f], s[f..e]);
  }

  // ---- one rule ----

  lemma {:induction false} FirstRuleMatches(input: string, i: nat)
    requires i <= RULES && FirstRule(input, i).Found?
    ensures var r := FirstRule(input, i);
            r.rule < RULES && r.length <= |input| && r.length in Matches(Rule(r.rule), input, 0)
    decreases RULES - i
  {
    hide Rule, Matches;
    if Matches(Rule(i), input, 0) == [] {
      FirstRuleMatches(input, i + 1);
    }
  }

  lemma {:induction false} SpaceEnds(s: string, n: nat)
    requires n in Matches(Rule(0), s, 0)
    ensures n <= |s| && Gap(s[..n])
  {
    assert Rule(0) == Plus(Space);
    PlusEnds(Space, s, 0, n);
    forall j | 0 <= j < n
      ensures Blank(s[..n][j])
    {
      BlankIsSpace(s[j]);
    }
  }

  lemma {:induction false} KeywordEnds(word: string, s: string, n: nat)
    requires word != [] && IsWord(word[|word| - 1]) && n in Matches(Seq(Literal(word), Boundary), s, 0)
    ensures n <= |s| && s[..n] == word && (n < |s| ==> !IsWord(s[n]))
  {
    hide Matches, IsWord;
    var j := SeqEnds(Literal(word), Boundary, s, 0, n);
    LiteralEnds(word, s, 0, j);
    BoundaryEnds(s, j, n);
    assert s[..n][n - 1] == s[n - 1];
  }

  function Word(rule: nat): (word: string)
    requires 3 <= rule < 12
    ensures word != []
  {
    match rule
    case 3 => "{"
    case 4 => "}"
    case 5 => "["
    case 6 => "]"
    case 7 => ","
    case 8 => ":"
    case 9 => "true"
    case 10 => "false"
    case 11 => "null"
  }

  lemma {:induction false} WordRule(rule: nat)
    requires 3 <= rule < 12
    ensures Rule(rule) == if rule < 9 then Literal(Word(rule)) else Seq(Literal(Word(rule)), Boundary)
    ensures rule >= 9 ==> IsWord(Word(rule)[|Word(rule)| - 1])
  {
    hide Literal;
  }

  lemma {:induction false} WordAction(rule: nat)
    requires 3 <= rule < 12
    ensures LexAction(rule, Word(rule)).Lexed?
    ensures var t := LexAction(rule, Word(rule)).token;
            Lexical(t) && Word(rule) == Spelling(t) && (Wordy(t) <==> rule >= 9)
  {
  }

  lemma {:induction false} FixedEnds(rule: nat, s: string, n: nat)
    requires 3 <= rule < 12 && n in Matches(Rule(rule), s, 0)
    ensures n <= |s| && LexAction(rule, s[..n]).Lexed?
    ensures var t := LexAction(rule, s[..n]).token;
            Lexical(t) && s[..n] == Spelling(t) && (Wordy(t) && n < |s| ==> !IsWord(s[n]))
  {
    hide *;
    WordRule(rule);
    WordAction(rule);
    if rule < 9 {
      LiteralEnds(Word(rule), s, 0, n);
    } else {
      KeywordEnds(Word(rule), s, n);
    }
  }

  /** What one rule takes off the input: white space; or the spelling of a lexeme, and behind a word no
      letter or digit; or an invalid character; or nothing, at the end. */
  ghost predicate Taken(input: string, n: nat, x: Lexeme)
    requires n <= |input|
  {
    match x
    case Skip => Gap(input[..n])
    case Lexed(t) =>
      || t.InvalidToken?
      || (t == Fixed(EOF) && input == [])
      || (Lexical(t) && input[..n] == Spelling(t) && (Wordy(t) && n < |input| ==> !IsWord(input[n])))
  }

  lemma {:induction false} LexemeTakes(k: nat, s: string, n: nat)
    requires (k == 1 || k == 2) && n in Matches(Rule(k), s, 0)
    ensures n <= |s| && Taken(s, n, LexAction(k, s[..n]))
  {
    if k == 1 {
      NumberEnds(s, n);
    } else {
      StringEnds(s, n);
      assert s[..n][1..n - 1] == s[1..n - 1];
    }
    hide Rule, Matches, NumberText, StringText, IsWord;
  }

  lemma {:induction false} FixedTakes(k: nat, s: string, n: nat)
    requires 3 <= k < 12 && n in Matches(Rule(k), s, 0)
    ensures n <= |s| && Taken(s, n, LexAction(k, s[..n]))
  {
    hide Rule, Matches, Lexical, Spelling, Wordy, LexAction;
    FixedEnds(k, s, n);
  }

  lemma {:induction false} OtherTakes(k: nat, s: string, n: nat)
    requires (k == 0 || 12 <= k < RULES) && n <= |s| && n in Matches(Rule(k), s, 0)
    ensures Taken(s, n, LexAction(k, s[..n]))
  {
    if k == 0 {
      SpaceEnds(s, n);
    } else if k == 12 {
      LastRules(s, k);
    }
    hide Rule, Matches, Gap;
  }

  lemma {:induction false} RuleTakes(input: string)
    ensures var r := FirstRule(input, 0);
            r.Found? && r.length <= |input| && Taken(input, r.length, LexAction(r.rule, input[..r.length]))
  {
    hide Rule, Matches, FirstRule, LexAction, Taken;
    RuleFound(input, 0);
    FirstRuleMatches(input, 0);
    var r := FirstRule(input, 0);
    if r.rule == 1 || r.rule == 2 {
      LexemeTakes(r.rule, input, r.length);
    } else if 3 <= r.rule < 12 {
      FixedTakes(r.rule, input, r.length);
    } else {
      OtherTakes(r.rule, input, r.length);
    }
  }
}
