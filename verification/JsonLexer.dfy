/** The JSON lexer: its rules, tried in order on what is left of the input. */
module JsonLexer {
  import opened JsonParser
  import opened Regex

  function Literal(word: string): Regex
    requires word != []
  {
    if |word| == 1 then Chars(One(word[0])) else Seq(Chars(One(word[0])), Literal(word[1..]))
  }

  function Plus(k: CharSet): Regex {
    Seq(Chars(k), Star(Chars(k)))
  }

  /** -?([0-9]|[1-9][0-9]+) and what may follow it: a fraction, an exponent, a word boundary. */
  function IntegerPart(): Regex {
    Seq(Opt(Chars(One('-'))), Alt(Chars(Decimal), Seq(Chars(NonZero), Plus(Decimal))))
  }

  function Fraction(): Regex {
    Seq(Chars(One('.')), Plus(Decimal))
  }

  function Exponent(): Regex {
    Seq(Chars(ExponentMark), Seq(Opt(Chars(Sign)), Plus(Decimal)))
  }

  function NumberTail(): Regex {
    Seq(Opt(Fraction()), Seq(Opt(Exponent()), Boundary))
  }

  /** An escape, a \u escape, or any other character but a quote, a backslash or a control. */
  function StringItem(): Regex {
    Alt(
      Seq(Chars(One('\\')), Chars(EscapeLetter)),
      Alt(
        Seq(Chars(One('\\')), Seq(Chars(One('u')), Seq(Chars(Hex), Seq(Chars(Hex), Seq(Chars(Hex), Chars(Hex)))))),
        Chars(Plain)))
  }

  const RULES := 14

  function Rule(i: nat): Regex
    requires i < RULES
  {
    match i
    case 0 => Plus(Space)
    case 1 => Seq(IntegerPart(), NumberTail())
    case 2 => Seq(Chars(One('"')), Seq(Star(StringItem()), Chars(One('"'))))
    case 3 => Literal("{")
    case 4 => Literal("}")
    case 5 => Literal("[")
    case 6 => Literal("]")
    case 7 => Literal(",")
    case 8 => Literal(":")
    case 9 => Seq(Literal("true"), Boundary)
    case 10 => Seq(Literal("false"), Boundary)
    case 11 => Seq(Literal("null"), Boundary)
    case 12 => End
    case 13 => Chars(AnyButNewline)
  }

  datatype Scan = Found(rule: nat, length: nat) | NotFound

  /** The first rule, from number i on, that matches at the start of the input, and how much it
      takes. */
  function FirstRule(input: string, i: nat): (r: Scan)
    requires i <= RULES
    ensures r.Found? ==> i <= r.rule < RULES && r.length <= |input|
    decreases RULES - i
  {
    if i == RULES then NotFound
    else
      var m := Matches(Rule(i), input, 0);
      if m != [] then Found(i, m[0]) else FirstRule(input, i + 1)
  }

  datatype Lexeme = Skip | Lexed(token: Token)

  /** The lexer's action: nothing for white space, and a string without its quotes. */
  function LexAction(rule: nat, text: string): Lexeme
    requires rule < RULES
  {
    match rule
    case 0 => Skip
    case 1 => Lexed(NumberToken(text))
    case 2 => Lexed(StringToken(if |text| >= 2 then text[1..|text| - 1] else ""))
    case 3 => Lexed(Fixed(LBRACE))
    case 4 => Lexed(Fixed(RBRACE))
    case 5 => Lexed(Fixed(LBRACKET))
    case 6 => Lexed(Fixed(RBRACKET))
    case 7 => Lexed(Fixed(COMMA))
    case 8 => Lexed(Fixed(COLON))
    case 9 => Lexed(Fixed(TRUE))
    case 10 => Lexed(Fixed(FALSE))
    case 11 => Lexed(Fixed(NULL))
    case 12 => Lexed(Fixed(EOF))
    case 13 => Lexed(InvalidToken(text))
  }

  // ---- every input can be lexed ----

  /** Every match takes at least one character. */
  predicate Consumes(r: Regex) {
    match r
    case Chars(_) => true
    case Seq(a, b) => Consumes(a) || Consumes(b)
    case Alt(a, b) => Consumes(a) && Consumes(b)
    case _ => false
  }

  lemma {:induction false} ConsumesTakes(r: Regex, s: string, i: nat)
    requires Consumes(r) && i <= |s|
    ensures forall k :: 0 <= k < |Matches(r, s, i)| ==> Matches(r, s, i)[k] > i
    decreases r, 0
  {
    match r
    case Chars(_) =>
    case Seq(a, b) =>
      if Consumes(a) {
        ConsumesTakes(a, s, i);
      }
      FromEachTakes(a, b, s, Matches(a, s, i), i);
    case Alt(a, b) =>
      ConsumesTakes(a, s, i);
      ConsumesTakes(b, s, i);
    case _ =>
  }

  lemma {:induction false} FromEachTakes(a: Regex, b: Regex, s: string, starts: seq<nat>, i: nat)
    requires i <= |s| && forall k :: 0 <= k < |starts| ==> i <= starts[k] <= |s|
    requires Consumes(b) || forall k :: 0 <= k < |starts| ==> starts[k] > i
    ensures forall k :: 0 <= k < |FromEach(b, s, starts, i)| ==> FromEach(b, s, starts, i)[k] > i
    decreases b, 1, |starts|
  {
    hide Matches;
    if starts != [] {
      if Consumes(b) {
        ConsumesTakes(b, s, starts[0]);
      }
      FromEachTakes(a, b, s, starts[1..], i);
    }
  }

  lemma {:induction false} RuleConsumes(i: nat)
    requires i < RULES && i != 12
    ensures Consumes(Rule(i))
  {
  }

  /** Something always matches: white space, the end of the input, or any one character. */
  lemma {:induction false} RuleFound(input: string, i: nat)
    requires i <= RULES
    requires input == [] ==> i <= 12
    requires input != [] && IsSpace(input[0]) ==> i == 0
    requires input != [] && !IsSpace(input[0]) ==> i <= 13
    ensures FirstRule(input, i).Found?
    ensures var r := FirstRule(input, i);
        r.rule != 12 ==> r.length > 0
    ensures input == [] && i <= 12 ==> FirstRule(input, i) == Found(12, 0)
    decreases RULES - i
  {
    var m := Matches(Rule(i), input, 0);
    if i != 12 {
      RuleConsumes(i);
      ConsumesTakes(Rule(i), input, 0);
    }
    if i == 0 && input != [] && IsSpace(input[0]) {
      SpaceStarts(input);
    }
    hide Matches, Rule;
    if m == [] {
      LastRules(input, i);
      RuleFound(input, i + 1);
    } else if i == 12 {
      LastRules(input, i);
    }
  }

  lemma {:induction false} SpaceStarts(input: string)
    requires input != [] && IsSpace(input[0])
    ensures Matches(Rule(0), input, 0) != []
  {
    assert Matches(Chars(Space), input, 0) == [1];
    StarUnfold(Chars(Space), input, 1);
    assert FromEach(Star(Chars(Space)), input, [1], 0) != [];
  }

  lemma {:induction false} LastRules(input: string, i: nat)
    requires i < RULES
    ensures i == 12 ==> Matches(Rule(i), input, 0) == if input == [] then [0] else []
    ensures i == 13 && input != [] && !IsSpace(input[0]) ==> Matches(Rule(i), input, 0) != []
  {
  }

  /** `lex`: the next token, and what is left of the input. */
  function NextToken(input: string): (r: (Token, string))
    ensures |r.1| <= |input| && (r.0 != Fixed(EOF) ==> |r.1| < |input|)
    decreases |input|
  {
    RuleFound(input, 0);
    var r := FirstRule(input, 0);
    match LexAction(r.rule, input[..r.length])
    case Skip => NextToken(input[r.length..])
    case Lexed(t) => (t, input[r.length..])
  }

  /** All tokens, up to and including the end of the input. */
  function Tokens(input: string): seq<Token>
    decreases |input|
  {
    var (t, rest) := NextToken(input);
    if t == Fixed(EOF) then [t] else [t] + Tokens(rest)
  }

  lemma {:induction false} NextTokenUnfold(input: string)
    ensures var r := FirstRule(input, 0);
        && r.Found?
        && match LexAction(r.rule, input[..r.length])
           case Skip => NextToken(input) == NextToken(input[r.length..])
           case Lexed(t) => NextToken(input) == (t, input[r.length..])
  {
    RuleFound(input, 0);
    hide Rule, Matches, FirstRule, LexAction;
  }

  lemma {:induction false} TokensUnfold(input: string)
    ensures var (t, rest) := NextToken(input);
        Tokens(input) == [t] + if t == Fixed(EOF) then [] else Tokens(rest)
  {
    hide NextToken;
  }

  lemma {:induction false} FirstRuleStep(input: string, i: nat)
    requires i < RULES
    ensures FirstRule(input, i) ==
            if Matches(Rule(i), input, 0) != [] then Found(i, Matches(Rule(i), input, 0)[0])
            else FirstRule(input, i + 1)
  {
    hide Rule, Matches;
  }

  lemma {:induction false} ActionEnds(rule: nat, text: string)
    requires rule < RULES
    ensures match LexAction(rule, text)
            case Skip => true
            case Lexed(t) => t != Fixed(END) && (t == Fixed(EOF) <==> rule == 12)
  {
  }

  /** What one rule leaves of the token sequence. */
  lemma {:induction false} TokensStep(input: string)
    ensures var r := FirstRule(input, 0);
        && r.Found?
        && match LexAction(r.rule, input[..r.length])
           case Skip => r.length > 0 && Tokens(input) == Tokens(input[r.length..])
           case Lexed(t) =>
             && t != Fixed(END) && (t == Fixed(EOF) <==> input == []) && (input != [] ==> r.length > 0)
             && Tokens(input) == [t] + (if input == [] then [] else Tokens(input[r.length..]))
  {
    RuleFound(input, 0);
    if input != [] {
      EndOnlyAtEnd(input, 0);
    }
    hide *;
    var r := FirstRule(input, 0);
    ActionEnds(r.rule, input[..r.length]);
    NextTokenUnfold(input);
    TokensUnfold(input);
    TokensUnfold(input[r.length..]);
    if input == [] {
      assert r.rule == 12;
    } else {
      assert r.rule != 12;
    }
  }

  lemma {:induction false} EndOnlyAtEnd(input: string, i: nat)
    requires input != [] && i <= RULES
    ensures FirstRule(input, i).Found? ==> FirstRule(input, i).rule != 12
    decreases RULES - i
  {
    if i < RULES {
      LastRules(input, i);
      hide Rule, Matches;
      EndOnlyAtEnd(input, i + 1);
    }
  }
}
