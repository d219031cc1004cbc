/** The lexer object and the parser loop, step by step, against the specifications. */
module JsonLint {
  import opened JsonValues
  import opened JsonParser
  import opened JsonGrammar
  import opened Regex
  import opened JsonLexer
  import opened JsonText
  import opened Wrappers

  datatype NextResult = Undefined | Got(token: Token) | LexicalError

  class Lexer {
    var input: string
    var yytext: string
    var matched: string
    var done: bool

    ghost predicate Valid()
      reads this
    {
      done ==> input == []
    }

    /** The tokens still to come, before the end marker that follows them for ever. */
    ghost function Remaining(): seq<Token>
      reads this
    {
      if done then [] else Tokens(input)
    }

    constructor (text: string)
      ensures Valid() && Remaining() == Tokens(text)
      ensures matched == [] && input == text
    {
      input, yytext, matched, done := text, "", "", false;
    }

    /** One rule: nothing for white space, else a token. What is matched moves from the input to
        `matched`. */
    method Next() returns (r: NextResult)
      requires Valid()
      modifies this
      ensures Valid() && matched + input == old(matched + input)
      ensures old(done) ==> r == Got(Fixed(END)) && unchanged(this)
      ensures !old(done) ==>
          var scan := FirstRule(old(input), 0);
          && scan.Found? && input == old(input)[scan.length..]
          && done == (old(input) == [])
          && match LexAction(scan.rule, old(input)[..scan.length])
             case Skip => r == Undefined && old(input) != []
             case Lexed(t) => r == Got(t) && yytext == t.Text()
    {
      hide Rule, Matches, FirstRule;
      if done {
        return Got(Fixed(END));
      }
      if input == [] {
        done := true;
      }
      yytext := "";
      RuleFound(input, 0);
      var i: nat, found, length: nat := 0, false, 0;
      while i < RULES && !found
        invariant i <= RULES && length <= |input|
        invariant input == old(input) && matched == old(matched) && done == (input == [])
        invariant found ==> FirstRule(input, 0) == Found(i, length)
        invariant !found ==> FirstRule(input, 0) == FirstRule(input, i)
        decreases RULES - i, !found
      {
        FirstRuleStep(input, i);
        var m := Matches(Rule(i), input, 0);
        if m != [] {
          found, length := true, m[0];
        } else {
          i := i + 1;
        }
      }
      // Some rule always matches, so the branches for no match are not taken.
      r := LexicalError;
      if found {
        var text := input[..length];
        yytext := text;
        input := input[length..];
        matched := matched + text;
        done := done && input == [];
        match LexAction(i, text) {
          case Skip =>
            r := Undefined;
          case Lexed(t) =>
            yytext := t.Text();
            r := Got(t);
        }
      }
    }

    /** The next token, past any white space. */
    method Lex() returns (t: Token)
      requires Valid()
      modifies this
      ensures Valid() && yytext == (if old(done) then old(yytext) else t.Text())
      ensures matched + input == old(matched + input)
      ensures old(done) ==> t == Fixed(END) && Remaining() == []
      ensures !old(done) ==> old(Remaining()) == [t] + Remaining() && t != Fixed(END)
      decreases |input|
    {
      hide Rule, Matches, FirstRule, LexAction;
      RuleFound(input, 0);
      ghost var before, scan := input, FirstRule(input, 0);
      TokensStep(before);
      var r := Next();
      match r
      case Undefined => t := Lex();
      case Got(token) => t := token;
      case LexicalError => assert false;
    }
  }

  /** The parser loop. The stacks are arrays that are cut and extended; `symbol` is null until a
      lookahead is needed. */
  method ParseText(text: string) returns (o: Outcome)
    ensures o == Parse(Tokens(text)) && Understands(text, o)
  {
    ParseUnderstands(text);
    hide Understands, Action, Table, Next, PerformAction, Operands, Production, Tokens, Run, Shape, Step;
    hide ShiftToken, Reduced, Inv;
    var lexer := new Lexer(text);
    var states: seq<nat> := [0];
    var symbols: seq<Symbol> := [];
    var vstack := [JNull];
    var yytext := "";
    var symbol: Option<Token> := None;
    ghost var c := Start(Tokens(text));
    while true
      invariant fresh(lexer) && lexer.Valid()
      invariant Inv(c) && Run(c) == Parse(Tokens(text))
      invariant c.states == states && c.symbols == symbols && c.values == vstack && c.yytext == yytext
      invariant Pending(symbol, lexer.Remaining(), c.input)
      invariant symbol.Some? ==> lexer.yytext == symbol.value.Text() || symbol.value == Fixed(END)
      decreases |c.input|, |c.symbols|, TopRank(c)
    {
      Sizes(c);
      var state := states[|states| - 1];
      var action := Reduce(6);
      if state != 16 {
        if symbol == None {
          var t := lexer.Lex();
          symbol := Some(t);
        }
        action := Table(state, symbol.value.Symbol());
      }
      ghost var x := Lookahead(c).Symbol();
      ActionRead(state, x);
      assert action == Action(state, x);
      match action {
        case Error =>
          RunStops(c);
          return Throws;
        case Goto(_) =>
          RunStops(c);
          return Throws;
        case Accept =>
          RunStops(c);
          return Ok(JBool(true));
        case Shift(s) =>
          var t := symbol.value;
          RunShifts(c, t, s);
          c := ShiftToken(c, t, s);
          states, symbols, vstack := states + [s], symbols + [t.Symbol()], vstack + [JString(lexer.yytext)];
          yytext := lexer.yytext;
          symbol := None;
        case Reduce(p) =>
          RunReduces(c, x, p);
          var len := Production(p).1;
          var value := PerformAction(p, yytext, vstack);
          if p == 6 {
            return Ok(value);
          }
          c := Reduced(c, x, p);
          states := states[..|states| - len];
          symbols := symbols[..|symbols| - len];
          vstack := vstack[..|vstack| - len];
          symbols := symbols + [Production(p).0];
          vstack := vstack + [value];
          var newState := Next(states[|states| - 1], Production(p).0);
          states := states + [newState.to];
      }
    }
  }

  // ---- one iteration, seen from the specification ----

  lemma {:induction false} Sizes(c: Config)
    requires Inv(c)
    ensures |c.states| == |c.symbols| + 1 == |c.values|
  {
    hide Next, Shape;
  }

  lemma {:induction false} RunStops(c: Config)
    requires Inv(c)
    ensures var a := Action(c.states[|c.symbols|], Lookahead(c).Symbol());
        && (a == Error || a.Goto? ==> Run(c) == Throws)
        && (a == Accept ==> Run(c) == Ok(JBool(true)))
  {
    hide Action, Next, Shape;
  }

  lemma {:induction false} RunShifts(c: Config, t: Token, s: nat)
    requires Inv(c) && t == Lookahead(c) && Action(c.states[|c.symbols|], t.Symbol()) == Shift(s)
    ensures c.input != [] && t != Fixed(END)
    ensures var d := ShiftToken(c, t, s);
        && Inv(d) && Lower(d, c) && Run(c) == Run(d)
        && d.states == c.states + [s] && d.symbols == c.symbols + [t.Symbol()]
        && d.values == c.values + [JString(t.Text())] && d.yytext == t.Text() && d.input == c.input[1..]
  {
    NoShiftAtEnd(c.states[|c.symbols|]);
    ShiftKeeps(c, t, s);
    hide Action, Next, Shape;
    assert Step(c) == StepResult.Continue(ShiftToken(c, t, s));
  }

  lemma {:induction false} RunReduces(c: Config, x: Symbol, p: nat)
    requires Inv(c) && x == Lookahead(c).Symbol() && Action(c.states[|c.symbols|], x) == Reduce(p)
    ensures 1 <= p <= 21 && Operands(p, c.values) && Production(p).1 <= |c.symbols|
    ensures p == 6 ==> Run(c) == Ok(PerformAction(p, c.yytext, c.values))
    ensures p != 6 ==>
        var d, n := Reduced(c, x, p), Production(p).1;
        && Inv(d) && Lower(d, c) && Run(c) == Run(d)
        && Next(c.states[|c.symbols| - n], Production(p).0).Goto?
        && d.states == c.states[..|c.states| - n] + [Next(c.states[|c.symbols| - n], Production(p).0).to]
        && d.symbols == c.symbols[..|c.symbols| - n] + [Production(p).0]
        && d.values == c.values[..|c.values| - n] + [PerformAction(p, c.yytext, c.values)]
        && d.yytext == c.yytext && d.input == c.input
  {
    hide Action, Next, Shape, PerformAction, Operands, Production, RightSide;
    HandleOnTop(c, x, p);
    if p != 6 {
      ReduceKeeps(c, x, p);
      assert Step(c) == StepResult.Continue(Reduced(c, x, p));
    }
  }

  lemma {:induction false} ActionRead(state: nat, x: Symbol)
    ensures Action(state, x) == if state == 16 then Reduce(6) else Table(state, x)
  {
    hide Table;
  }

  /** The tokens the machine still has to read: the lookahead, if there is one, and what the
      lexer has left. */
  ghost predicate Pending(symbol: Option<Token>, remaining: seq<Token>, input: seq<Token>) {
    match symbol
    case None => input == remaining
    case Some(t) => if t == Fixed(END) then input == remaining == [] else input == [t] + remaining
  }
}
