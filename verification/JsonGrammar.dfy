/** The JSON grammar (RFC 8259, section 2) as derivation trees, independent of the parser: which
    tokens a tree stands for, and which value. */
module JsonGrammar {
  import opened JsonValues
  import opened JsonParser

  datatype Tree =
    | TString(text: string)
    | TNumber(text: string)
    | TNull
    | TTrue
    | TFalse
    | TArray(elements: seq<Tree>)
    | TObject(members: seq<Member>)

  datatype Member = Member(key: string, value: Tree)

  /** The tokens of a tree. */
  function Yield(t: Tree): (y: seq<Token>)
    ensures y != []
  {
    match t
    case TString(s) => [StringToken(s)]
    case TNumber(s) => [NumberToken(s)]
    case TNull => [Fixed(NULL)]
    case TTrue => [Fixed(TRUE)]
    case TFalse => [Fixed(FALSE)]
    case TArray(ts) => [Fixed(LBRACKET)] + YieldElements(ts) + [Fixed(RBRACKET)]
    case TObject(ms) => [Fixed(LBRACE)] + YieldMembers(ms) + [Fixed(RBRACE)]
  }

  function YieldElements(ts: seq<Tree>): seq<Token> {
    if ts == [] then []
    else
      var n := |ts| - 1;
      (if n == 0 then [] else YieldElements(ts[..n]) + [Fixed(COMMA)]) + Yield(ts[n])
  }

  function YieldMember(m: Member): seq<Token> {
    [StringToken(m.key), Fixed(COLON)] + Yield(m.value)
  }

  function YieldMembers(ms: seq<Member>): seq<Token> {
    if ms == [] then []
    else
      var n := |ms| - 1;
      (if n == 0 then [] else YieldMembers(ms[..n]) + [Fixed(COMMA)]) + YieldMember(ms[n])
  }

  /** The value of a tree; of two members with the same key the later one counts. */
  function Meaning(t: Tree): Json {
    match t
    case TString(s) => JString(Unescape(s))
    case TNumber(s) => JNumber(NumberValue(s))
    case TNull => JNull
    case TTrue => JBool(true)
    case TFalse => JBool(false)
    case TArray(ts) => JArray(MeaningElements(ts))
    case TObject(ms) => JObject(MeaningMembers(ms))
  }

  function MeaningElements(ts: seq<Tree>): seq<Json> {
    if ts == [] then [] else MeaningElements(ts[..|ts| - 1]) + [Meaning(ts[|ts| - 1])]
  }

  function MeaningMembers(ms: seq<Member>): map<string, Json> {
    if ms == [] then map[]
    else
      var m := ms[|ms| - 1];
      MeaningMembers(ms[..|ms| - 1])[Unescape(m.key) := Meaning(m.value)]
  }

  lemma {:induction false} SingletonLists(m: Member, t: Tree)
    ensures YieldMembers([m]) == YieldMember(m) && YieldElements([t]) == Yield(t)
    ensures MeaningMembers([m]) == map[Unescape(m.key) := Meaning(m.value)] && MeaningElements([t]) == [Meaning(t)]
  {
    assert [m][..0] == [] && [t][..0] == [];
    hide YieldMember, Yield, Meaning, Unescape;
  }

  lemma {:induction false} AppendElement(ts: seq<Tree>, t: Tree)
    requires ts != []
    ensures YieldElements(ts + [t]) == YieldElements(ts) + [Fixed(COMMA)] + Yield(t)
    ensures MeaningElements(ts + [t]) == MeaningElements(ts) + [Meaning(t)]
  {
    assert (ts + [t])[..|ts|] == ts;
    hide Yield, Meaning;
  }

  lemma {:induction false} AppendMember(ms: seq<Member>, m: Member)
    requires ms != []
    ensures YieldMembers(ms + [m]) == YieldMembers(ms) + [Fixed(COMMA)] + YieldMember(m)
    ensures MeaningMembers(ms + [m]) == MeaningMembers(ms)[Unescape(m.key) := Meaning(m.value)]
  {
    assert (ms + [m])[..|ms|] == ms;
    hide YieldMember, Meaning, Unescape;
  }

  /** The parser on a token sequence. */
  function Parse(tokens: seq<Token>): Outcome {
    Run(Start(tokens))
  }

  // ---- single steps ----

  function With(c: Config, yytext: string, input: seq<Token>): Config {
    Config(c.states, c.symbols, c.values, yytext, input)
  }

  function Top(c: Config): nat
    requires |c.states| > |c.symbols|
  {
    c.states[|c.symbols|]
  }

  lemma {:induction false} RunShift(c: Config, t: Token, rest: seq<Token>, s: nat)
    requires Inv(c) && c.input == [t] + rest && Action(Top(c), t.Symbol()) == Shift(s)
    ensures Inv(Push(With(c, t.Text(), rest), t.Symbol(), JString(t.Text()), s))
    ensures Run(c) == Run(Push(With(c, t.Text(), rest), t.Symbol(), JString(t.Text()), s))
  {
    assert Lookahead(c) == t && c.input[1..] == rest;
    assert ShiftToken(c, t, s) == Push(With(c, t.Text(), rest), t.Symbol(), JString(t.Text()), s);
    hide Action, Table;
    ShiftKeeps(c, t, s);
  }

  /** A reduction whose right side was pushed on c. */
  lemma {:induction false} RunReduce(c: Config, d: Config, p: nat)
    requires Inv(c) && Inv(d) && Action(Top(d), Lookahead(d).Symbol()) == Reduce(p) && p != 6
    requires 1 <= p <= 21 && Production(p).1 <= |d.symbols| && Pop(d, Production(p).1) == c
    ensures Operands(p, d.values) && Next(Top(c), Production(p).0).Goto?
    ensures var e := Push(c, Production(p).0, PerformAction(p, d.yytext, d.values), Next(Top(c), Production(p).0).to);
        Inv(e) && Run(d) == Run(e)
  {
    hide Action, Table, Next, PerformAction, Production, RightSide, Operands;
    HandleOnTop(d, Lookahead(d).Symbol(), p);
    ReduceKeeps(d, Lookahead(d).Symbol(), p);
  }

  lemma {:induction false} PopPush(c: Config, x: Symbol, v: Json, s: nat)
    requires Inv(c) && Inv(Push(c, x, v, s))
    ensures Pop(Push(c, x, v, s), 1) == c
  {
  }
}
