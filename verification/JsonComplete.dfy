/** Completeness of the parser: on the tokens of any tree it returns the tree's value. */
module JsonComplete {
  import opened JsonValues
  import opened JsonParser
  import opened JsonGrammar
  import opened Wrappers

  /** The machine got from c to a stack with one symbol more, without changing the outcome. */
  ghost predicate Reaches(c: Config, x: Symbol, v: Json, state: nat, yytext: string, rest: seq<Token>)
    requires Inv(c)
  {
    var d := Push(With(c, yytext, rest), x, v, state);
    Inv(d) && Run(c) == Run(d)
  }

  predicate ValueState(state: nat) {
    state in {0, 15, 26, 28}
  }

  function ValueGoto(state: nat): nat
    requires ValueState(state)
  {
    if state == 0 then 2 else if state == 15 then 23 else if state == 26 then 30 else 31
  }

  /** What the input must go on with after a value. */
  predicate Continues(rest: seq<Token>) {
    rest != [] && Follow(rest[0].Symbol())
  }

  /** One unit reduction. */
  lemma {:induction false} Unit(c: Config, d: Config, x: Symbol, v: Json, s: nat, p: nat, y: Symbol, w: Json, to: nat)
    requires Inv(c) && d == Push(c, x, v, s) && Inv(d) && p != 6
    requires Action(s, Lookahead(c).Symbol()) == Reduce(p) && Production(p) == (y, 1)
    requires Operands(p, d.values) ==> PerformAction(p, c.yytext, d.values) == w
    requires Next(Top(c), y) == Goto(to)
    requires 1 <= p <= 21
    ensures Inv(Push(c, y, w, to)) && Run(d) == Run(Push(c, y, w, to))
  {
    PopPush(c, x, v, s);
    hide Action, Table, Next, PerformAction, Operands;
    RunReduce(c, d, p);
  }

  /** What the rows of the states after a literal, or after a whole value, say. */
  lemma {:induction false} LeafRows(x: Symbol)
    requires Follow(x)
    ensures Action(12, x) == Reduce(1) && Action(13, x) == Reduce(2) && Action(9, x) == Reduce(3)
    ensures Action(10, x) == Reduce(4) && Action(11, x) == Reduce(5)
    ensures Action(3, x) == Reduce(7) && Action(4, x) == Reduce(8) && Action(5, x) == Reduce(9)
    ensures Action(6, x) == Reduce(10) && Action(7, x) == Reduce(11) && Action(8, x) == Reduce(12)
  {
    hide *;
    TokenRows(x);
    ValueKindRows(x);
  }

  lemma {:induction false} TokenRows(x: Symbol)
    requires Follow(x)
    ensures Action(12, x) == Reduce(1) && Action(13, x) == Reduce(2) && Action(9, x) == Reduce(3)
    ensures Action(10, x) == Reduce(4) && Action(11, x) == Reduce(5)
  {
  }

  lemma {:induction false} ValueKindRows(x: Symbol)
    requires Follow(x)
    ensures Action(3, x) == Reduce(7) && Action(4, x) == Reduce(8) && Action(5, x) == Reduce(9)
    ensures Action(6, x) == Reduce(10) && Action(7, x) == Reduce(11) && Action(8, x) == Reduce(12)
  {
  }

  lemma {:induction false} ValueStateRow(state: nat, x: Symbol)
    requires ValueState(state) && x !in {JSONText, JSONValue, RBRACKET, JSONElementList}
    ensures Table(state, x) == Action(state, x) == ValueRow(x)
  {
    hide ValueRow, ReduceOnFollow;
  }

  lemma {:induction false} ValueStateGoto(state: nat)
    requires ValueState(state)
    ensures Next(state, JSONValue) == Goto(ValueGoto(state))
  {
    hide ValueRow, ReduceOnFollow;
  }

  lemma {:induction false} ValueRows(state: nat)
    requires ValueState(state)
    ensures Action(state, STRING) == Shift(12) && Next(state, JSONString) == Goto(5)
    ensures Action(state, NUMBER) == Shift(13) && Next(state, JSONNumber) == Goto(6)
    ensures Action(state, NULL) == Shift(9) && Next(state, JSONNullLiteral) == Goto(3)
    ensures Action(state, TRUE) == Shift(10) && Action(state, FALSE) == Shift(11)
    ensures Next(state, JSONBooleanLiteral) == Goto(4)
    ensures Action(state, LBRACE) == Shift(14) && Next(state, JSONObject) == Goto(7)
    ensures Action(state, LBRACKET) == Shift(15) && Next(state, JSONArray) == Goto(8)
  {
    hide Table, Action;
    ValueStateRow(state, STRING);
    ValueStateRow(state, NUMBER);
    ValueStateRow(state, NULL);
    ValueStateRow(state, TRUE);
    ValueStateRow(state, FALSE);
    ValueStateRow(state, LBRACE);
    ValueStateRow(state, LBRACKET);
    ValueStateRow(state, JSONString);
    ValueStateRow(state, JSONNumber);
    ValueStateRow(state, JSONNullLiteral);
    ValueStateRow(state, JSONBooleanLiteral);
    ValueStateRow(state, JSONObject);
    ValueStateRow(state, JSONArray);
  }

  /** A one-token value: shift, reduce to its own nonterminal, reduce to JSONValue. */
  lemma {:induction false} LeafRuns(
      c: Config, t: Token, rest: seq<Token>, s: nat, p: nat, y: Symbol, s': nat, p': nat, v: Json)
    requires Inv(c) && ValueState(Top(c)) && c.input == [t] + rest && Continues(rest)
    requires Action(Top(c), t.Symbol()) == Shift(s)
    requires Action(s, rest[0].Symbol()) == Reduce(p) && 1 <= p <= 5 && Production(p) == (y, 1)
    requires Next(Top(c), y) == Goto(s')
    requires Action(s', rest[0].Symbol()) == Reduce(p') && 7 <= p' <= 10
    requires forall vs :: Operands(p, vs) ==> PerformAction(p, t.Text(), vs) == v
    ensures Reaches(c, JSONValue, v, ValueGoto(Top(c)), t.Text(), rest)
  {
    UnitProduction(p', v);
    hide Action, Table, Next, Operands, Production, PerformAction, Inv, Run;
    ValueStateGoto(Top(c));
    RunShift(c, t, rest, s);
    var e := With(c, t.Text(), rest);
    WithKeeps(c, t.Text(), rest);
    assert Lookahead(e) == rest[0];
    Unit(e, Push(e, t.Symbol(), JString(t.Text()), s), t.Symbol(), JString(t.Text()), s, p, y, v, s');
    UnitValue(e, y, v, s', p');
  }

  lemma {:induction false} WithKeeps(c: Config, yytext: string, rest: seq<Token>)
    requires Inv(c)
    ensures Inv(With(c, yytext, rest))
  {
    hide Next;
  }

  /** The productions of JSONValue pass their operand on. */
  lemma {:induction false} UnitProduction(p: nat, v: Json)
    requires 7 <= p <= 12
    ensures Production(p) == (JSONValue, 1)
    ensures forall yytext, vs: seq<Json> :: |vs| > 0 && vs[|vs| - 1] == v && Operands(p, vs) ==>
        PerformAction(p, yytext, vs) == v
  {
  }

  /** Any of the six nonterminals of a value becomes JSONValue. */
  lemma {:induction false} UnitValue(c: Config, y: Symbol, v: Json, s: nat, p: nat)
    requires Inv(c) && ValueState(Top(c)) && Inv(Push(c, y, v, s))
    requires 7 <= p <= 12 && Action(s, Lookahead(c).Symbol()) == Reduce(p)
    ensures Inv(Push(c, JSONValue, v, ValueGoto(Top(c))))
    ensures Run(Push(c, y, v, s)) == Run(Push(c, JSONValue, v, ValueGoto(Top(c))))
  {
    UnitProduction(p, v);
    hide Action, Table, Next, Operands, Production, PerformAction, Inv, Run;
    ValueStateGoto(Top(c));
    Unit(c, Push(c, y, v, s), y, v, s, p, JSONValue, v, ValueGoto(Top(c)));
  }

  /** What the actions of the five kinds of tokens make of them. */
  lemma {:induction false} LiteralActions(s: string)
    ensures Production(1) == (JSONString, 1) && Production(2) == (JSONNumber, 1)
    ensures Production(3) == (JSONNullLiteral, 1)
    ensures Production(4) == Production(5) == (JSONBooleanLiteral, 1)
    ensures forall vs :: Operands(1, vs) ==> PerformAction(1, s, vs) == JString(Unescape(s))
    ensures forall vs :: Operands(2, vs) ==> PerformAction(2, s, vs) == JNumber(NumberValue(s))
    ensures forall vs :: Operands(3, vs) ==> PerformAction(3, s, vs) == JNull
    ensures forall vs :: Operands(4, vs) ==> PerformAction(4, s, vs) == JBool(true)
    ensures forall vs :: Operands(5, vs) ==> PerformAction(5, s, vs) == JBool(false)
  {
    hide Unescape, NumberValue;
  }

  lemma {:induction false} LiteralRuns(c: Config, t: Tree, rest: seq<Token>) returns (yytext: string)
    requires Inv(c) && ValueState(Top(c)) && c.input == Yield(t) + rest && Continues(rest)
    requires !t.TArray? && !t.TObject?
    ensures Reaches(c, JSONValue, Meaning(t), ValueGoto(Top(c)), yytext, rest)
  {
    ValueRows(Top(c));
    LeafRows(rest[0].Symbol());
    var k := Yield(t)[0];
    yytext := k.Text();
    LiteralActions(yytext);
    hide Action, Table, Next, Unescape, NumberValue, Inv, Run, Reaches, Production, PerformAction, Operands;
    match t
    case TString(_) => LeafRuns(c, k, rest, 12, 1, JSONString, 5, 9, Meaning(t));
    case TNumber(_) => LeafRuns(c, k, rest, 13, 2, JSONNumber, 6, 10, Meaning(t));
    case TNull => LeafRuns(c, k, rest, 9, 3, JSONNullLiteral, 3, 7, Meaning(t));
    case TTrue => LeafRuns(c, k, rest, 10, 4, JSONBooleanLiteral, 4, 8, Meaning(t));
    case TFalse => LeafRuns(c, k, rest, 11, 5, JSONBooleanLiteral, 4, 8, Meaning(t));
  }

  // ---- brackets and lists ----

  /** A reduction of three symbols. */
  lemma {:induction false} Triple(
      c: Config, a: Symbol, u: Json, r: nat, b: Symbol, v: Json, s: nat, x: Symbol, w: Json, t: nat,
      p: nat, y: Symbol, z: Json, to: nat)
    requires Inv(c) && Inv(Push(Push(Push(c, a, u, r), b, v, s), x, w, t))
    requires 1 <= p <= 21 && p != 6 && Production(p) == (y, 3)
    requires Action(t, Lookahead(c).Symbol()) == Reduce(p) && Next(Top(c), y) == Goto(to)
    requires Operands(p, c.values + [u] + [v] + [w]) ==>
        PerformAction(p, c.yytext, c.values + [u] + [v] + [w]) == z
    ensures Inv(Push(c, y, z, to))
    ensures Run(Push(Push(Push(c, a, u, r), b, v, s), x, w, t)) == Run(Push(c, y, z, to))
  {
    var d := Push(Push(Push(c, a, u, r), b, v, s), x, w, t);
    assert Pop(d, 3) == c;
    hide Action, Table, Next, PerformAction, Operands, Production;
    RunReduce(c, d, p);
  }

  lemma {:induction false} Double(
      c: Config, a: Symbol, u: Json, r: nat, b: Symbol, v: Json, s: nat, p: nat, y: Symbol, z: Json, to: nat)
    requires Inv(c) && Inv(Push(Push(c, a, u, r), b, v, s))
    requires 1 <= p <= 21 && p != 6 && Production(p) == (y, 2)
    requires Action(s, Lookahead(c).Symbol()) == Reduce(p) && Next(Top(c), y) == Goto(to)
    requires Operands(p, c.values + [u] + [v]) ==> PerformAction(p, c.yytext, c.values + [u] + [v]) == z
    ensures Inv(Push(c, y, z, to))
    ensures Run(Push(Push(c, a, u, r), b, v, s)) == Run(Push(c, y, z, to))
  {
    var d := Push(Push(c, a, u, r), b, v, s);
    assert Pop(d, 2) == c;
    hide Action, Table, Next, PerformAction, Operands, Production;
    RunReduce(c, d, p);
  }

  /** The rows of the states inside an array or after one. */
  lemma {:induction false} ArrayRows(x: Symbol)
    ensures Action(15, RBRACKET) == Shift(21) && Next(15, JSONElementList) == Goto(22)
    ensures Action(22, COMMA) == Shift(28) && Action(22, RBRACKET) == Shift(27)
    ensures x in {COMMA, RBRACKET} ==> Action(23, x) == Reduce(20) && Action(31, x) == Reduce(21)
  {
    hide *;
    BracketRows();
    if x in {COMMA, RBRACKET} {
      ElementRows(x);
    }
  }

  lemma {:induction false} BracketRows()
    ensures Action(15, RBRACKET) == Shift(21) && Next(15, JSONElementList) == Goto(22)
    ensures Action(22, COMMA) == Shift(28) && Action(22, RBRACKET) == Shift(27)
  {
    hide ValueRow;
  }

  lemma {:induction false} ElementRows(x: Symbol)
    requires x in {COMMA, RBRACKET}
    ensures Action(23, x) == Reduce(20) && Action(31, x) == Reduce(21)
  {
    hide ValueRow;
  }

  lemma {:induction false} ClosingRows(x: Symbol)
    requires Follow(x)
    ensures Action(21, x) == Reduce(18) && Action(27, x) == Reduce(19)
    ensures Action(17, x) == Reduce(13) && Action(24, x) == Reduce(14)
    ensures Action(8, x) == Reduce(12) && Action(7, x) == Reduce(11)
  {
    hide ValueRow;
  }

  lemma {:induction false} ElementsRuns(c: Config, ts: seq<Tree>, rest: seq<Token>) returns (yytext: string)
    requires Inv(c) && Top(c) == 15 && ts != [] && c.input == YieldElements(ts) + rest
    requires rest != [] && rest[0].Symbol() in {COMMA, RBRACKET}
    ensures Reaches(c, JSONElementList, JArray(MeaningElements(ts)), 22, yytext, rest)
    decreases ts, 0, 0
  {
    hide Action, Table, Next, Run, Shape, PerformAction, Operands, Inv, Meaning, Yield, YieldElements, MeaningElements;
    var n := |ts| - 1;
    var last := ts[n];
    if n == 0 {
      SingletonLists(Member("", TNull), last);
      assert ts == [last];
      yytext := FirstElement(c, last, rest);
    } else {
      var front, y := ts[..n], Yield(last) + rest;
      AppendElement(front, last);
      assert ts == front + [last];
      assert c.input == YieldElements(front) + ([Fixed(COMMA)] + y);
      var text := ElementsRuns(c, front, [Fixed(COMMA)] + y);
      yytext := OneMoreElement(c, MeaningElements(front), text, last, rest);
    }
  }

  lemma {:induction false} FirstElement(c: Config, first: Tree, rest: seq<Token>) returns (yytext: string)
    requires Inv(c) && Top(c) == 15 && c.input == Yield(first) + rest
    requires rest != [] && rest[0].Symbol() in {COMMA, RBRACKET}
    ensures Reaches(c, JSONElementList, JArray([Meaning(first)]), 22, yytext, rest)
    decreases first, 2
  {
    hide Action, Table, Next, Run, Shape, PerformAction, Operands, Meaning, Yield;
    ArrayRows(rest[0].Symbol());
    yytext := ValueRuns(c, first, rest);
    var e := With(c, yytext, rest);
    WithKeeps(c, yytext, rest);
    SingleAction(e, Meaning(first));
    Unit(e, Push(e, JSONValue, Meaning(first), 23), JSONValue, Meaning(first), 23, 20,
      JSONElementList, JArray([Meaning(first)]), 22);
  }

  lemma {:induction false} OneMoreElement(c: Config, front: seq<Json>, text: string, last: Tree, rest: seq<Token>)
    returns (yytext: string)
    requires Inv(c) && Top(c) == 15 && rest != [] && rest[0].Symbol() in {COMMA, RBRACKET}
    requires Inv(Push(With(c, text, [Fixed(COMMA)] + (Yield(last) + rest)), JSONElementList, JArray(front), 22))
    ensures Inv(Push(With(c, yytext, rest), JSONElementList, JArray(front + [Meaning(last)]), 22))
    ensures Run(Push(With(c, text, [Fixed(COMMA)] + (Yield(last) + rest)), JSONElementList, JArray(front), 22)) ==
            Run(Push(With(c, yytext, rest), JSONElementList, JArray(front + [Meaning(last)]), 22))
    decreases last, 2
  {
    hide Action, Table, Next, Run, Shape, PerformAction, Operands, Production, Meaning, Yield;
    ArrayRows(rest[0].Symbol());
    var y := Yield(last) + rest;
    var list := JArray(front);
    var d := Push(With(c, text, [Fixed(COMMA)] + y), JSONElementList, list, 22);
    RunShift(d, Fixed(COMMA), y, 28);
    var e := Push(With(d, ",", y), COMMA, JString(","), 28);
    yytext := ValueRuns(e, last, rest);
    var base := With(c, yytext, rest);
    WithKeeps(c, yytext, rest);
    AppendAction(base, front, Meaning(last));
    Triple(base, JSONElementList, list, 22, COMMA, JString(","), 28, JSONValue, Meaning(last), 31,
      21, JSONElementList, JArray(front + [Meaning(last)]), 22);
  }

  lemma {:induction false} SingleAction(c: Config, v: Json)
    ensures Production(20) == (JSONElementList, 1)
    ensures PerformAction(20, c.yytext, c.values + [v]) == JArray([v])
  {
  }

  lemma {:induction false} AppendAction(c: Config, vs: seq<Json>, v: Json)
    ensures Production(21) == (JSONElementList, 3)
    ensures var stack := c.values + [JArray(vs)] + [JString(",")] + [v];
        Operands(21, stack) && PerformAction(21, c.yytext, stack) == JArray(vs + [v])
  {
  }

  lemma {:induction false} ValueRuns(c: Config, t: Tree, rest: seq<Token>) returns (yytext: string)
    requires Inv(c) && ValueState(Top(c)) && c.input == Yield(t) + rest && Continues(rest)
    ensures Reaches(c, JSONValue, Meaning(t), ValueGoto(Top(c)), yytext, rest)
    decreases t, 1
  {
    if t.TArray? {
      yytext := ArrayRuns(c, t.elements, rest);
    } else if t.TObject? {
      yytext := ObjectRuns(c, t.members, rest);
    } else {
      yytext := LiteralRuns(c, t, rest);
    }
  }

  lemma {:induction false} EmptyActions()
    ensures Production(18) == (JSONArray, 2) && Production(13) == (JSONObject, 2)
    ensures forall text, base: seq<Json>, a, b :: PerformAction(18, text, base + [a] + [b]) == JArray([])
    ensures forall text, base: seq<Json>, a, b :: PerformAction(13, text, base + [a] + [b]) == JObject(map[])
  {
  }

  /** The bracket actions pass on what is between the brackets. */
  lemma {:induction false} BracketAction(p: nat, text: string, base: seq<Json>, a: Json, v: Json, b: Json)
    requires p in {14, 19}
    ensures Production(p) == (if p == 19 then JSONArray else JSONObject, 3)
    ensures Operands(p, base + [a] + [v] + [b]) && PerformAction(p, text, base + [a] + [v] + [b]) == v
  {
  }

  lemma {:induction false} EmptyBrackets(
      c: Config, open: Token, o: nat, close: Token, s: nat, p: nat, y: Symbol, v: Json, to: nat, rest: seq<Token>)
    requires Inv(c) && c.input == [open, close] + rest && rest != []
    requires Action(Top(c), open.Symbol()) == Shift(o) && Action(o, close.Symbol()) == Shift(s)
    requires 1 <= p <= 21 && p != 6 && Production(p) == (y, 2)
    requires Action(s, rest[0].Symbol()) == Reduce(p) && Next(Top(c), y) == Goto(to)
    requires PerformAction(p, close.Text(), c.values + [JString(open.Text())] + [JString(close.Text())]) == v
    ensures Reaches(c, y, v, to, close.Text(), rest)
  {
    hide Action, Table, Next, Run, Shape, PerformAction, Operands, Production;
    var base := With(c, close.Text(), rest);
    WithKeeps(c, close.Text(), rest);
    assert c.input == [open] + ([close] + rest);
    RunShift(c, open, [close] + rest, o);
    RunShift(Push(With(c, open.Text(), [close] + rest), open.Symbol(), JString(open.Text()), o), close, rest, s);
    Double(base, open.Symbol(), JString(open.Text()), o, close.Symbol(), JString(close.Text()), s, p, y, v, to);
  }

  lemma {:induction false} ArrayRuns(c: Config, ts: seq<Tree>, rest: seq<Token>) returns (yytext: string)
    requires Inv(c) && ValueState(Top(c)) && c.input == Yield(TArray(ts)) + rest && Continues(rest)
    ensures Reaches(c, JSONValue, JArray(MeaningElements(ts)), ValueGoto(Top(c)), yytext, rest)
    decreases ts, 1
  {
    hide Action, Table, Next, Run, Shape, PerformAction, Operands, Production;
    ValueRows(Top(c));
    ArrayRows(rest[0].Symbol());
    ClosingRows(rest[0].Symbol());
    EmptyActions();
    yytext := "]";
    var open, close := Fixed(LBRACKET), Fixed(RBRACKET);
    var v := JArray(MeaningElements(ts));
    if ts == [] {
      assert c.input == [open, close] + rest;
      EmptyBrackets(c, open, 15, close, 21, 18, JSONArray, v, 8, rest);
    } else {
      FullArray(c, ts, rest);
    }
    WithKeeps(c, yytext, rest);
    UnitValue(With(c, yytext, rest), JSONArray, v, 8, 12);
  }

  /** The bracket after a list, and the reduction it allows. */
  lemma {:induction false} CloseBracket(
      c: Config, text: string, a: Symbol, u: Json, r: nat, b: Symbol, v: Json, s: nat, close: Token, rest: seq<Token>,
      k: nat, p: nat, y: Symbol, to: nat)
    requires Inv(c) && Inv(Push(Push(With(c, text, [close] + rest), a, u, r), b, v, s)) && rest != []
    requires Action(s, close.Symbol()) == Shift(k) && p in {14, 19}
    requires y == (if p == 19 then JSONArray else JSONObject) && Next(Top(c), y) == Goto(to)
    requires Action(k, rest[0].Symbol()) == Reduce(p)
    ensures Inv(Push(With(c, close.Text(), rest), y, v, to))
    ensures Run(Push(Push(With(c, text, [close] + rest), a, u, r), b, v, s)) ==
            Run(Push(With(c, close.Text(), rest), y, v, to))
  {
    hide Action, Table, Next, Run, Shape, PerformAction, Operands, Production;
    var base, w := With(c, close.Text(), rest), JString(close.Text());
    WithKeeps(c, close.Text(), rest);
    BracketAction(p, close.Text(), c.values, u, v, w);
    RunShift(Push(Push(With(c, text, [close] + rest), a, u, r), b, v, s), close, rest, k);
    Triple(base, a, u, r, b, v, s, close.Symbol(), w, k, p, y, v, to);
  }

  lemma {:induction false} FullArray(c: Config, ts: seq<Tree>, rest: seq<Token>)
    requires Inv(c) && ValueState(Top(c)) && c.input == Yield(TArray(ts)) + rest && Continues(rest)
    requires ts != []
    ensures Reaches(c, JSONArray, JArray(MeaningElements(ts)), 8, "]", rest)
    decreases ts, 0, 1
  {
    hide Action, Table, Next, Run, Shape, PerformAction, Operands, Production;
    ValueRows(Top(c));
    ArrayRows(rest[0].Symbol());
    ClosingRows(rest[0].Symbol());
    var close := [Fixed(RBRACKET)] + rest;
    var body := YieldElements(ts) + close;
    var l, v := JString("["), JArray(MeaningElements(ts));
    assert c.input == [Fixed(LBRACKET)] + body;
    assert |c.states| == |c.symbols| + 1;
    hide Inv, Follow, Yield, YieldElements, Meaning, MeaningElements;
    RunShift(c, Fixed(LBRACKET), body, 15);
    var d := Push(With(c, "[", body), LBRACKET, l, 15);
    var text := ElementsRuns(d, ts, close);
    CloseBracket(c, text, LBRACKET, l, 15, JSONElementList, v, 22, Fixed(RBRACKET), rest, 27, 19, JSONArray, 8);
  }

  // ---- objects ----

  lemma {:induction false} ObjectRows()
    ensures Action(14, RBRACE) == Shift(17) && Next(14, JSONMemberList) == Goto(18)
    ensures Action(18, COMMA) == Shift(25) && Action(18, RBRACE) == Shift(24)
  {
    hide ValueRow;
  }

  lemma {:induction false} MemberListRows(x: Symbol)
    requires x in {COMMA, RBRACE}
    ensures Action(19, x) == Reduce(16) && Action(29, x) == Reduce(17)
    ensures Next(14, JSONMember) == Goto(19) && Next(25, JSONMember) == Goto(29)
  {
    hide ValueRow;
  }

  lemma {:induction false} MemberRows(x: Symbol)
    requires x in {COMMA, RBRACE}
    ensures Action(14, STRING) == Shift(12) && Action(25, STRING) == Shift(12)
    ensures Next(14, JSONString) == Goto(20) && Next(25, JSONString) == Goto(20)
    ensures Action(12, COLON) == Reduce(1) && Action(20, COLON) == Shift(26)
    ensures Action(30, x) == Reduce(15)
  {
    hide *;
    KeyRows();
    ColonRows(x);
  }

  lemma {:induction false} KeyRows()
    ensures Action(14, STRING) == Shift(12) && Action(25, STRING) == Shift(12)
    ensures Next(14, JSONString) == Goto(20) && Next(25, JSONString) == Goto(20)
  {
    hide ValueRow;
  }

  lemma {:induction false} ColonRows(x: Symbol)
    requires x in {COMMA, RBRACE}
    ensures Action(12, COLON) == Reduce(1) && Action(20, COLON) == Shift(26) && Action(30, x) == Reduce(15)
  {
    hide ValueRow;
  }

  function MemberGoto(state: nat): nat {
    if state == 14 then 19 else 29
  }

  function PairOf(m: Member): Json {
    JArray([JString(Unescape(m.key)), Meaning(m.value)])
  }

  lemma {:induction false} MemberActions(yytext: string, base: seq<Json>, m: Member, ms: map<string, Json>)
    ensures Production(1) == (JSONString, 1) && Production(15) == (JSONMember, 3)
    ensures Production(16) == (JSONMemberList, 1) && Production(17) == (JSONMemberList, 3)
    ensures PerformAction(1, m.key, base + [JString(m.key)]) == JString(Unescape(m.key))
    ensures var stack := base + [JString(Unescape(m.key))] + [JString(":")] + [Meaning(m.value)];
        Operands(15, stack) && PerformAction(15, yytext, stack) == PairOf(m)
    ensures Operands(16, base + [PairOf(m)])
    ensures PerformAction(16, yytext, base + [PairOf(m)]) == JObject(map[Unescape(m.key) := Meaning(m.value)])
    ensures var stack := base + [JObject(ms)] + [JString(",")] + [PairOf(m)];
        Operands(17, stack) && PerformAction(17, yytext, stack) == JObject(ms[Unescape(m.key) := Meaning(m.value)])
  {
    hide Unescape, Meaning;
  }

  lemma {:induction false} MemberRuns(c: Config, m: Member, rest: seq<Token>) returns (yytext: string)
    requires Inv(c) && Top(c) in {14, 25} && c.input == YieldMember(m) + rest
    requires rest != [] && rest[0].Symbol() in {COMMA, RBRACE}
    ensures Reaches(c, JSONMember, PairOf(m), MemberGoto(Top(c)), yytext, rest)
    decreases m, 0
  {
    hide Action, Table, Next, Run, Shape, PerformAction, Operands, Production, Unescape, Meaning;
    MemberListRows(rest[0].Symbol());
    MemberRows(rest[0].Symbol());
    MemberActions("", c.values, m, map[]);
    var key := JString(Unescape(m.key));
    var body := Yield(m.value) + rest;
    var colon := [Fixed(COLON)] + body;
    assert c.input == [StringToken(m.key)] + colon;
    RunShift(c, StringToken(m.key), colon, 12);
    var d := With(c, m.key, colon);
    WithKeeps(c, m.key, colon);
    Unit(d, Push(d, STRING, JString(m.key), 12), STRING, JString(m.key), 12, 1, JSONString, key, 20);
    RunShift(Push(d, JSONString, key, 20), Fixed(COLON), body, 26);
    var e := Push(Push(With(c, ":", body), JSONString, key, 20), COLON, JString(":"), 26);
    yytext := ValueRuns(e, m.value, rest);
    var base := With(c, yytext, rest);
    WithKeeps(c, yytext, rest);
    MemberActions(yytext, c.values, m, map[]);
    Triple(base, JSONString, key, 20, COLON, JString(":"), 26, JSONValue, Meaning(m.value), 30,
      15, JSONMember, PairOf(m), MemberGoto(Top(c)));
  }

  lemma {:induction false} MembersRuns(c: Config, ms: seq<Member>, rest: seq<Token>) returns (yytext: string)
    requires Inv(c) && Top(c) == 14 && ms != [] && c.input == YieldMembers(ms) + rest
    requires rest != [] && rest[0].Symbol() in {COMMA, RBRACE}
    ensures Reaches(c, JSONMemberList, JObject(MeaningMembers(ms)), 18, yytext, rest)
    decreases ms, 0, 0
  {
    hide Action, Table, Next, Run, Shape, PerformAction, Operands, Inv, Unescape, Meaning, YieldMember, PairOf;
    hide YieldMembers, MeaningMembers;
    var n := |ms| - 1;
    var last := ms[n];
    if n == 0 {
      SingletonLists(last, TNull);
      assert ms == [last];
      yytext := FirstMember(c, last, rest);
    } else {
      var front, y := ms[..n], YieldMember(last) + rest;
      AppendMember(front, last);
      assert ms == front + [last];
      assert c.input == YieldMembers(front) + ([Fixed(COMMA)] + y);
      var text := MembersRuns(c, front, [Fixed(COMMA)] + y);
      yytext := OneMoreMember(c, MeaningMembers(front), text, last, rest);
    }
  }

  lemma {:induction false} FirstMember(c: Config, first: Member, rest: seq<Token>) returns (yytext: string)
    requires Inv(c) && Top(c) == 14 && c.input == YieldMember(first) + rest
    requires rest != [] && rest[0].Symbol() in {COMMA, RBRACE}
    ensures Reaches(c, JSONMemberList, JObject(map[Unescape(first.key) := Meaning(first.value)]), 18, yytext, rest)
    decreases first, 2
  {
    hide Action, Table, Next, Run, Shape, PerformAction, Operands, Production, Unescape, Meaning, PairOf, YieldMember;
    ObjectRows();
    MemberListRows(rest[0].Symbol());
    yytext := MemberRuns(c, first, rest);
    var e := With(c, yytext, rest);
    WithKeeps(c, yytext, rest);
    MemberActions(yytext, c.values, first, map[]);
    Unit(e, Push(e, JSONMember, PairOf(first), 19), JSONMember, PairOf(first), 19, 16,
      JSONMemberList, JObject(map[Unescape(first.key) := Meaning(first.value)]), 18);
  }

  lemma {:induction false} OneMoreMember(
      c: Config, front: map<string, Json>, text: string, last: Member, rest: seq<Token>)
    returns (yytext: string)
    requires Inv(c) && Top(c) == 14 && rest != [] && rest[0].Symbol() in {COMMA, RBRACE}
    requires Inv(Push(With(c, text, [Fixed(COMMA)] + (YieldMember(last) + rest)), JSONMemberList, JObject(front), 18))
    ensures var all := JObject(front[Unescape(last.key) := Meaning(last.value)]);
        && Inv(Push(With(c, yytext, rest), JSONMemberList, all, 18))
        && Run(Push(With(c, text, [Fixed(COMMA)] + (YieldMember(last) + rest)), JSONMemberList, JObject(front), 18)) ==
           Run(Push(With(c, yytext, rest), JSONMemberList, all, 18))
    decreases last, 2
  {
    hide Action, Table, Next, Run, Shape, PerformAction, Operands, Production, Unescape, Meaning, PairOf, YieldMember;
    ObjectRows();
    MemberListRows(rest[0].Symbol());
    var y := YieldMember(last) + rest;
    var list := JObject(front);
    var d := Push(With(c, text, [Fixed(COMMA)] + y), JSONMemberList, list, 18);
    RunShift(d, Fixed(COMMA), y, 25);
    var e := Push(With(d, ",", y), COMMA, JString(","), 25);
    yytext := MemberRuns(e, last, rest);
    var base := With(c, yytext, rest);
    WithKeeps(c, yytext, rest);
    MemberActions(yytext, c.values, last, front);
    Triple(base, JSONMemberList, list, 18, COMMA, JString(","), 25, JSONMember, PairOf(last), 29,
      17, JSONMemberList, JObject(front[Unescape(last.key) := Meaning(last.value)]), 18);
  }

  lemma {:induction false} ObjectRuns(c: Config, ms: seq<Member>, rest: seq<Token>) returns (yytext: string)
    requires Inv(c) && ValueState(Top(c)) && c.input == Yield(TObject(ms)) + rest && Continues(rest)
    ensures Reaches(c, JSONValue, JObject(MeaningMembers(ms)), ValueGoto(Top(c)), yytext, rest)
    decreases ms, 1
  {
    hide Action, Table, Next, Run, Shape, PerformAction, Operands, Production, Unescape, Meaning;
    ValueRows(Top(c));
    ObjectRows();
    ClosingRows(rest[0].Symbol());
    EmptyActions();
    yytext := "}";
    var open, close := Fixed(LBRACE), Fixed(RBRACE);
    var v := JObject(MeaningMembers(ms));
    if ms == [] {
      assert c.input == [open, close] + rest;
      EmptyBrackets(c, open, 14, close, 17, 13, JSONObject, v, 7, rest);
    } else {
      FullObject(c, ms, rest);
    }
    WithKeeps(c, yytext, rest);
    UnitValue(With(c, yytext, rest), JSONObject, v, 7, 11);
  }

  lemma {:induction false} FullObject(c: Config, ms: seq<Member>, rest: seq<Token>)
    requires Inv(c) && ValueState(Top(c)) && c.input == Yield(TObject(ms)) + rest && Continues(rest)
    requires ms != []
    ensures Reaches(c, JSONObject, JObject(MeaningMembers(ms)), 7, "}", rest)
    decreases ms, 0, 1
  {
    hide Action, Table, Next, Run, Shape, PerformAction, Operands, Production, Unescape, Meaning;
    ValueRows(Top(c));
    ObjectRows();
    ClosingRows(rest[0].Symbol());
    var close := [Fixed(RBRACE)] + rest;
    var body := YieldMembers(ms) + close;
    var l, v := JString("{"), JObject(MeaningMembers(ms));
    assert c.input == [Fixed(LBRACE)] + body;
    assert |c.states| == |c.symbols| + 1;
    hide Inv, Follow, Yield, YieldMembers, MeaningMembers;
    RunShift(c, Fixed(LBRACE), body, 14);
    var d := Push(With(c, "{", body), LBRACE, l, 14);
    var text := MembersRuns(d, ms, close);
    CloseBracket(c, text, LBRACE, l, 14, JSONMemberList, v, 18, Fixed(RBRACE), rest, 24, 14, JSONObject, 7);
  }

  /** The parser accepts every derivation of JSONText and returns its value. */
  lemma {:induction false} ParserComplete(t: Tree, junk: seq<Token>)
    ensures Parse(Yield(t) + [Fixed(EOF)] + junk) == Ok(Meaning(t))
  {
    assert Yield(t) + [Fixed(EOF)] + junk == Yield(t) + ([Fixed(EOF)] + junk);
    hide Yield, Meaning, Run;
    CompleteFrom(Start(Yield(t) + ([Fixed(EOF)] + junk)), t, junk);
  }

  lemma {:induction false} CompleteFrom(c: Config, t: Tree, junk: seq<Token>)
    requires Inv(c) && Top(c) == 0 && c.input == Yield(t) + ([Fixed(EOF)] + junk)
    ensures Run(c) == Ok(Meaning(t))
  {
    var end := [Fixed(EOF)] + junk;
    EndRow();
    hide Action, Table, Next, Shape, PerformAction, Operands, Production, Yield, Meaning, Run;
    var text := ValueRuns(c, t, end);
    var d := Push(With(c, text, end), JSONValue, Meaning(t), 2);
    RunShift(d, Fixed(EOF), junk, 16);
    FinalStep(Push(With(d, "", junk), EOF, JString(""), 16), Meaning(t));
  }

  lemma {:induction false} EndRow()
    ensures Action(2, EOF) == Shift(16)
  {
  }

  lemma {:induction false} FinalStep(c: Config, v: Json)
    requires Inv(c) && Top(c) == 16 && |c.values| >= 2 && c.values[|c.values| - 2] == v
    ensures Run(c) == Ok(v)
  {
  }
}
