/** The table-driven LALR(1) parser for JSON: its table, its productions and its loop. */
module JsonParser {
  import opened JsonValues
  import opened Wrappers

  /** Terminals and nonterminals; `symbols_` numbers them 2..25, with $accept 0 and $end 1. */
  datatype Symbol =
    | STRING | NUMBER | NULL | TRUE | FALSE | EOF
    | LBRACE | RBRACE | COLON | COMMA | LBRACKET | RBRACKET | END | INVALID
    | JSONString | JSONNumber | JSONNullLiteral | JSONBooleanLiteral | JSONText | JSONValue
    | JSONObject | JSONMemberList | JSONMember | JSONArray | JSONElementList

  /** The terminals with a fixed text. */
  type Constant = x: Symbol | IsConstant(x) witness EOF

  predicate IsConstant(x: Symbol) {
    match x
    case NULL => true
    case TRUE => true
    case FALSE => true
    case EOF => true
    case LBRACE => true
    case RBRACE => true
    case COLON => true
    case COMMA => true
    case LBRACKET => true
    case RBRACKET => true
    case END => true
    case _ => false
  }

  /** A token carries its text where the text is not determined by its symbol. */
  datatype Token =
    | StringToken(text: string) | NumberToken(text: string) | InvalidToken(text: string)
    | Fixed(symbol: Constant)
  {
    function Symbol(): Symbol {
      match this
      case StringToken(_) => STRING
      case NumberToken(_) => NUMBER
      case InvalidToken(_) => INVALID
      case Fixed(x) => x
    }

    /** The lexer's yytext: for a string without its quotes, empty at the end of the input. */
    function Text(): string {
      match this
      case StringToken(s) => s
      case NumberToken(s) => s
      case InvalidToken(s) => s
      case Fixed(x) =>
        match x
        case NULL => "null"
        case TRUE => "true"
        case FALSE => "false"
        case LBRACE => "{"
        case RBRACE => "}"
        case COLON => ":"
        case COMMA => ","
        case LBRACKET => "["
        case RBRACKET => "]"
        case _ => ""
    }
  }

  datatype Entry = Error | Shift(to: nat) | Reduce(production: nat) | Accept | Goto(to: nat)

  // ---- the table, row by row ----

  /** The part shared by the rows of states 0, 15, 26 and 28, where a value may start. */
  function ValueRow(x: Symbol): (e: Entry)
    ensures !e.Reduce? && !e.Accept?
  {
    match x
    case JSONString => Goto(5)
    case STRING => Shift(12)
    case JSONNumber => Goto(6)
    case NUMBER => Shift(13)
    case JSONNullLiteral => Goto(3)
    case NULL => Shift(9)
    case JSONBooleanLiteral => Goto(4)
    case TRUE => Shift(10)
    case FALSE => Shift(11)
    case JSONObject => Goto(7)
    case JSONArray => Goto(8)
    case LBRACE => Shift(14)
    case LBRACKET => Shift(15)
    case _ => Error
  }

  /** The tokens that may follow a value. */
  predicate Follow(x: Symbol) {
    x == EOF || x == RBRACE || x == COMMA || x == RBRACKET
  }

  function ReduceOnFollow(p: nat, x: Symbol): (e: Entry)
    ensures e in {Error, Reduce(p)}
  {
    if Follow(x) then Reduce(p) else Error
  }

  function Table(state: nat, x: Symbol): Entry {
    match state
    case 0 => if x == JSONText then Goto(1) else if x == JSONValue then Goto(2) else ValueRow(x)
    case 1 => if x == END then Accept else Error
    case 2 => if x == EOF then Shift(16) else Error
    case 3 => ReduceOnFollow(7, x)
    case 4 => ReduceOnFollow(8, x)
    case 5 => ReduceOnFollow(9, x)
    case 6 => ReduceOnFollow(10, x)
    case 7 => ReduceOnFollow(11, x)
    case 8 => ReduceOnFollow(12, x)
    case 9 => ReduceOnFollow(3, x)
    case 10 => ReduceOnFollow(4, x)
    case 11 => ReduceOnFollow(5, x)
    case 12 => if x == COLON then Reduce(1) else ReduceOnFollow(1, x)
    case 13 => ReduceOnFollow(2, x)
    case 14 =>
      if x == JSONString then Goto(20) else if x == STRING then Shift(12)
      else if x == RBRACE then Shift(17) else if x == JSONMemberList then Goto(18)
      else if x == JSONMember then Goto(19) else Error
    case 15 =>
      if x == JSONValue then Goto(23) else if x == RBRACKET then Shift(21)
      else if x == JSONElementList then Goto(22) else ValueRow(x)
    case 16 => if x == END then Reduce(6) else Error
    case 17 => ReduceOnFollow(13, x)
    case 18 => if x == RBRACE then Shift(24) else if x == COMMA then Shift(25) else Error
    case 19 => if x == RBRACE || x == COMMA then Reduce(16) else Error
    case 20 => if x == COLON then Shift(26) else Error
    case 21 => ReduceOnFollow(18, x)
    case 22 => if x == COMMA then Shift(28) else if x == RBRACKET then Shift(27) else Error
    case 23 => if x == COMMA || x == RBRACKET then Reduce(20) else Error
    case 24 => ReduceOnFollow(14, x)
    case 25 =>
      if x == JSONString then Goto(20) else if x == STRING then Shift(12)
      else if x == JSONMember then Goto(29) else Error
    case 26 => if x == JSONValue then Goto(30) else ValueRow(x)
    case 27 => ReduceOnFollow(19, x)
    case 28 => if x == JSONValue then Goto(31) else ValueRow(x)
    case 29 => if x == RBRACE || x == COMMA then Reduce(17) else Error
    case 30 => if x == RBRACE || x == COMMA then Reduce(15) else Error
    case 31 => if x == COMMA || x == RBRACKET then Reduce(21) else Error
    case _ => Error
  }

  /** `defaultActions` is consulted before the lookahead. */
  function Action(state: nat, x: Symbol): Entry {
    if state == 16 then Reduce(6) else Table(state, x)
  }

  /** The left side of a production and the length of its right side. */
  function Production(p: nat): (Symbol, nat) {
    match p
    case 1 => (JSONString, 1)
    case 2 => (JSONNumber, 1)
    case 3 => (JSONNullLiteral, 1)
    case 4 => (JSONBooleanLiteral, 1)
    case 5 => (JSONBooleanLiteral, 1)
    case 6 => (JSONText, 2)
    case 7 => (JSONValue, 1)
    case 8 => (JSONValue, 1)
    case 9 => (JSONValue, 1)
    case 10 => (JSONValue, 1)
    case 11 => (JSONValue, 1)
    case 12 => (JSONValue, 1)
    case 13 => (JSONObject, 2)
    case 14 => (JSONObject, 3)
    case 15 => (JSONMember, 3)
    case 16 => (JSONMemberList, 1)
    case 17 => (JSONMemberList, 3)
    case 18 => (JSONArray, 2)
    case 19 => (JSONArray, 3)
    case 20 => (JSONElementList, 1)
    case _ => (JSONElementList, 3)
  }

  // ---- semantic actions ----

  /** A member on the value stack is a pair [key, value]. */
  predicate IsPair(v: Json) {
    v.JArray? && |v.items| == 2 && v.items[0].JString?
  }

  function Assign(target: Json, pair: Json): Json
    requires target.JObject? && IsPair(pair)
  {
    JObject(target.members[pair.items[0].s := pair.items[1]])
  }

  /** The operands an action relies on have the right shape. */
  predicate Operands(p: nat, vs: seq<Json>) {
    && |vs| >= Production(p).1
    && (p == 15 ==> vs[|vs| - 3].JString?)
    && (p == 16 ==> IsPair(vs[|vs| - 1]))
    && (p == 17 ==> IsPair(vs[|vs| - 1]) && vs[|vs| - 3].JObject?)
    && (p == 21 ==> vs[|vs| - 3].JArray?)
  }

  /** The value of the left side; the default is that of the first symbol on the right. */
  function PerformAction(p: nat, yytext: string, vs: seq<Json>): Json
    requires 1 <= p <= 21 && Operands(p, vs)
  {
    var top := |vs| - 1;
    match p
    case 1 => JString(Unescape(yytext))
    case 2 => JNumber(NumberValue(yytext))
    case 3 => JNull
    case 4 => JBool(true)
    case 5 => JBool(false)
    case 6 => vs[top - 1]
    case 13 => JObject(map[])
    case 14 => vs[top - 1]
    case 15 => JArray([vs[top - 2], vs[top]])
    case 16 => Assign(JObject(map[]), vs[top])
    case 17 => Assign(vs[top - 2], vs[top])
    case 18 => JArray([])
    case 19 => vs[top - 1]
    case 20 => JArray([vs[top]])
    case 21 => JArray(vs[top - 2].items + [vs[top]])
    case _ => vs[top]
  }

  // ---- the machine ----

  /** The stacks of the loop. The program interleaves states and symbols in one array; `values`
      starts with the `null` that lies under the first symbol. */
  datatype Config = Config(
    states: seq<nat>, symbols: seq<Symbol>, values: seq<Json>, yytext: string, input: seq<Token>)

  type Outcome = Result<Json>

  /** The state a symbol leads to. */
  function Next(state: nat, x: Symbol): Entry {
    match Table(state, x)
    case Shift(s) => Goto(s)
    case Goto(s) => Goto(s)
    case _ => Error
  }

  ghost predicate Shape(x: Symbol, v: Json) {
    match x
    case JSONString => v.JString?
    case JSONMember => IsPair(v)
    case JSONMemberList => v.JObject?
    case JSONElementList => v.JArray?
    case _ => true
  }

  /** What every reachable stack satisfies: the stacks keep their length relation, every state
      is the one the table leads to from below, and every value fits its symbol. */
  ghost predicate Inv(c: Config) {
    && |c.states| == |c.symbols| + 1 == |c.values|
    && c.states[0] == 0
    && (forall i :: 0 <= i < |c.symbols| ==> Next(c.states[i], c.symbols[i]) == Goto(c.states[i + 1]))
    && (forall i :: 0 <= i < |c.symbols| ==> Shape(c.symbols[i], c.values[i + 1]))
  }

  function Start(input: seq<Token>): (c: Config)
    ensures Inv(c)
  {
    Config([0], [], [JNull], "", input)
  }

  function Lookahead(c: Config): Token {
    if c.input == [] then Fixed(END) else c.input[0]
  }

  /** The symbol that brought the machine into a state: in a reachable stack it lies below it. */
  function Accessing(state: nat): Symbol {
    match state
    case 1 => JSONText
    case 2 => JSONValue
    case 3 => JSONNullLiteral
    case 4 => JSONBooleanLiteral
    case 5 => JSONString
    case 6 => JSONNumber
    case 7 => JSONObject
    case 8 => JSONArray
    case 9 => NULL
    case 10 => TRUE
    case 11 => FALSE
    case 12 => STRING
    case 13 => NUMBER
    case 14 => LBRACE
    case 15 => LBRACKET
    case 16 => EOF
    case 17 => RBRACE
    case 18 => JSONMemberList
    case 19 => JSONMember
    case 20 => JSONString
    case 21 => RBRACKET
    case 22 => JSONElementList
    case 23 => JSONValue
    case 24 => RBRACE
    case 25 => COMMA
    case 26 => COLON
    case 27 => RBRACKET
    case 28 => COMMA
    case 29 => JSONMember
    case 30 => JSONValue
    case _ => JSONValue
  }

  /** The states below: where a state can have been entered from. */
  predicate Below(state: nat, from: nat) {
    match state
    case 1 => from == 0
    case 2 => from == 0
    case 16 => from == 2
    case 17 => from == 14
    case 18 => from == 14
    case 19 => from == 14
    case 20 => from == 14 || from == 25
    case 21 => from == 15
    case 22 => from == 15
    case 23 => from == 15
    case 24 => from == 18
    case 25 => from == 18
    case 26 => from == 20
    case 27 => from == 22
    case 28 => from == 22
    case 29 => from == 25
    case 30 => from == 26
    case 31 => from == 28
    case 12 => from in {0, 14, 15, 25, 26, 28}
    case _ => from in {0, 15, 26, 28}
  }

  lemma {:induction false} ValueRowInverse(x: Symbol)
    ensures match ValueRow(x)
            case Shift(s) => 3 <= s <= 15 && x == Accessing(s)
            case Goto(s) => 3 <= s <= 15 && x == Accessing(s)
            case other => other == Error
  {
  }

  lemma {:induction false} NextFromValue(from: nat, x: Symbol, state: nat)
    requires from in {0, 15, 26, 28} && Next(from, x) == Goto(state)
    ensures 0 < state <= 31 && x == Accessing(state) && Below(state, from)
  {
    ValueRowInverse(x);
    hide ValueRow;
  }

  lemma {:induction false} NextFromMembers(from: nat, x: Symbol, state: nat)
    requires from in {2, 14, 18, 20, 22, 25} && Next(from, x) == Goto(state)
    ensures 0 < state <= 31 && x == Accessing(state) && Below(state, from)
  {
  }

  lemma {:induction false} NextFromLow(from: nat, x: Symbol)
    requires from < 14 && from !in {0, 2}
    ensures Next(from, x) == Error
  {
  }

  lemma {:induction false} NextFromHigh(from: nat, x: Symbol)
    requires from > 15 && from !in {18, 20, 22, 25, 26, 28}
    ensures Next(from, x) == Error
  {
  }

  lemma {:induction false} NextFromOther(from: nat, x: Symbol)
    requires from !in {0, 15, 26, 28} && from !in {2, 14, 18, 20, 22, 25}
    ensures Next(from, x) == Error
  {
    hide *;
    if from < 14 {
      NextFromLow(from, x);
    } else {
      NextFromHigh(from, x);
    }
  }
  /** A state tells the symbol on top of the stack and the states it can lie on. */
  lemma {:induction false} NextInverse(from: nat, x: Symbol, state: nat)
    requires Next(from, x) == Goto(state)
    ensures 0 < state <= 31 && x == Accessing(state) && Below(state, from)
  {
    hide *;
    if from in {0, 15, 26, 28} {
      NextFromValue(from, x, state);
    } else if from in {2, 14, 18, 20, 22, 25} {
      NextFromMembers(from, x, state);
    } else {
      NextFromOther(from, x);
    }
  }

  // ---- reductions: the right side of the production is what lies on the stack ----

  function RightSide(p: nat): seq<Symbol> {
    match p
    case 1 => [STRING]
    case 2 => [NUMBER]
    case 3 => [NULL]
    case 4 => [TRUE]
    case 5 => [FALSE]
    case 6 => [JSONValue, EOF]
    case 7 => [JSONNullLiteral]
    case 8 => [JSONBooleanLiteral]
    case 9 => [JSONString]
    case 10 => [JSONNumber]
    case 11 => [JSONObject]
    case 12 => [JSONArray]
    case 13 => [LBRACE, RBRACE]
    case 14 => [LBRACE, JSONMemberList, RBRACE]
    case 15 => [JSONString, COLON, JSONValue]
    case 16 => [JSONMember]
    case 17 => [JSONMemberList, COMMA, JSONMember]
    case 18 => [LBRACKET, RBRACKET]
    case 19 => [LBRACKET, JSONElementList, RBRACKET]
    case 20 => [JSONValue]
    case _ => [JSONElementList, COMMA, JSONValue]
  }

  /** The production a state reduces by; 0 for none. */
  function ReducedBy(state: nat): nat {
    match state
    case 3 => 7
    case 4 => 8
    case 5 => 9
    case 6 => 10
    case 7 => 11
    case 8 => 12
    case 9 => 3
    case 10 => 4
    case 11 => 5
    case 12 => 1
    case 13 => 2
    case 16 => 6
    case 17 => 13
    case 19 => 16
    case 21 => 18
    case 23 => 20
    case 24 => 14
    case 27 => 19
    case 29 => 17
    case 30 => 15
    case 31 => 21
    case _ => 0
  }

  lemma {:induction false} ReduceStateLow(state: nat, x: Symbol, p: nat)
    requires state < 12 && Action(state, x) == Reduce(p)
    ensures ReducedBy(state) == p && 1 <= p <= 21 && state > 0
  {
    ValueRowInverse(x);
    hide ValueRow;
  }

  lemma {:induction false} ReduceStateToken(state: nat, x: Symbol, p: nat)
    requires 12 <= state < 16 && Action(state, x) == Reduce(p)
    ensures ReducedBy(state) == p && 1 <= p <= 21 && state > 0
  {
    ValueRowInverse(x);
    hide ValueRow;
  }

  lemma {:induction false} ReduceStateMiddle(state: nat, x: Symbol, p: nat)
    requires 16 <= state < 20 && Action(state, x) == Reduce(p)
    ensures ReducedBy(state) == p && 1 <= p <= 21 && state > 0
  {
    ValueRowInverse(x);
    hide ValueRow;
  }

  lemma {:induction false} ReduceStateHigh(state: nat, x: Symbol, p: nat)
    requires 20 <= state && Action(state, x) == Reduce(p)
    ensures ReducedBy(state) == p && 1 <= p <= 21 && state > 0
  {
    ValueRowInverse(x);
    hide ValueRow;
  }

  lemma {:induction false} ReduceState(state: nat, x: Symbol, p: nat)
    requires Action(state, x) == Reduce(p)
    ensures ReducedBy(state) == p && 1 <= p <= 21 && state > 0
  {
    hide *;
    if state < 12 {
      ReduceStateLow(state, x, p);
    } else if state < 16 {
      ReduceStateToken(state, x, p);
    } else if state < 20 {
      ReduceStateMiddle(state, x, p);
    } else {
      ReduceStateHigh(state, x, p);
    }
  }

  /** The three uppermost links of a reachable stack. */
  lemma {:induction false} TopLinks(c: Config)
    requires Inv(c)
    ensures var h := |c.symbols|;
        && (c.states[h] > 0 ==>
             h > 0 && c.symbols[h - 1] == Accessing(c.states[h]) && Below(c.states[h], c.states[h - 1]))
        && (h > 0 && c.states[h - 1] > 0 ==>
             h > 1 && c.symbols[h - 2] == Accessing(c.states[h - 1]) && Below(c.states[h - 1], c.states[h - 2]))
        && (h > 1 && c.states[h - 2] > 0 ==>
             h > 2 && c.symbols[h - 3] == Accessing(c.states[h - 2]) && Below(c.states[h - 2], c.states[h - 3]))
  {
    var h := |c.symbols|;
    hide Accessing, Below, Next;
    if h > 0 {
      NextInverse(c.states[h - 1], c.symbols[h - 1], c.states[h]);
    }
    if h > 1 {
      NextInverse(c.states[h - 2], c.symbols[h - 2], c.states[h - 1]);
    }
    if h > 2 {
      NextInverse(c.states[h - 3], c.symbols[h - 3], c.states[h - 2]);
    }
  }

  /** The right side of production p, as the symbols and states above state `base`. */
  ghost predicate Handle(p: nat, s3: nat, s2: nat, s1: nat, s0: nat, base: nat) {
    && ReducedBy(s0) == p
    && (match Production(p).1
        case 1 => base == s1 && RightSide(p) == [Accessing(s0)]
        case 2 => base == s2 && s1 > 0 && RightSide(p) == [Accessing(s1), Accessing(s0)]
        case _ => base == s3 && s1 > 0 && s2 > 0 && RightSide(p) == [Accessing(s2), Accessing(s1), Accessing(s0)])
    && (p == 6 || Next(base, Production(p).0).Goto?)
  }

  /** The states an item of production p can start from. */
  lemma {:induction false} GotoFromValue(base: nat, x: Symbol)
    requires base in {0, 15, 26, 28}
    requires x in {JSONString, JSONNumber, JSONNullLiteral, JSONBooleanLiteral, JSONObject, JSONArray, JSONValue}
    ensures Next(base, x).Goto?
  {
  }

  lemma {:induction false} GotoFromBrace(base: nat)
    requires base in {14, 25}
    ensures Next(base, JSONString) == Goto(20) && Next(base, JSONMember).Goto?
  {
  }

  lemma {:induction false} GotoLists()
    ensures Next(14, JSONMemberList) == Goto(18) && Next(15, JSONElementList) == Goto(22)
  {
  }

  lemma {:induction false} GotoFromMembers(base: nat)
    requires base in {14, 25}
    ensures Next(base, JSONString) == Goto(20) && Next(base, JSONMember).Goto?
    ensures base == 14 ==> Next(base, JSONMemberList) == Goto(18)
    ensures Next(15, JSONElementList) == Goto(22)
  {
    hide *;
    GotoFromBrace(base);
    GotoLists();
  }

  lemma {:induction false} HandleOne(p: nat, s3: nat, s2: nat, s1: nat, s0: nat)
    requires 1 <= p <= 21 && Production(p).1 == 1 && ReducedBy(s0) == p && Below(s0, s1)
    ensures Handle(p, s3, s2, s1, s0, s1)
  {
    if s1 in {14, 25} {
      GotoFromMembers(s1);
    } else if s0 == 23 {
      GotoFromMembers(14);
    } else {
      GotoFromValue(s1, Production(p).0);
    }
    hide Next, Table, Action;
  }

  lemma {:induction false} HandleTwo(p: nat, s3: nat, s2: nat, s1: nat, s0: nat)
    requires 1 <= p <= 21 && Production(p).1 == 2 && ReducedBy(s0) == p
    requires Below(s0, s1) && (s1 > 0 ==> Below(s1, s2))
    ensures Handle(p, s3, s2, s1, s0, s2)
  {
    if p != 6 {
      GotoFromValue(s2, Production(p).0);
    }
    hide Next, Table, Action;
  }

  lemma {:induction false} HandleBrackets(p: nat, s3: nat, s2: nat, s1: nat, s0: nat)
    requires p in {14, 19} && ReducedBy(s0) == p
    requires Below(s0, s1) && (s1 > 0 ==> Below(s1, s2)) && (s2 > 0 ==> Below(s2, s3))
    ensures Handle(p, s3, s2, s1, s0, s3)
  {
    GotoFromValue(s3, Production(p).0);
    hide Next, Table, Action;
  }

  /** The states a list or pair ends with. */
  lemma {:induction false} ListStates(p: nat, s3: nat, s2: nat, s1: nat, s0: nat)
    requires p in {15, 17, 21} && ReducedBy(s0) == p
    requires Below(s0, s1) && (s1 > 0 ==> Below(s1, s2)) && (s2 > 0 ==> Below(s2, s3))
    ensures p == 15 ==> s0 == 30 && s1 == 26 && s2 == 20 && s3 in {14, 25}
    ensures p == 17 ==> s0 == 29 && s1 == 25 && s2 == 18 && s3 == 14
    ensures p == 21 ==> s0 == 31 && s1 == 28 && s2 == 22 && s3 == 15
  {
  }

  lemma {:induction false} HandlePair(base: nat)
    requires base in {14, 25}
    ensures Handle(15, base, 20, 26, 30, base)
  {
    hide Next, Table, Action;
    GotoFromMembers(base);
  }

  lemma {:induction false} HandleMembers()
    ensures Handle(17, 14, 18, 25, 29, 14)
  {
    hide Next, Table, Action;
    GotoLists();
  }

  lemma {:induction false} HandleElements()
    ensures Handle(21, 15, 22, 28, 31, 15)
  {
    hide Next, Table, Action;
    GotoLists();
  }

  lemma {:induction false} HandleList(p: nat, s3: nat, s2: nat, s1: nat, s0: nat)
    requires p in {15, 17, 21} && ReducedBy(s0) == p
    requires Below(s0, s1) && (s1 > 0 ==> Below(s1, s2)) && (s2 > 0 ==> Below(s2, s3))
    ensures Handle(p, s3, s2, s1, s0, s3)
  {
    hide *;
    ListStates(p, s3, s2, s1, s0);
    if p == 15 {
      HandlePair(s3);
    } else if p == 17 {
      HandleMembers();
    } else {
      HandleElements();
    }
  }
  /** When the table says reduce, the right side of the production is on top of the stack, the
      state below it has a goto for the left side, and the values fit the semantic action. */
  lemma {:induction false} HandleOnTop(c: Config, x: Symbol, p: nat)
    requires Inv(c) && Action(c.states[|c.symbols|], x) == Reduce(p)
    ensures 1 <= p <= 21 && Production(p).1 == |RightSide(p)| <= |c.symbols|
    ensures c.symbols[|c.symbols| - |RightSide(p)|..] == RightSide(p)
    ensures p != 6 ==> Next(c.states[|c.symbols| - |RightSide(p)|], Production(p).0).Goto?
    ensures Operands(p, c.values)
  {
    hide Next, Table, Action, Below, Accessing, ReducedBy, RightSide, Production, Operands;
    var h := |c.symbols|;
    var s0 := c.states[h];
    ReduceState(s0, x, p);
    TopLinks(c);
    RightSideLength(p);
    var s1 := c.states[h - 1];
    var s2 := if h > 1 then c.states[h - 2] else 0;
    var s3 := if h > 2 then c.states[h - 3] else 0;
    if Production(p).1 == 1 {
      HandleOne(p, s3, s2, s1, s0);
    } else if Production(p).1 == 2 {
      HandleTwo(p, s3, s2, s1, s0);
    } else if p in {14, 19} {
      HandleBrackets(p, s3, s2, s1, s0);
    } else {
      HandleList(p, s3, s2, s1, s0);
    }
    OperandsFit(c, p);
  }

  lemma {:induction false} RightSideLength(p: nat)
    requires 1 <= p <= 21
    ensures Production(p).1 == |RightSide(p)| && 1 <= Production(p).1 <= 3
    ensures Production(p).1 == 3 <==> p in {14, 15, 17, 19, 21}
  {
  }

  lemma {:induction false} OperandsFit(c: Config, p: nat)
    requires Inv(c) && 1 <= p <= 21 && Production(p).1 == |RightSide(p)| <= |c.symbols|
    requires c.symbols[|c.symbols| - |RightSide(p)|..] == RightSide(p)
    ensures Operands(p, c.values)
  {
    hide Next;
    var h, n := |c.symbols|, |RightSide(p)|;
    forall i | 0 <= i < n
      ensures Shape(RightSide(p)[i], c.values[h - n + i + 1])
    {
      assert c.symbols[h - n..][i] == c.symbols[h - n + i];
    }
    if p in {15, 16, 17, 21} {
      assert Shape(RightSide(p)[0], c.values[h - n + 1]);
      assert Shape(RightSide(p)[n - 1], c.values[h]);
    }
  }

  // ---- one iteration of the loop ----

  datatype StepResult = Stop(outcome: Outcome) | Continue(config: Config)

  function Push(c: Config, x: Symbol, v: Json, state: nat): Config {
    Config(c.states + [state], c.symbols + [x], c.values + [v], c.yytext, c.input)
  }

  function Pop(c: Config, n: nat): Config
    requires Inv(c) && n <= |c.symbols|
  {
    Config(c.states[..|c.states| - n], c.symbols[..|c.symbols| - n], c.values[..|c.values| - n], c.yytext, c.input)
  }

  function ShiftToken(c: Config, t: Token, state: nat): Config {
    Push(c, t.Symbol(), JString(t.Text()), state)
      .(yytext := t.Text(), input := if c.input == [] then [] else c.input[1..])
  }

  function Step(c: Config): StepResult
    requires Inv(c)
  {
    var t := Lookahead(c);
    var x := t.Symbol();
    match Action(c.states[|c.symbols|], x)
    case Error => Stop(Throws)
    case Goto(_) => Stop(Throws)
    case Accept => Stop(Ok(JBool(true)))
    case Shift(s) => Continue(ShiftToken(c, t, s))
    case Reduce(p) =>
      HandleOnTop(c, x, p);
      if p == 6 then Stop(Ok(PerformAction(p, c.yytext, c.values))) else Continue(Reduced(c, x, p))
  }

  function Reduced(c: Config, x: Symbol, p: nat): Config
    requires Inv(c) && Action(c.states[|c.symbols|], x) == Reduce(p) && p != 6
  {
    PopHandle(c, x, p);
    var base := Pop(c, Production(p).1);
    Push(base, Production(p).0, PerformAction(p, c.yytext, c.values),
      Next(base.states[|base.symbols|], Production(p).0).to)
  }

  /** What makes the reduction well-defined. */
  lemma {:induction false} PopHandle(c: Config, x: Symbol, p: nat)
    requires Inv(c) && Action(c.states[|c.symbols|], x) == Reduce(p) && p != 6
    ensures 1 <= p <= 21 && Operands(p, c.values) && Production(p).1 <= |c.symbols|
    ensures |Pop(c, Production(p).1).states| == |Pop(c, Production(p).1).symbols| + 1
    ensures var base := Pop(c, Production(p).1); Next(base.states[|base.symbols|], Production(p).0).Goto?
  {
    hide Next, Table, Action, Production, Operands, RightSide;
    HandleOnTop(c, x, p);
  }

  /** How far a symbol is from the start symbol: unit productions climb. */
  function Rank(x: Symbol): nat {
    match x
    case JSONText => 0
    case JSONMemberList => 1
    case JSONElementList => 1
    case JSONValue => 2
    case JSONMember => 2
    case JSONString => 3
    case JSONNumber => 3
    case JSONNullLiteral => 3
    case JSONBooleanLiteral => 3
    case JSONObject => 3
    case JSONArray => 3
    case _ => 4
  }

  function TopRank(c: Config): nat {
    if c.symbols == [] then 0 else Rank(c.symbols[|c.symbols| - 1])
  }

  lemma {:induction false} ActionShape(v: Json, p: nat, yytext: string, vs: seq<Json>)
    requires 1 <= p <= 21 && Operands(p, vs)
    requires v == PerformAction(p, yytext, vs)
    requires p == 9 ==> vs[|vs| - 1].JString?
    ensures Shape(Production(p).0, v)
  {
  }

  lemma {:induction false} NoShiftAtEnd(state: nat)
    ensures !Action(state, END).Shift?
  {
  }

  lemma {:induction false} PushKeeps(c: Config, x: Symbol, v: Json, state: nat)
    requires Inv(c) && Next(c.states[|c.symbols|], x) == Goto(state) && Shape(x, v)
    ensures Inv(Push(c, x, v, state))
  {
    hide Next;
  }

  lemma {:induction false} PopKeeps(c: Config, n: nat)
    requires Inv(c) && n <= |c.symbols|
    ensures Inv(Pop(c, n))
  {
    hide Next;
  }

  /** c comes before d in the order that proves termination: the tokens left, then the height of
      the stack, then the rank of the symbol on top. */
  ghost predicate Lower(d: Config, c: Config) {
    || |d.input| < |c.input|
    || (d.input == c.input && |d.symbols| < |c.symbols|)
    || (d.input == c.input && |d.symbols| == |c.symbols| && TopRank(d) < TopRank(c))
  }

  lemma {:induction false} ShiftKeeps(c: Config, t: Token, s: nat)
    requires Inv(c) && t == Lookahead(c) && Action(c.states[|c.symbols|], t.Symbol()) == Shift(s)
    ensures Inv(ShiftToken(c, t, s)) && Lower(ShiftToken(c, t, s), c)
  {
    NoShiftAtEnd(c.states[|c.symbols|]);
    assert Next(c.states[|c.symbols|], t.Symbol()) == Goto(s);
    hide Table, Action, Next;
    PushKeeps(c, t.Symbol(), JString(t.Text()), s);
  }

  lemma {:induction false} ReduceShape(c: Config, x: Symbol, p: nat)
    requires Inv(c) && Action(c.states[|c.symbols|], x) == Reduce(p)
    ensures 1 <= p <= 21 && Operands(p, c.values)
    ensures Shape(Production(p).0, PerformAction(p, c.yytext, c.values))
  {
    hide Table, Action, Next, PerformAction, Operands;
    HandleOnTop(c, x, p);
    assert p == 9 ==> c.symbols[|c.symbols| - 1..][0] == JSONString;
    assert p == 9 ==> Shape(c.symbols[|c.symbols| - 1], c.values[|c.symbols|]);
    ActionShape(PerformAction(p, c.yytext, c.values), p, c.yytext, c.values);
  }

  /** A reduction shortens the stack, or lowers the rank of the symbol on top. */
  lemma {:induction false} ReduceRank(c: Config, x: Symbol, p: nat)
    requires Inv(c) && Action(c.states[|c.symbols|], x) == Reduce(p)
    ensures 1 <= p <= 21 && 1 <= Production(p).1 <= |c.symbols|
    ensures Production(p).1 == 1 ==> Rank(Production(p).0) < TopRank(c)
  {
    hide Table, Action, Next, Rank, Production, Operands;
    HandleOnTop(c, x, p);
    RankFalls(p);
    RightSideLength(p);
    if Production(p).1 == 1 {
      assert c.symbols[|c.symbols| - 1..][0] == c.symbols[|c.symbols| - 1];
    }
  }

  lemma {:induction false} ReduceKeeps(c: Config, x: Symbol, p: nat)
    requires Inv(c) && Action(c.states[|c.symbols|], x) == Reduce(p) && p != 6
    ensures Inv(Reduced(c, x, p)) && Lower(Reduced(c, x, p), c)
  {
    hide Table, Action, Next, PerformAction, Production, RightSide, Rank, Operands, Shape;
    HandleOnTop(c, x, p);
    ReduceShape(c, x, p);
    ReduceRank(c, x, p);
    var n := Production(p).1;
    var v := PerformAction(p, c.yytext, c.values);
    PopKeeps(c, n);
    var base := Pop(c, n);
    assert Next(base.states[|base.symbols|], Production(p).0).Goto?;
    assert Reduced(c, x, p) == Push(base, Production(p).0, v, Next(base.states[|base.symbols|], Production(p).0).to);
    hide Reduced, Inv;
    PushKeeps(base, Production(p).0, v, Next(base.states[|base.symbols|], Production(p).0).to);
  }

  /** Every step keeps the invariant and lowers the measure. */
  lemma {:induction false} StepKeeps(c: Config)
    requires Inv(c) && Step(c).Continue?
    ensures Inv(Step(c).config) && Lower(Step(c).config, c)
  {
    var t := Lookahead(c);
    var x := t.Symbol();
    match Action(c.states[|c.symbols|], x)
    case Shift(s) => ShiftKeeps(c, t, s);
    case Reduce(p) => ReduceKeeps(c, x, p);
    case _ =>
  }

  lemma {:induction false} RankFalls(p: nat)
    requires 1 <= p <= 21
    ensures Production(p).1 == 1 ==> Rank(Production(p).0) < Rank(RightSide(p)[0])
  {
  }

  /** The whole loop. */
  function Run(c: Config): Outcome
    requires Inv(c)
    decreases |c.input|, |c.symbols|, TopRank(c)
  {
    match Step(c)
    case Stop(o) => o
    case Continue(d) =>
      StepKeeps(c);
      Run(d)
  }
}
