/** Soundness of the parser: what it returns is the value of a derivation of the tokens it read.
    The proof carries, beside the stack, the derivation of every symbol on it. */
module JsonSound {
  import opened JsonValues
  import opened JsonParser
  import opened JsonGrammar
  import JsonComplete
  import opened Wrappers

  datatype Node =
    | Leaf(token: Token)
    | Value(tree: Tree)
    | Pair(member: Member)
    | MemberList(members: seq<Member>)
    | ElementList(elements: seq<Tree>)

  function NodeYield(n: Node): seq<Token> {
    match n
    case Leaf(t) => [t]
    case Value(t) => Yield(t)
    case Pair(m) => YieldMember(m)
    case MemberList(ms) => YieldMembers(ms)
    case ElementList(ts) => YieldElements(ts)
  }

  function ForestYield(f: seq<Node>): seq<Token> {
    if f == [] then [] else ForestYield(f[..|f| - 1]) + NodeYield(f[|f| - 1])
  }

  predicate Terminal(x: Symbol) {
    match x
    case STRING => true
    case NUMBER => true
    case NULL => true
    case TRUE => true
    case FALSE => true
    case EOF => true
    case LBRACE => true
    case RBRACE => true
    case COLON => true
    case COMMA => true
    case LBRACKET => true
    case RBRACKET => true
    case _ => false
  }

  /** A tree that derives the nonterminal. */
  predicate Derives(x: Symbol, t: Tree) {
    match x
    case JSONString => t.TString?
    case JSONNumber => t.TNumber?
    case JSONNullLiteral => t.TNull?
    case JSONBooleanLiteral => t.TTrue? || t.TFalse?
    case JSONArray => t.TArray?
    case JSONObject => t.TObject?
    case JSONValue => true
    case _ => false
  }

  /** The node is a derivation of the symbol, and the value is its meaning. */
  ghost predicate Fits(x: Symbol, n: Node, v: Json) {
    match n
    case Leaf(t) => t.Symbol() == x && Terminal(x)
    case Value(t) => Derives(x, t) && v == Meaning(t)
    case Pair(m) => x == JSONMember && v == JsonComplete.PairOf(m)
    case MemberList(ms) => x == JSONMemberList && ms != [] && v == JObject(MeaningMembers(ms))
    case ElementList(ts) => x == JSONElementList && ts != [] && v == JArray(MeaningElements(ts))
  }

  /** The stack spells a forest: every symbol is derived by its node, with its value; the nodes
      make up the tokens read; and a token on top is the one whose text is in yytext. */
  ghost predicate Spells(c: Config, f: seq<Node>, read: seq<Token>) {
    && |f| == |c.symbols| && |c.values| == |c.symbols| + 1
    && (forall i :: 0 <= i < |f| ==> Fits(c.symbols[i], f[i], c.values[i + 1]))
    && ForestYield(f) == read
    && (f != [] && f[|f| - 1].Leaf? ==> c.yytext == f[|f| - 1].token.Text())
  }

  lemma {:induction false} ForestSplit(f: seq<Node>, k: nat)
    requires k <= |f|
    ensures ForestYield(f) == ForestYield(f[..k]) + ForestYield(f[k..])
    decreases |f|
  {
    hide NodeYield;
    if k == |f| {
      assert f[..k] == f && f[k..] == [];
    } else {
      var front := f[..|f| - 1];
      ForestSplit(front, k);
      assert front[..k] == f[..k] && f[k..][..|f| - k - 1] == front[k..];
    }
  }

  // ---- one new node for the right side of a production ----

  ghost predicate NodesFit(p: nat, ns: seq<Node>, vs: seq<Json>) {
    && 1 <= p <= 21 && |ns| == |RightSide(p)| == |vs|
    && forall i :: 0 <= i < |ns| ==> Fits(RightSide(p)[i], ns[i], vs[i])
  }

  /** The tree a node over a value symbol holds. */
  lemma {:induction false} ValueNode(x: Symbol, n: Node, v: Json)
    requires Fits(x, n, v)
    ensures x in {JSONString, JSONNumber, JSONNullLiteral, JSONBooleanLiteral, JSONArray, JSONObject, JSONValue} ==>
        n.Value? && Derives(x, n.tree) && v == Meaning(n.tree)
    ensures x == JSONMember ==> n.Pair? && v == JsonComplete.PairOf(n.member)
    ensures x == JSONMemberList ==> n.MemberList? && n.members != [] && v == JObject(MeaningMembers(n.members))
    ensures x == JSONElementList ==> n.ElementList? && n.elements != [] && v == JArray(MeaningElements(n.elements))
    ensures Terminal(x) ==> n.Leaf? && n.token.Symbol() == x
    ensures x != JSONText
  {
    hide Meaning, MeaningMembers, MeaningElements;
  }

  lemma {:induction false} TokenOf(t: Token)
    ensures t.Symbol() == STRING ==> t == StringToken(t.Text())
    ensures t.Symbol() == NUMBER ==> t == NumberToken(t.Text())
    ensures IsConstant(t.Symbol()) ==> t == Fixed(t.Symbol())
  {
  }

  /** The new node: what the left side derives once the right side does. */
  function NewNode(p: nat, ns: seq<Node>): Node
    requires |ns| == |RightSide(p)| && 1 <= p <= 21
  {
    match p
    case 1 => if ns[0].Leaf? then Value(TString(ns[0].token.Text())) else ns[0]
    case 2 => if ns[0].Leaf? then Value(TNumber(ns[0].token.Text())) else ns[0]
    case 3 => Value(TNull)
    case 4 => Value(TTrue)
    case 5 => Value(TFalse)
    case 13 => Value(TObject([]))
    case 14 => if ns[1].MemberList? then Value(TObject(ns[1].members)) else ns[1]
    case 15 =>
      if ns[0].Value? && ns[0].tree.TString? && ns[2].Value?
      then Pair(Member(ns[0].tree.text, ns[2].tree)) else ns[0]
    case 16 => if ns[0].Pair? then MemberList([ns[0].member]) else ns[0]
    case 17 =>
      if ns[0].MemberList? && ns[2].Pair?
      then MemberList(ns[0].members + [ns[2].member]) else ns[0]
    case 18 => Value(TArray([]))
    case 19 => if ns[1].ElementList? then Value(TArray(ns[1].elements)) else ns[1]
    case 20 => if ns[0].Value? then ElementList([ns[0].tree]) else ns[0]
    case 21 =>
      if ns[0].ElementList? && ns[2].Value?
      then ElementList(ns[0].elements + [ns[2].tree]) else ns[0]
    case _ => ns[0]
  }

  ghost predicate Builds(p: nat, yytext: string, ns: seq<Node>, vs: seq<Json>) {
    && 1 <= p <= 21 && |ns| == |RightSide(p)|
    && Operands(p, vs)
    && Fits(Production(p).0, NewNode(p, ns), PerformAction(p, yytext, vs))
    && NodeYield(NewNode(p, ns)) == ForestYield(ns)
  }

  lemma {:induction false} ForestOne(a: Node)
    ensures ForestYield([a]) == NodeYield(a)
  {
    assert [a][..0] == [];
    hide NodeYield;
  }

  lemma {:induction false} ForestTwo(a: Node, b: Node)
    ensures ForestYield([a, b]) == NodeYield(a) + NodeYield(b)
  {
    assert [a, b][..1] == [a];
    ForestOne(a);
    hide NodeYield;
  }

  lemma {:induction false} ForestThree(a: Node, b: Node, c: Node)
    ensures ForestYield([a, b, c]) == NodeYield(a) + NodeYield(b) + NodeYield(c)
  {
    assert [a, b, c][..2] == [a, b];
    ForestTwo(a, b);
    hide NodeYield;
  }

  lemma {:induction false} TokenFacts(p: nat, yytext: string, a: Node, vs: seq<Json>)
    requires 1 <= p <= 5 && vs != []
    ensures |RightSide(p)| == 1 && Operands(p, vs) && Terminal(RightSide(p)[0])
    ensures var x, n, v := RightSide(p)[0], NewNode(p, [a]), PerformAction(p, yytext, vs);
        && (p == 1 && a.Leaf? ==> x == STRING && n == Value(TString(a.token.Text())) && v == JString(Unescape(yytext)))
        && (p == 2 && a.Leaf? ==>
             x == NUMBER && n == Value(TNumber(a.token.Text())) && v == JNumber(NumberValue(yytext)))
        && (p == 3 ==> x == NULL && n == Value(TNull) && v == JNull)
        && (p == 4 ==> x == TRUE && n == Value(TTrue) && v == JBool(true))
        && (p == 5 ==> x == FALSE && n == Value(TFalse) && v == JBool(false))
        && (a.Leaf? ==> n.Value? && Derives(Production(p).0, n.tree))
  {
    hide Unescape, NumberValue;
  }

  /** Productions of a token. */
  lemma {:induction false} BuildToken(p: nat, yytext: string, a: Node, base: seq<Json>, v: Json)
    requires 1 <= p <= 5 && Fits(RightSide(p)[0], a, v) && (a.Leaf? ==> yytext == a.token.Text())
    ensures |RightSide(p)| == 1 && Builds(p, yytext, [a], base + [v])
  {
    hide ForestYield, Unescape, NumberValue, RightSide, Production, PerformAction, NewNode, Operands, Terminal, Derives;
    ForestOne(a);
    TokenFacts(p, yytext, a, base + [v]);
    ValueNode(RightSide(p)[0], a, v);
    TokenOf(a.token);
  }

  lemma {:induction false} UnitFacts(p: nat, yytext: string, a: Node, base: seq<Json>, v: Json)
    requires 7 <= p <= 12
    ensures |RightSide(p)| == 1 && Operands(p, base + [v])
    ensures RightSide(p)[0] in {JSONString, JSONNumber, JSONNullLiteral, JSONBooleanLiteral, JSONArray, JSONObject}
    ensures Production(p).0 == JSONValue && NewNode(p, [a]) == a && PerformAction(p, yytext, base + [v]) == v
  {
  }

  /** The unit productions of JSONValue. */
  lemma {:induction false} BuildUnit(p: nat, yytext: string, a: Node, base: seq<Json>, v: Json)
    requires 7 <= p <= 12 && Fits(RightSide(p)[0], a, v)
    ensures |RightSide(p)| == 1 && Builds(p, yytext, [a], base + [v])
  {
    hide ForestYield, Meaning, Yield, RightSide, Production, PerformAction, NewNode, Operands, NodeYield;
    ForestOne(a);
    UnitFacts(p, yytext, a, base, v);
    ValueNode(RightSide(p)[0], a, v);
  }

  lemma {:induction false} FirstSide(p: nat)
    requires p in {16, 20}
    ensures RightSide(p) == if p == 16 then [JSONMember] else [JSONValue]
  {
  }

  lemma {:induction false} FirstFacts(p: nat, yytext: string, a: Node, base: seq<Json>, v: Json)
    requires p in {16, 20} && (p == 16 ==> IsPair(v))
    ensures Operands(p, base + [v])
    ensures Production(p).0 == if p == 16 then JSONMemberList else JSONElementList
    ensures p == 16 && a.Pair? ==> NewNode(p, [a]) == MemberList([a.member])
    ensures p == 20 && a.Value? ==> NewNode(p, [a]) == ElementList([a.tree])
    ensures PerformAction(p, yytext, base + [v]) == if p == 16 then Assign(JObject(map[]), v) else JArray([v])
  {
    hide Assign;
  }

  /** The first element, the first member. */
  lemma {:induction false} BuildFirst(p: nat, yytext: string, a: Node, base: seq<Json>, v: Json)
    requires p in {16, 20} && Fits(RightSide(p)[0], a, v)
    ensures |RightSide(p)| == 1 && Builds(p, yytext, [a], base + [v])
  {
    hide ForestYield, Meaning, Yield, YieldMember, YieldMembers, YieldElements, Unescape;
    hide MeaningMembers, MeaningElements;
    hide RightSide, Production, PerformAction, NewNode, Operands;
    ForestOne(a);
    FirstSide(p);
    ValueNode(RightSide(p)[0], a, v);
    FirstFacts(p, yytext, a, base, v);
    if p == 16 {
      SingletonLists(a.member, TNull);
    } else {
      SingletonLists(Member("", TNull), a.tree);
    }
  }

  lemma {:induction false} EmptyFacts(p: nat, yytext: string, a: Node, b: Node, vs: seq<Json>)
    requires p in {13, 18} && |vs| >= 2
    ensures |RightSide(p)| == 2 && Operands(p, vs)
    ensures var t := if p == 13 then TObject([]) else TArray([]);
        && RightSide(p) == (if p == 13 then [LBRACE, RBRACE] else [LBRACKET, RBRACKET])
        && Derives(Production(p).0, t) && NewNode(p, [a, b]) == Value(t)
        && PerformAction(p, yytext, vs) == Meaning(t)
        && Yield(t) == [Fixed(RightSide(p)[0]), Fixed(RightSide(p)[1])]
  {
  }

  /** Empty brackets. */
  lemma {:induction false} BuildEmpty(p: nat, yytext: string, a: Node, b: Node, base: seq<Json>, v: Json, w: Json)
    requires p in {13, 18} && Fits(RightSide(p)[0], a, v) && Fits(RightSide(p)[1], b, w)
    ensures |RightSide(p)| == 2 && Builds(p, yytext, [a, b], base + [v] + [w])
  {
    hide ForestYield, Meaning, Yield, RightSide, Production, PerformAction, NewNode, Operands, Derives;
    ForestTwo(a, b);
    EmptyFacts(p, yytext, a, b, base + [v] + [w]);
    ValueNode(RightSide(p)[0], a, v);
    ValueNode(RightSide(p)[1], b, w);
    TokenOf(a.token);
    TokenOf(b.token);
  }

  /** What production p does to three symbols. */
  lemma {:induction false} ThreeFacts(
      p: nat, yytext: string, a: Node, b: Node, c: Node, base: seq<Json>, v: Json, w: Json, x: Json)
    requires p in {14, 15, 17, 19, 21}
    requires p == 15 ==> v.JString?
    requires p == 17 ==> v.JObject? && IsPair(x)
    requires p == 21 ==> v.JArray?
    ensures |RightSide(p)| == 3 && Operands(p, base + [v] + [w] + [x])
    ensures var z, n := PerformAction(p, yytext, base + [v] + [w] + [x]), NewNode(p, [a, b, c]);
        && (p == 14 ==> Production(p).0 == JSONObject && z == w && (b.MemberList? ==> n == Value(TObject(b.members))))
        && (p == 19 ==> Production(p).0 == JSONArray && z == w && (b.ElementList? ==> n == Value(TArray(b.elements))))
        && (p == 15 ==> Production(p).0 == JSONMember && z == JArray([v, x]))
        && (p == 15 && a.Value? && a.tree.TString? && c.Value? ==> n == Pair(Member(a.tree.text, c.tree)))
        && (p == 17 ==> Production(p).0 == JSONMemberList && z == Assign(v, x))
        && (p == 17 && a.MemberList? && c.Pair? ==> n == MemberList(a.members + [c.member]))
        && (p == 21 ==> Production(p).0 == JSONElementList && z == JArray(v.items + [x]))
        && (p == 21 && a.ElementList? && c.Value? ==> n == ElementList(a.elements + [c.tree]))
  {
    hide Assign;
  }

  /** Brackets around a list. */
  lemma {:induction false} BuildObject(
      yytext: string, a: Node, b: Node, c: Node, base: seq<Json>, v: Json, w: Json, x: Json)
    requires Fits(LBRACE, a, v) && Fits(JSONMemberList, b, w) && Fits(RBRACE, c, x)
    ensures Builds(14, yytext, [a, b, c], base + [v] + [w] + [x])
  {
    hide ForestYield, YieldMembers, YieldElements, MeaningMembers, MeaningElements;
    hide NewNode, PerformAction, Production, Operands;
    ForestThree(a, b, c);
    ValueNode(LBRACE, a, v);
    ValueNode(JSONMemberList, b, w);
    ValueNode(RBRACE, c, x);
    TokenOf(a.token);
    TokenOf(c.token);
    ThreeFacts(14, yytext, a, b, c, base, v, w, x);
  }

  lemma {:induction false} BuildArray(
      yytext: string, a: Node, b: Node, c: Node, base: seq<Json>, v: Json, w: Json, x: Json)
    requires Fits(LBRACKET, a, v) && Fits(JSONElementList, b, w) && Fits(RBRACKET, c, x)
    ensures Builds(19, yytext, [a, b, c], base + [v] + [w] + [x])
  {
    hide ForestYield, YieldMembers, YieldElements, MeaningMembers, MeaningElements;
    hide NewNode, PerformAction, Production, Operands;
    ForestThree(a, b, c);
    ValueNode(LBRACKET, a, v);
    ValueNode(JSONElementList, b, w);
    ValueNode(RBRACKET, c, x);
    TokenOf(a.token);
    TokenOf(c.token);
    ThreeFacts(19, yytext, a, b, c, base, v, w, x);
  }

  /** A member, and one more member. */
  lemma {:induction false} BuildMember(
      yytext: string, a: Node, b: Node, c: Node, base: seq<Json>, v: Json, w: Json, x: Json)
    requires Fits(JSONString, a, v) && Fits(COLON, b, w) && Fits(JSONValue, c, x)
    ensures Builds(15, yytext, [a, b, c], base + [v] + [w] + [x])
  {
    hide ForestYield, Yield, Meaning, Unescape, NewNode, PerformAction, Production, Operands;
    ForestThree(a, b, c);
    ValueNode(JSONString, a, v);
    ValueNode(COLON, b, w);
    ValueNode(JSONValue, c, x);
    TokenOf(b.token);
    StringTree(a.tree);
    ThreeFacts(15, yytext, a, b, c, base, v, w, x);
  }

  lemma {:induction false} StringTree(t: Tree)
    requires t.TString?
    ensures Yield(t) == [StringToken(t.text)] && Meaning(t) == JString(Unescape(t.text))
  {
    hide Unescape;
  }

  lemma {:induction false} BuildMembers(
      yytext: string, a: Node, b: Node, c: Node, base: seq<Json>, v: Json, w: Json, x: Json)
    requires Fits(JSONMemberList, a, v) && Fits(COMMA, b, w) && Fits(JSONMember, c, x)
    ensures Builds(17, yytext, [a, b, c], base + [v] + [w] + [x])
  {
    hide ForestYield, Meaning, Unescape, YieldMember, YieldMembers, MeaningMembers;
    hide NewNode, PerformAction, Production, Operands;
    ForestThree(a, b, c);
    ValueNode(JSONMemberList, a, v);
    ValueNode(COMMA, b, w);
    ValueNode(JSONMember, c, x);
    TokenOf(b.token);
    ThreeFacts(17, yytext, a, b, c, base, v, w, x);
    AppendMember(a.members, c.member);
  }

  lemma {:induction false} BuildElements(
      yytext: string, a: Node, b: Node, c: Node, base: seq<Json>, v: Json, w: Json, x: Json)
    requires Fits(JSONElementList, a, v) && Fits(COMMA, b, w) && Fits(JSONValue, c, x)
    ensures Builds(21, yytext, [a, b, c], base + [v] + [w] + [x])
  {
    hide ForestYield, Meaning, Yield, YieldElements, MeaningElements, NewNode, PerformAction, Production, Operands;
    ForestThree(a, b, c);
    ValueNode(JSONElementList, a, v);
    ValueNode(COMMA, b, w);
    ValueNode(JSONValue, c, x);
    TokenOf(b.token);
    ThreeFacts(21, yytext, a, b, c, base, v, w, x);
    AppendElement(a.elements, c.tree);
  }

  /** The node for the right side of any production but that of JSONText. */
  lemma {:induction false} Build(p: nat, yytext: string, ns: seq<Node>, base: seq<Json>, vs: seq<Json>)
    requires NodesFit(p, ns, vs) && p != 6
    requires ns[|ns| - 1].Leaf? ==> yytext == ns[|ns| - 1].token.Text()
    ensures Builds(p, yytext, ns, base + vs)
  {
    hide Fits, Builds, RightSide, Production;
    RightSideLength(p);
    var a, v := ns[0], vs[0];
    if |ns| == 1 {
      assert ns == [a] && vs == [v];
      RightSideOne(p);
      if p <= 5 {
        BuildToken(p, yytext, a, base, v);
      } else if p <= 12 {
        BuildUnit(p, yytext, a, base, v);
      } else {
        BuildFirst(p, yytext, a, base, v);
      }
    } else if |ns| == 2 {
      assert ns == [a, ns[1]] && base + vs == base + [v] + [vs[1]];
      RightSideTwo(p);
      BuildEmpty(p, yytext, a, ns[1], base, v, vs[1]);
    } else {
      var b, c, w, x := ns[1], ns[2], vs[1], vs[2];
      assert ns == [a, b, c] && base + vs == base + [v] + [w] + [x];
      RightSideThree(p);
      if p == 14 {
        BuildObject(yytext, a, b, c, base, v, w, x);
      } else if p == 15 {
        BuildMember(yytext, a, b, c, base, v, w, x);
      } else if p == 17 {
        BuildMembers(yytext, a, b, c, base, v, w, x);
      } else if p == 19 {
        BuildArray(yytext, a, b, c, base, v, w, x);
      } else {
        BuildElements(yytext, a, b, c, base, v, w, x);
      }
    }
  }

  lemma {:induction false} RightSideOne(p: nat)
    requires 1 <= p <= 21 && |RightSide(p)| == 1
    ensures p <= 5 || 7 <= p <= 12 || p in {16, 20}
  {
  }

  lemma {:induction false} RightSideTwo(p: nat)
    requires 1 <= p <= 21 && |RightSide(p)| == 2
    ensures p in {6, 13, 18}
  {
  }

  lemma {:induction false} RightSideThree(p: nat)
    requires 1 <= p <= 21 && |RightSide(p)| > 2
    ensures |RightSide(p)| == 3
    ensures p in {14, 15, 17, 19, 21}
    ensures p == 14 ==> RightSide(p) == [LBRACE, JSONMemberList, RBRACE]
    ensures p == 15 ==> RightSide(p) == [JSONString, COLON, JSONValue]
    ensures p == 17 ==> RightSide(p) == [JSONMemberList, COMMA, JSONMember]
    ensures p == 19 ==> RightSide(p) == [LBRACKET, JSONElementList, RBRACKET]
    ensures p == 21 ==> RightSide(p) == [JSONElementList, COMMA, JSONValue]
  {
  }

  // ---- the run ----

  lemma {:induction false} ShiftFromValue(state: nat, x: Symbol, s: nat)
    requires state in {0, 15, 26, 28} && Action(state, x) == Shift(s)
    ensures Terminal(x)
  {
    assert ValueRow(x) == Shift(s) ==> Terminal(x);
    hide ValueRow;
  }

  lemma {:induction false} ShiftFromMembers(state: nat, x: Symbol, s: nat)
    requires state in {2, 14, 18, 20, 22, 25} && Action(state, x) == Shift(s)
    ensures Terminal(x)
  {
  }

  /** Only terminals are shifted. */
  lemma {:induction false} ShiftTerminal(state: nat, x: Symbol, s: nat)
    requires Action(state, x) == Shift(s)
    ensures Terminal(x)
  {
    hide Table;
    if state in {0, 15, 26, 28} {
      ShiftFromValue(state, x, s);
    } else if state in {2, 14, 18, 20, 22, 25} {
      ShiftFromMembers(state, x, s);
    } else {
      NextFromOther(state, x);
    }
  }

  lemma {:induction false} SpellsShift(c: Config, f: seq<Node>, read: seq<Token>, t: Token, s: nat)
    requires Inv(c) && Spells(c, f, read) && t == Lookahead(c)
    requires Action(c.states[|c.symbols|], t.Symbol()) == Shift(s)
    ensures c.input != [] && Spells(ShiftToken(c, t, s), f + [Leaf(t)], read + [t])
  {
    NoShiftAtEnd(c.states[|c.symbols|]);
    ShiftTerminal(c.states[|c.symbols|], t.Symbol(), s);
    hide Action, Table, Next, Inv;
    assert (f + [Leaf(t)])[..|f|] == f;
  }

  /** The nodes over the right side of a production. */
  lemma {:induction false} SpellsTop(c: Config, f: seq<Node>, read: seq<Token>, p: nat)
    requires Spells(c, f, read) && 1 <= p <= 21 && 1 <= |RightSide(p)| <= |c.symbols|
    requires c.symbols[|c.symbols| - |RightSide(p)|..] == RightSide(p)
    ensures |f| == |c.symbols| && |c.values| == |c.symbols| + 1
    ensures var h, n := |c.symbols|, |RightSide(p)|;
        && NodesFit(p, f[h - n..], c.values[h + 1 - n..])
        && (f[h - 1].Leaf? ==> c.yytext == f[h - 1].token.Text())
  {
    hide Fits, NodeYield, ForestYield, RightSide;
    var h, n := |c.symbols|, |RightSide(p)|;
    forall i | 0 <= i < n
      ensures Fits(RightSide(p)[i], f[h - n..][i], c.values[h + 1 - n..][i])
    {
      assert c.symbols[h - n..][i] == c.symbols[h - n + i];
    }
  }

  /** One node in place of the top n. */
  lemma {:induction false} SpellsReplaced(
      c: Config, f: seq<Node>, read: seq<Token>, d: Config, n: nat, node: Node, x: Symbol, v: Json)
    requires Spells(c, f, read) && 1 <= n <= |c.symbols|
    requires d.symbols == c.symbols[..|c.symbols| - n] + [x] && d.values == c.values[..|c.values| - n] + [v]
    requires Fits(x, node, v) && NodeYield(node) == ForestYield(f[|f| - n..]) && !node.Leaf?
    ensures Spells(d, f[..|f| - n] + [node], read)
  {
    hide Fits, NodeYield;
    var g := f[..|f| - n] + [node];
    ForestSplit(f, |f| - n);
    assert g[..|g| - 1] == f[..|f| - n];
    assert ForestYield(g) == read;
    hide ForestYield;
  }

  lemma {:induction false} ReducedParts(c: Config, x: Symbol, p: nat)
    requires Inv(c) && Action(c.states[|c.symbols|], x) == Reduce(p) && p != 6
    ensures 1 <= p <= 21 && Operands(p, c.values) && Production(p).1 <= |c.symbols| && |c.values| == |c.symbols| + 1
    ensures var d, n := Reduced(c, x, p), Production(p).1;
        && d.symbols == c.symbols[..|c.symbols| - n] + [Production(p).0]
        && d.values == c.values[..|c.values| - n] + [PerformAction(p, c.yytext, c.values)]
  {
    hide Action, Table, Next, PerformAction, Operands, Production;
    PopHandle(c, x, p);
  }

  lemma {:induction false} SpellsReduce(c: Config, f: seq<Node>, read: seq<Token>, x: Symbol, p: nat)
    returns (g: seq<Node>)
    requires Inv(c) && Spells(c, f, read) && Action(c.states[|c.symbols|], x) == Reduce(p) && p != 6
    ensures Spells(Reduced(c, x, p), g, read)
  {
    hide Action, Table, Next, PerformAction, Operands, Fits, NodeYield, ForestYield, RightSide, Production, NewNode;
    hide Inv, Reduced, Spells;
    HandleOnTop(c, x, p);
    ReducedParts(c, x, p);
    RightSideLength(p);
    SpellsTop(c, f, read, p);
    var h, n := |c.symbols|, |RightSide(p)|;
    var ns, vs, base := f[h - n..], c.values[h + 1 - n..], c.values[..h + 1 - n];
    Build(p, c.yytext, ns, base, vs);
    assert base + vs == c.values;
    NewNodeNotLeaf(p, ns, vs);
    g := f[..h - n] + [NewNode(p, ns)];
    hide NodesFit;
    SpellsReplaced(c, f, read, Reduced(c, x, p), n, NewNode(p, ns),
      Production(p).0, PerformAction(p, c.yytext, c.values));
  }

  lemma {:induction false} NewNodeNotLeaf(p: nat, ns: seq<Node>, vs: seq<Json>)
    requires NodesFit(p, ns, vs) && p != 6
    ensures !NewNode(p, ns).Leaf?
  {
    hide Meaning, MeaningMembers, MeaningElements;
  }

  /** The tokens read so far and k more are a derivation of JSONText with value v. */
  ghost predicate Derived(read: seq<Token>, input: seq<Token>, v: Json) {
    exists t: Tree, k: nat ::
      k <= |input| && read + input[..k] == Yield(t) + [Fixed(EOF)] && v == Meaning(t)
  }

  /** Whatever the machine returns from here on is the value of a derivation. */
  lemma {:induction false} RunSound(c: Config, f: seq<Node>, read: seq<Token>, v: Json)
    requires Inv(c) && Spells(c, f, read) && Run(c) == Ok(v)
    ensures Derived(read, c.input, v)
    decreases |c.input|, |c.symbols|, TopRank(c)
  {
    var t := Lookahead(c);
    var x := t.Symbol();
    var state := c.states[|c.symbols|];
    hide Table, Action, Next, Yield, Meaning, PerformAction, Fits, NodeYield;
    match Action(state, x)
    case Error =>
    case Goto(_) =>
    case Accept =>
      NeverAccepts(c, f, read, x);
    case Shift(s) =>
      SpellsShift(c, f, read, t, s);
      StepKeeps(c);
      var d := ShiftToken(c, t, s);
      RunSound(d, f + [Leaf(t)], read + [t], v);
      DerivedShift(read, c.input, v);
    case Reduce(p) =>
      if p == 6 {
        FinalReduce(c, f, read, x);
      } else {
        var g := SpellsReduce(c, f, read, x, p);
        StepKeeps(c);
        RunSound(Reduced(c, x, p), g, read, v);
      }
  }

  lemma {:induction false} DerivedShift(read: seq<Token>, input: seq<Token>, v: Json)
    requires input != [] && Derived(read + [input[0]], input[1..], v)
    ensures Derived(read, input, v)
  {
    var t: Tree, k: nat :| k <= |input| - 1 &&
      read + [input[0]] + input[1..][..k] == Yield(t) + [Fixed(EOF)] && v == Meaning(t);
    assert read + [input[0]] + input[1..][..k] == read + input[..k + 1];
  }

  /** `return true` is never reached: state 1 would need JSONText on the stack. */
  lemma {:induction false} NeverAccepts(c: Config, f: seq<Node>, read: seq<Token>, x: Symbol)
    requires Inv(c) && Spells(c, f, read)
    ensures Action(c.states[|c.symbols|], x) != Accept
  {
    var h := |c.symbols|;
    if Action(c.states[h], x) == Accept {
      AcceptState(c.states[h], x);
      TopLinks(c);
      assert c.symbols[h - 1] == JSONText;
      assert Fits(JSONText, f[h - 1], c.values[h]);
      ValueNode(JSONText, f[h - 1], c.values[h]);
    }
  }

  lemma {:induction false} AcceptLow(state: nat, x: Symbol)
    requires Action(state, x) == Accept && state < 16
    ensures state == 1
  {
    hide ValueRow, ReduceOnFollow;
  }

  lemma {:induction false} AcceptHigh(state: nat, x: Symbol)
    requires state >= 16
    ensures Action(state, x) != Accept
  {
    hide ValueRow, ReduceOnFollow;
  }

  lemma {:induction false} AcceptState(state: nat, x: Symbol)
    requires Action(state, x) == Accept
    ensures state == 1
  {
    hide *;
    if state < 16 {
      AcceptLow(state, x);
    } else {
      AcceptHigh(state, x);
    }
  }

  /** The last reduction: a value and the end of the input are all there is on the stack. */
  lemma {:induction false} FinalReduce(c: Config, f: seq<Node>, read: seq<Token>, x: Symbol)
    requires Inv(c) && Spells(c, f, read) && Action(c.states[|c.symbols|], x) == Reduce(6)
    ensures Operands(6, c.values) && Derived(read, c.input, PerformAction(6, c.yytext, c.values))
  {
    var h := |c.symbols|;
    hide Table, Action, Next, Yield, Meaning;
    HandleOnTop(c, x, 6);
    ReduceState(c.states[h], x, 6);
    BottomOfStack(c);
    assert h == 2 && c.symbols == c.symbols[h - 2..] == [JSONValue, EOF];
    assert Fits(JSONValue, f[0], c.values[1]) && Fits(EOF, f[1], c.values[2]);
    ValueNode(JSONValue, f[0], c.values[1]);
    ValueNode(EOF, f[1], c.values[2]);
    TokenOf(f[1].token);
    assert f == [f[0], f[1]];
    ForestTwo(f[0], f[1]);
    assert read + c.input[..0] == Yield(f[0].tree) + [Fixed(EOF)];
  }

  lemma {:induction false} BottomOfStack(c: Config)
    requires Inv(c) && ReducedBy(c.states[|c.symbols|]) == 6
    ensures |c.symbols| == 2
  {
    var h := |c.symbols|;
    assert c.states[h] == 16;
    TopLinks(c);
    assert c.states[h - 1] == 2 && c.states[h - 2] == 0;
    if h > 2 {
      NextInverse(c.states[h - 3], c.symbols[h - 3], c.states[h - 2]);
    }
  }

  /** The tokens start with a derivation of JSONText whose meaning is v. */
  ghost predicate Derivable(tokens: seq<Token>, v: Json) {
    exists t: Tree :: Yield(t) + [Fixed(EOF)] <= tokens && v == Meaning(t)
  }

  lemma {:induction false} ParserSound(tokens: seq<Token>, v: Json)
    requires Parse(tokens) == Ok(v)
    ensures Derivable(tokens, v)
  {
    hide Yield, Meaning, Run;
    RunSound(Start(tokens), [], [], v);
    var t: Tree, k: nat :| k <= |tokens| && [] + tokens[..k] == Yield(t) + [Fixed(EOF)] && v == Meaning(t);
    assert tokens[..k] <= tokens;
    assert Yield(t) + [Fixed(EOF)] <= tokens;
  }

  /** The parser returns a value exactly on the token sequences that start with a derivation of
      JSONText, and the value is the meaning of that derivation. */
  lemma {:induction false} ParserCorrect(tokens: seq<Token>, v: Json)
    ensures Parse(tokens) == Ok(v) <==> Derivable(tokens, v)
  {
    hide Yield, Meaning, Parse;
    if Parse(tokens) == Ok(v) {
      ParserSound(tokens, v);
    }
    if Derivable(tokens, v) {
      var t: Tree :| Yield(t) + [Fixed(EOF)] <= tokens && v == Meaning(t);
      var y := Yield(t) + [Fixed(EOF)];
      assert tokens == y + tokens[|y|..];
      JsonComplete.ParserComplete(t, tokens[|y|..]);
    }
  }

  /** So the grammar is unambiguous as far as values go. */
  lemma {:induction false} MeaningUnique(t: Tree, u: Tree)
    requires Yield(t) == Yield(u)
    ensures Meaning(t) == Meaning(u)
  {
    JsonComplete.ParserComplete(t, []);
    JsonComplete.ParserComplete(u, []);
  }
}
