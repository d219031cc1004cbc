/** Whole texts: from text to tokens and back, and from text to values. */
module JsonText {
  import opened JsonValues
  import opened JsonParser
  import opened JsonGrammar
  import opened JsonLexemes
  import opened JsonLexer
  import opened JsonRead
  import opened JsonScan
  import JsonSound
  import opened Regex
  import opened Wrappers

  // ---- whole texts ----

  lemma {:induction false} RenderHead(ts: seq<Token>, ws: seq<string>)
    requires |ws| == |ts| + 1
    ensures ts == [] ==> Render(ts, ws) == ws[0] + []
    ensures ts != [] ==> Render(ts, ws) == ws[0] + (Spelling(ts[0]) + Render(ts[1..], ws[1..]))
  {
    hide Spelling;
    if ts != [] {
      assert ws[0] + Spelling(ts[0]) + Render(ts[1..], ws[1..]) == ws[0] + (Spelling(ts[0]) + Render(ts[1..], ws[1..]));
    }
  }

  /** Behind a word comes white space, a token that starts no word, or the end. */
  lemma {:induction false} WordEndsInRender(ts: seq<Token>, ws: seq<string>)
    requires |ws| == |ts| + 1 && Gap(ws[0])
    requires ts != [] ==> Lexical(ts[0]) && (StartsWord(ts[0]) ==> ws[0] != [])
    ensures WordEnds(Render(ts, ws))
  {
    RenderHead(ts, ws);
    hide Lexical, StartsWord;
    if ws[0] != [] {
      assert Blank(ws[0][0]);
      assert Render(ts, ws)[0] == ws[0][0];
    } else if ts != [] {
      SpellingStarts(ts[0]);
      assert Render(ts, ws)[0] == Spelling(ts[0])[0];
    }
  }

  lemma {:induction false} SpelledTail(text: string, ts: seq<Token>, ws: seq<string>)
    requires Spelled(text, ts, ws) && ts != []
    ensures Spelled(Render(ts[1..], ws[1..]), ts[1..], ws[1..])
    ensures Lexical(ts[0]) && Gap(ws[0])
    ensures |ts| > 1 && Wordy(ts[0]) && StartsWord(ts[1]) ==> ws[1] != []
  {
    hide Wordy, StartsWord, Lexical, Gap, Render;
    assert forall i :: 0 <= i < |ts| - 1 ==> ts[1..][i] == ts[i + 1];
    assert forall i :: 0 <= i < |ts| ==> ws[1..][i] == ws[i + 1];
  }

  /** A text spelled out of lexemes is lexed to them, whatever the white space. */
  lemma {:induction false} LexSpelled(text: string, ts: seq<Token>, ws: seq<string>)
    requires Spelled(text, ts, ws)
    ensures Tokens(text) == ts + [Fixed(EOF)]
    decreases |ts|
  {
    SpelledParts(text, ts, ws);
    hide *;
    RenderHead(ts, ws);
    if ts == [] {
      LexSpaces(ws[0], []);
      LexEnd();
      TokensUnfold(ws[0] + []);
    } else {
      var t, rest := ts[0], Render(ts[1..], ws[1..]);
      SpelledTail(text, ts, ws);
      SpelledParts(rest, ts[1..], ws[1..]);
      if Wordy(t) {
        WordEndsInRender(ts[1..], ws[1..]);
      }
      LexOne(t, ws[0], rest);
      TokensUnfold(ws[0] + (Spelling(t) + rest));
      LexSpelled(rest, ts[1..], ws[1..]);
      assert ts == [t] + ts[1..];
    }
  }

  lemma {:induction false} SpelledParts(text: string, ts: seq<Token>, ws: seq<string>)
    requires Spelled(text, ts, ws)
    ensures |ws| == |ts| + 1 && text == Render(ts, ws) && Gap(ws[0])
    ensures ts != [] ==> Lexical(ts[0])
  {
    hide Gap, Lexical, Render, Apart;
  }

  lemma {:induction false} LexEnd()
    ensures NextToken([]) == (Fixed(EOF), [])
  {
    RuleFound([], 0);
  }

  // ---- back from the tokens to the text ----

  lemma {:induction false} StartsWordIs(t: Token)
    requires Lexical(t) && StartsWord(t)
    ensures Spelling(t) != [] && IsWord(Spelling(t)[0])
  {
    match t
    case NumberToken(s) => NumberStarts(s);
    case _ =>
  }

  /** White space in front of a spelled text. */
  lemma {:induction false} SpelledSkip(w: string, rest: string, ts: seq<Token>, ws: seq<string>)
    returns (ws': seq<string>)
    requires Gap(w) && Spelled(rest, ts, ws)
    ensures Spelled(w + rest, ts, ws')
  {
    ws' := [w + ws[0]] + ws[1..];
    assert ws'[1..] == ws[1..];
    assert forall i :: 1 <= i < |ws| ==> ws'[i] == ws[i];
    hide Lexical, Wordy, StartsWord, Blank;
    RenderSkip(w, ts, ws, ws');
  }

  lemma {:induction false} RenderSkip(w: string, ts: seq<Token>, ws: seq<string>, ws': seq<string>)
    requires |ws| == |ts| + 1 == |ws'| && ws'[0] == w + ws[0] && ws'[1..] == ws[1..]
    ensures Render(ts, ws') == w + Render(ts, ws)
  {
    hide Spelling;
    RenderHead(ts, ws);
    RenderHead(ts, ws');
    hide Render;
    if ts != [] {
      var more := Spelling(ts[0]) + Render(ts[1..], ws[1..]);
      assert w + ws[0] + more == w + (ws[0] + more);
    }
  }

  lemma {:induction false} WordAhead(text: string, ts: seq<Token>, ws: seq<string>)
    requires Spelled(text, ts, ws) && ts != []
    ensures StartsWord(ts[0]) && ws[0] == [] ==> text != [] && IsWord(text[0])
  {
    RenderHead(ts, ws);
    if StartsWord(ts[0]) && ws[0] == [] {
      StartsWordIs(ts[0]);
      hide Spelling, IsWord;
      assert text[0] == Spelling(ts[0])[0];
    }
  }

  /** A lexeme in front of a spelled text. */
  lemma {:induction false} SpelledCons(t: Token, rest: string, ts: seq<Token>, ws: seq<string>)
    requires Lexical(t) && Spelled(rest, ts, ws)
    requires Wordy(t) && rest != [] ==> !IsWord(rest[0])
    ensures Spelled(Spelling(t) + rest, [t] + ts, [""] + ws)
  {
    var us, vs := [t] + ts, [""] + ws;
    hide Lexical, Wordy, StartsWord, Gap, IsWord, Spelling;
    assert us[1..] == ts && vs[1..] == ws;
    assert Render(us, vs) == Spelling(t) + rest by {
      assert "" + Spelling(t) == Spelling(t);
    }
    assert Gap("") by {
      EmptyGap();
    }
    assert forall i :: 0 <= i < |ts| ==> us[i + 1] == ts[i];
    assert forall i :: 0 <= i < |ws| ==> vs[i + 1] == ws[i];
    if ts != [] {
      WordAhead(rest, ts, ws);
    }
  }

  lemma {:induction false} EmptyGap()
    ensures Gap("")
  {
  }

  /** If the lexer finds nothing invalid, the text is the spelling of the tokens, with nothing between them
      but white space. */
  lemma {:induction false} LexSound(text: string) returns (ts: seq<Token>, ws: seq<string>)
    requires forall t :: t in Tokens(text) ==> !t.InvalidToken?
    ensures Tokens(text) == ts + [Fixed(EOF)] && Spelled(text, ts, ws)
    decreases |text|
  {
    hide Rule, Matches, FirstRule, LexAction, Tokens, Spelled, Lexical, Wordy, Gap, Spelling, IsWord;
    TokensStep(text);
    RuleTakes(text);
    var r := FirstRule(text, 0);
    var n := r.length;
    var rest := text[n..];
    assert text == text[..n] + rest;
    match LexAction(r.rule, text[..n])
    case Skip =>
      ts, ws := LexSound(rest);
      ws := SpelledSkip(text[..n], rest, ts, ws);
    case Lexed(t) =>
      assert t in Tokens(text);
      if text == [] {
        ts, ws := [], [""];
        NothingSpelled();
        assert [] + [Fixed(EOF)] == [Fixed(EOF)];
      } else {
        assert forall x :: x in Tokens(rest) ==> x in Tokens(text);
        assert rest != [] ==> rest[0] == text[n];
        ts, ws := LexSound(rest);
        SpelledCons(t, rest, ts, ws);
        assert [t] + (ts + [Fixed(EOF)]) == [t] + ts + [Fixed(EOF)];
        ts, ws := [t] + ts, [""] + ws;
      }
  }

  lemma {:induction false} NothingSpelled()
    ensures Spelled("", [], [""])
  {
  }

  /** The lexer turns a text into lexemes and nothing else exactly if the text is spelled out of them. */
  lemma {:induction false} LexCorrect(text: string, ts: seq<Token>)
    requires forall t :: t in ts ==> !t.InvalidToken?
    ensures Tokens(text) == ts + [Fixed(EOF)] <==> exists ws :: Spelled(text, ts, ws)
  {
    hide Tokens, Spelled;
    if Tokens(text) == ts + [Fixed(EOF)] {
      var us, ws := LexSound(text);
      assert us == (us + [Fixed(EOF)])[..|us|] == ts;
    }
    if ws :| Spelled(text, ts, ws) {
      LexSpelled(text, ts, ws);
    }
  }

  // ---- trees ----

  /** Trees whose strings and numbers are lexemes. */
  ghost predicate LexicalTree(t: Tree) {
    match t
    case TString(s) => StringText(s)
    case TNumber(s) => NumberText(s)
    case TArray(ts) => forall i :: 0 <= i < |ts| ==> LexicalTree(ts[i])
    case TObject(ms) => forall i :: 0 <= i < |ms| ==> StringText(ms[i].key) && LexicalTree(ms[i].value)
    case _ => true
  }

  ghost predicate AllLexical(ts: seq<Token>) {
    forall i :: 0 <= i < |ts| ==> Lexical(ts[i])
  }

  /** No two words in a row, nothing invalid and no end of the input. */
  ghost predicate Separate(ts: seq<Token>) {
    && (forall i :: 0 <= i < |ts| - 1 ==> !(Wordy(ts[i]) && Wordy(ts[i + 1])))
    && (forall i :: 0 <= i < |ts| ==> !ts[i].InvalidToken? && ts[i] != Fixed(EOF))
  }

  /** Around a comma, a colon or a bracket nothing runs together. */
  lemma {:induction false} JoinTokens(a: seq<Token>, x: Token, b: seq<Token>)
    requires Separate(a) && Separate(b) && Lexical(x) && !Wordy(x)
    ensures Separate(a + [x] + b) && (AllLexical(a + [x] + b) <==> AllLexical(a) && AllLexical(b))
  {
    assert x != Fixed(EOF) && !x.InvalidToken?;
    hide Wordy, Lexical;
    JoinSeparate(a, x, b);
    hide Separate;
    var ts := a + [x] + b;
    assert forall i :: 0 <= i < |a| ==> ts[i] == a[i];
    assert forall i :: 0 <= i < |b| ==> ts[|a| + 1 + i] == b[i];
    assert forall i :: |a| < i < |ts| ==> ts[i] == b[i - |a| - 1];
  }

  lemma {:induction false} JoinSeparate(a: seq<Token>, x: Token, b: seq<Token>)
    requires Separate(a) && Separate(b) && !x.InvalidToken? && x != Fixed(EOF) && !Wordy(x)
    ensures Separate(a + [x] + b)
  {
    hide Wordy;
    var ts := a + [x] + b;
    forall i | 0 <= i < |ts| - 1
      ensures !(Wordy(ts[i]) && Wordy(ts[i + 1]))
    {
      if i + 1 < |a| {
        assert ts[i] == a[i] && ts[i + 1] == a[i + 1];
      } else if i > |a| {
        var k := i - |a| - 1;
        assert ts[i] == b[k] && ts[i + 1] == b[k + 1];
      }
    }
  }

  /** The tokens of a tree have nothing that runs together, and are lexemes exactly if the tree's are. */
  lemma {:induction false} YieldLexical(t: Tree)
    ensures Separate(Yield(t)) && (AllLexical(Yield(t)) <==> LexicalTree(t))
    decreases t, 1
  {
    hide Lexical, Separate, AllLexical;
    match t
    case TArray(ts) =>
      ElementsLexical(ts);
      Enclose(Fixed(LBRACKET), YieldElements(ts), Fixed(RBRACKET));
    case TObject(ms) =>
      MembersLexical(ms);
      Enclose(Fixed(LBRACE), YieldMembers(ms), Fixed(RBRACE));
    case _ =>
      LeafLexical(t);
  }

  lemma {:induction false} LeafLexical(t: Tree)
    requires !t.TArray? && !t.TObject?
    ensures Separate(Yield(t)) && (AllLexical(Yield(t)) <==> LexicalTree(t))
  {
    hide StringText, NumberText;
    assert |Yield(t)| == 1;
    assert AllLexical(Yield(t)) <==> Lexical(Yield(t)[0]);
  }

  lemma {:induction false} Enclose(open: Token, body: seq<Token>, close: Token)
    requires Separate(body) && open.Fixed? && close.Fixed?
    requires open.symbol in {LBRACE, LBRACKET} && close.symbol in {RBRACE, RBRACKET}
    ensures var ts := [open] + body + [close];
            Separate(ts) && (AllLexical(ts) <==> AllLexical(body))
  {
    assert Separate([]) && AllLexical([]);
    hide Separate, AllLexical;
    JoinTokens([], open, body);
    assert [] + [open] + body == [open] + body;
    JoinTokens([open] + body, close, []);
    assert [open] + body + [close] + [] == [open] + body + [close];
  }

  ghost predicate LexicalElements(ts: seq<Tree>) {
    forall i :: 0 <= i < |ts| ==> LexicalTree(ts[i])
  }

  lemma {:induction false} LastElement(ts: seq<Tree>)
    requires ts != []
    ensures var n := |ts| - 1;
            && (LexicalElements(ts) <==> LexicalElements(ts[..n]) && LexicalTree(ts[n]))
            && (n == 0 ==> LexicalElements(ts[..n]) && YieldElements(ts) == Yield(ts[n]))
            && (n > 0 ==> YieldElements(ts) == YieldElements(ts[..n]) + [Fixed(COMMA)] + Yield(ts[n]))
  {
    hide LexicalTree, Yield;
    var n := |ts| - 1;
    assert forall i :: 0 <= i < n ==> ts[..n][i] == ts[i];
  }

  lemma {:induction false} ElementsLexical(ts: seq<Tree>)
    ensures Separate(YieldElements(ts)) && (AllLexical(YieldElements(ts)) <==> LexicalElements(ts))
    decreases ts, 0
  {
    if ts != [] {
      var n := |ts| - 1;
      hide LexicalTree, Yield, Separate, AllLexical, YieldElements, LexicalElements;
      YieldLexical(ts[n]);
      LastElement(ts);
      if n > 0 {
        ElementsLexical(ts[..n]);
        JoinTokens(YieldElements(ts[..n]), Fixed(COMMA), Yield(ts[n]));
      }
    }
  }

  lemma {:induction false} MemberLexical(m: Member)
    requires Separate(Yield(m.value)) && (AllLexical(Yield(m.value)) <==> LexicalTree(m.value))
    ensures Separate(YieldMember(m))
    ensures AllLexical(YieldMember(m)) <==> StringText(m.key) && LexicalTree(m.value)
  {
    LeafLexical(TString(m.key));
    assert Yield(TString(m.key)) == [StringToken(m.key)];
    assert LexicalTree(TString(m.key)) <==> StringText(m.key);
    assert YieldMember(m) == [StringToken(m.key)] + [Fixed(COLON)] + Yield(m.value) by {
      hide Yield;
    }
    var colon := Fixed(COLON);
    assert Lexical(colon) && !Wordy(colon);
    hide *;
    JoinTokens([StringToken(m.key)], colon, Yield(m.value));
  }

  ghost predicate LexicalMembers(ms: seq<Member>) {
    forall i :: 0 <= i < |ms| ==> StringText(ms[i].key) && LexicalTree(ms[i].value)
  }

  lemma {:induction false} LastMember(ms: seq<Member>)
    requires ms != []
    ensures var n := |ms| - 1;
            LexicalMembers(ms) <==> LexicalMembers(ms[..n]) && StringText(ms[n].key) && LexicalTree(ms[n].value)
  {
    hide StringText, LexicalTree;
    var n := |ms| - 1;
    assert forall i :: 0 <= i < n ==> ms[..n][i] == ms[i];
  }

  lemma {:induction false} MembersLexical(ms: seq<Member>)
    ensures Separate(YieldMembers(ms)) && (AllLexical(YieldMembers(ms)) <==> LexicalMembers(ms))
    decreases ms, 0
  {
    if ms != [] {
      var n := |ms| - 1;
      var m := ms[n];
      YieldLexical(m.value);
      hide Separate, AllLexical, StringText, LexicalTree, Yield, LexicalMembers;
      MemberLexical(m);
      LastMember(ms);
      hide YieldMember;
      if n == 0 {
        SingletonMember(m);
        assert ms == [m] && ms[..n] == [];
      } else {
        MembersLexical(ms[..n]);
        JoinTokens(YieldMembers(ms[..n]), Fixed(COMMA), YieldMember(m));
      }
    }
  }

  lemma {:induction false} SingletonMember(m: Member)
    ensures YieldMembers([m]) == YieldMember(m) && LexicalMembers([])
  {
    SingletonLists(m, TNull);
  }

  // ---- texts ----

  /** The text writes the tree down: its tokens, spelled one after the other, and white space anywhere
      between them, before them and after them. */
  ghost predicate WritesTree(text: string, t: Tree, ws: seq<string>) {
    && LexicalTree(t) && |ws| == |Yield(t)| + 1 && (forall i :: 0 <= i < |ws| ==> Gap(ws[i]))
    && text == Render(Yield(t), ws)
  }

  lemma {:induction false} TreeSpelled(text: string, t: Tree, ws: seq<string>)
    ensures WritesTree(text, t, ws) <==> Spelled(text, Yield(t), ws)
  {
    YieldLexical(t);
    hide LexicalTree, Lexical, Wordy, Gap, Render, Yield;
  }

  lemma {:induction false} OnlyEnd(text: string)
    ensures Tokens(text) != [] && Tokens(text)[|Tokens(text)| - 1] == Fixed(EOF)
    ensures forall i :: 0 <= i < |Tokens(text)| - 1 ==> Tokens(text)[i] != Fixed(EOF)
    decreases |text|
  {
    hide *;
    TokensStep(text);
    var r := FirstRule(text, 0);
    if LexAction(r.rule, text[..r.length]).Skip? || text != [] {
      OnlyEnd(text[r.length..]);
    }
  }

  /** A value is read from a text exactly if the text writes down a tree that means it: a tree of the
      grammar of RFC 8259, spelled with the strings, numbers and names of RFC 8259, with the white space of
      ECMAScript. */
  lemma {:induction false} TextCorrect(text: string, v: Json)
    ensures Parse(Tokens(text)) == Ok(v) <==> exists t, ws :: WritesTree(text, t, ws) && Meaning(t) == v
  {
    hide Yield, Meaning, Parse, Tokens, WritesTree, Spelled;
    JsonSound.ParserCorrect(Tokens(text), v);
    if Parse(Tokens(text)) == Ok(v) {
      var t: Tree :| Yield(t) + [Fixed(EOF)] <= Tokens(text) && v == Meaning(t);
      WholeText(text, t);
      YieldLexical(t);
      hide Separate;
      LexCorrect(text, Yield(t));
      var ws :| Spelled(text, Yield(t), ws);
      TreeSpelled(text, t, ws);
    }
    if t, ws :| WritesTree(text, t, ws) && Meaning(t) == v {
      TreeSpelled(text, t, ws);
      LexSpelled(text, Yield(t), ws);
      assert Yield(t) + [Fixed(EOF)] <= Tokens(text);
    }
  }

  lemma {:induction false} WholeText(text: string, t: Tree)
    requires Yield(t) + [Fixed(EOF)] <= Tokens(text)
    ensures Tokens(text) == Yield(t) + [Fixed(EOF)]
    ensures forall x :: x in Yield(t) ==> !x.InvalidToken?
  {
    OnlyEnd(text);
    YieldLexical(t);
    hide Yield, Tokens;
    var ts, y := Tokens(text), Yield(t);
    assert ts[|y|] == (y + [Fixed(EOF)])[|y|] == Fixed(EOF);
  }

  /** A value exactly if the text writes down a tree, and then its meaning; an exception otherwise. */
  ghost predicate Understands(text: string, o: Outcome) {
    match o
    case Ok(v) => exists t, ws :: WritesTree(text, t, ws) && Meaning(t) == v
    case Throws => forall t, ws :: !WritesTree(text, t, ws)
  }

  lemma {:induction false} ParseUnderstands(text: string)
    ensures Understands(text, Parse(Tokens(text)))
  {
    hide WritesTree, Parse, Tokens, Meaning;
    var o := Parse(Tokens(text));
    match o
    case Ok(v) => TextCorrect(text, v);
    case Throws =>
      forall t, ws
        ensures !WritesTree(text, t, ws)
      {
        TextCorrect(text, Meaning(t));
      }
  }
}
